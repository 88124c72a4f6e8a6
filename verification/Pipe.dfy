/** The whole tunnel: a wifi-side session, a VPS-side session, and a reliable FIFO message
    channel each way. Every interleaving of completions, datagrams, errors and closes is a run. */
module Pipe {
  import opened Wire
  import opened Relay
  import Wifi = WifiSpec
  import Vps = VpsSpec

  datatype System = System(
    wifi: Conn,
    vps: Vps.Vps,
    up: seq<Message>,      // sent by the wifi side, not yet taken by the VPS side
    down: seq<Message>)    // sent by the VPS side, not yet taken by the wifi side

  datatype Event =
    | WifiRead(r: ReadResult, segs: nat)
    | WifiWrite(w: WriteResult)
    | WifiInput(acked: nat, count: nat)
    | VpsRead(r: ReadResult, segs: nat)
    | VpsWrite(w: WriteResult)
    | VpsInput(acked: nat, count: nat)
    | VpsConnect(ok: bool)

  function Init(ep: Endpoint, segs: nat): System {
    System(Wifi.Started(ep, segs), Vps.FRESH, [EncodeNewSession(ep)], [])
  }

  /** A read fits the receive buffer behind the 4-byte status. */
  predicate Fits(r: ReadResult) {
    r.ReadBytes? ==> |r.data| <= BUFFER_SIZE - STATUS_SIZE
  }

  /** What a completed read puts into the channel. */
  function Sent(r: ReadResult): seq<Message> {
    if r.ReadBytes? && r.data != [] then [EncodeNormal(r.data)] else []
  }

  /** Completions answer an operation that is outstanding; nothing happens after undefined behaviour. */
  predicate Enabled(s: System, e: Event, F: nat) {
    && !s.vps.undefined
    && match e
       case WifiRead(r, segs) => s.wifi.reading > 0 && Fits(r) && 1 <= segs <= F
       case WifiWrite(w) => Wifi.CanWrite(s.wifi, w)
       case WifiInput(acked, count) => acked <= s.wifi.backlog && count <= |s.down|
       case VpsRead(r, segs) => s.vps.conn.reading > 0 && Fits(r) && 1 <= segs <= F
       case VpsWrite(w) => Vps.CanWrite(s.vps, w)
       case VpsInput(acked, count) => acked <= s.vps.conn.backlog && count <= |s.up|
       case VpsConnect(ok) => s.vps.connecting > 0
  }

  function Next(s: System, e: Event, F: nat): System
    requires Enabled(s, e, F)
  {
    match e
    case WifiRead(r, segs) =>
      s.(wifi := ReadDone(s.wifi, r, segs), up := s.up + Sent(r))
    case WifiWrite(w) => s.(wifi := Wifi.WriteDone(s.wifi, w))
    case WifiInput(acked, count) =>
      s.(wifi := Wifi.Input(s.wifi, acked, s.down[..count]),
         down := if s.wifi.closed then s.down else s.down[count..])
    case VpsRead(r, segs) =>
      s.(vps := Vps.ReadDone(s.vps, r, segs), down := s.down + Sent(r))
    case VpsWrite(w) => s.(vps := Vps.WriteDone(s.vps, w))
    case VpsInput(acked, count) =>
      s.(vps := Vps.Input(s.vps, acked, s.up[..count]),
         up := if s.vps.conn.closed then s.up else s.up[count..])
    case VpsConnect(ok) => s.(vps := Vps.ConnectDone(s.vps, ok))
  }

  predicate Legal(s: System, es: seq<Event>, F: nat)
    decreases |es|
  {
    es == [] || (Enabled(s, es[0], F) && Legal(Next(s, es[0], F), es[1..], F))
  }

  function Run(s: System, es: seq<Event>, F: nat): System
    requires Legal(s, es, F)
    decreases |es|
  {
    if es == [] then s else Run(Next(s, es[0], F), es[1..], F)
  }

  // ---------- the invariant ----------

  /** A message either side may send after the first: TCP bytes, within one buffer. */
  predicate Carrier(m: Message) {
    IsNormal(m) && |m| <= BUFFER_SIZE
  }

  predicate AllCarriers(ms: seq<Message>) {
    forall i | 0 <= i < |ms| :: Carrier(ms[i])
  }

  predicate ChannelInv(s: System, ep: Endpoint) {
    && s.wifi.sent == s.vps.conn.received + s.up
    && s.vps.conn.sent == s.wifi.received + s.down
    && s.wifi.sent != [] && s.wifi.sent[0] == EncodeNewSession(ep)
    && AllCarriers(s.wifi.sent[1..])
    && AllCarriers(s.vps.conn.sent)
    && s.wifi.read == Bytes(s.wifi.sent)
    && s.vps.conn.read == Bytes(s.vps.conn.sent)
    && s.wifi.inlet == Flowing && s.vps.conn.inlet == Flowing
  }

  predicate HandshakeInv(v: Vps.Vps, ep: Endpoint) {
    && v.handshakes == (if v.conn.received == [] then [] else [ep])
    && (v.enable ==> v.connecting == 0)
  }

  predicate Inv(s: System, ep: Endpoint, F: nat) {
    && Wifi.Inv(s.wifi, F)
    && Vps.Inv(s.vps, F)
    && ChannelInv(s, ep)
    && HandshakeInv(s.vps, ep)
  }

  lemma InitInv(ep: Endpoint, segs: nat, F: nat)
    requires segs <= F < HIGH_WATER && F >= 1
    ensures Inv(Init(ep, segs), ep, F)
  {
    NewSessionRoundTrip(ep);
    var m := EncodeNewSession(ep);
    assert Bytes([m]) == Payload(m) + Bytes([]);
  }

  /** A read adds its bytes to the history and at most one carrier to the channel. */
  lemma ReadSends(c: Conn, r: ReadResult, segs: nat)
    requires c.reading > 0 && Fits(r) && c.read == Bytes(c.sent)
    ensures var d := ReadDone(c, r, segs);
      d.sent == c.sent + Sent(r) && d.read == Bytes(d.sent) && d.received == c.received && d.inlet == c.inlet
    ensures AllCarriers(Sent(r))
  {
    if Sent(r) == [] {
      assert c.sent + Sent(r) == c.sent;
    } else {
      NormalRoundTrip(r.data);
      BytesSnoc(c.sent, EncodeNormal(r.data));
    }
  }

  lemma WifiSends(s: System, wifi: Conn, more: seq<Message>, ep: Endpoint)
    requires ChannelInv(s, ep) && AllCarriers(more)
    requires wifi.sent == s.wifi.sent + more && wifi.read == Bytes(wifi.sent)
    requires wifi.received == s.wifi.received && wifi.inlet == s.wifi.inlet
    ensures ChannelInv(s.(wifi := wifi, up := s.up + more), ep)
  {
    assert wifi.sent[1..] == s.wifi.sent[1..] + more;
    assert s.vps.conn.received + (s.up + more) == wifi.sent;
  }

  lemma WifiReadKeepsInv(s: System, r: ReadResult, segs: nat, ep: Endpoint, F: nat)
    requires Inv(s, ep, F) && Enabled(s, WifiRead(r, segs), F)
    ensures Inv(Next(s, WifiRead(r, segs), F), ep, F)
  {
    Wifi.ReadDoneKeepsInv(s.wifi, r, segs, F);
    ReadSends(s.wifi, r, segs);
    WifiSends(s, ReadDone(s.wifi, r, segs), Sent(r), ep);
  }

  lemma VpsReadKeepsInv(s: System, r: ReadResult, segs: nat, ep: Endpoint, F: nat)
    requires Inv(s, ep, F) && Enabled(s, VpsRead(r, segs), F)
    ensures Inv(Next(s, VpsRead(r, segs), F), ep, F)
  {
    Vps.ReadDoneKeepsInv(s.vps, r, segs, F);
    ReadSends(s.vps.conn, r, segs);
    assert s.wifi.received + (s.down + Sent(r)) == s.wifi.received + s.down + Sent(r);
  }

  /** Everything on its way can be taken. */
  lemma ChannelReceivable(s: System, ep: Endpoint, ms: seq<Message>, handshake: bool)
    requires ChannelInv(s, ep) && (ms <= s.up || ms <= s.down)
    ensures Taken(ms, handshake) == ms && StateAfter(ms, handshake) == Flowing
  {
    NewSessionRoundTrip(ep);
    forall i | 0 <= i < |ms| ensures Receivable(ms[i], handshake) {
      InTransit(s, ep, ms[i]);
    }
    TakenExact(ms, handshake);
  }

  lemma WifiTakes(s: System, wifi: Conn, count: nat, ep: Endpoint)
    requires ChannelInv(s, ep) && count <= |s.down|
    requires wifi.sent == s.wifi.sent && wifi.read == s.wifi.read && wifi.inlet == s.wifi.inlet
    requires wifi.received == s.wifi.received + s.down[..count]
    ensures ChannelInv(s.(wifi := wifi, down := s.down[count..]), ep)
  {
    assert s.wifi.received + s.down == wifi.received + s.down[count..];
  }

  lemma WifiInputKeepsInv(s: System, acked: nat, count: nat, ep: Endpoint, F: nat)
    requires Inv(s, ep, F) && Enabled(s, WifiInput(acked, count), F)
    ensures Inv(Next(s, WifiInput(acked, count), F), ep, F)
  {
    var ms := s.down[..count];
    Wifi.InputKeepsInv(s.wifi, acked, ms, F);
    ChannelReceivable(s, ep, s.down[..count], false);
    if !s.wifi.closed {
      WifiTakes(s, Wifi.Input(s.wifi, acked, ms), count, ep);
    }
  }

  /** Only the first message of a session is a newSession, so it is the only one to connect. */
  lemma {:induction false} TakeAllConnects(v: Vps.Vps, ms: seq<Message>, ep: Endpoint)
    requires v.conn.inlet == Flowing && Taken(ms, true) == ms
    requires v.conn.received == [] ==> ms == [] || ms[0] == EncodeNewSession(ep)
    requires v.conn.received == [] ==> v.status == NEW_SESSION && v.connecting == 0
    requires AllNormal(if v.conn.received == [] && ms != [] then ms[1..] else ms)
    requires HandshakeInv(v, ep) && (v.conn.received == [] ==> !v.enable)
    ensures HandshakeInv(Vps.TakeAll(v, ms), ep)
    decreases ms
  {
    if ms == [] {
    } else {
      NewSessionRoundTrip(ep);
      TakeAllConnects(Vps.Take(v, ms[0]), ms[1..], ep);
    }
  }

  /** What the VPS side takes from the channel: the announcement first, then carriers only. */
  lemma ChannelHead(s: System, ep: Endpoint, count: nat)
    requires ChannelInv(s, ep) && count <= |s.up|
    ensures s.vps.conn.received == [] && count > 0 ==> s.up[0] == EncodeNewSession(ep)
    ensures AllNormal(if s.vps.conn.received == [] && count > 0 then s.up[1..count] else s.up[..count])
  {
    var n := |s.vps.conn.received|;
    assert forall i | 0 <= i < |s.up| :: s.up[i] == s.wifi.sent[n + i];
    assert forall i | 1 <= i < |s.wifi.sent| :: s.wifi.sent[i] == s.wifi.sent[1..][i - 1];
  }

  lemma VpsInputHandshake(s: System, acked: nat, count: nat, ep: Endpoint)
    requires ChannelInv(s, ep) && HandshakeInv(s.vps, ep) && acked <= s.vps.conn.backlog
    requires s.vps.conn.received == [] ==> s.vps.status == NEW_SESSION && s.vps.connecting == 0 && !s.vps.enable
    requires count <= |s.up| && Taken(s.up[..count], true) == s.up[..count]
    ensures HandshakeInv(Vps.Input(s.vps, acked, s.up[..count]), ep)
  {
    ChannelHead(s, ep, count);
    var ms := s.up[..count];
    assert count > 0 ==> ms[1..] == s.up[1..count];
    TakeAllConnects(s.vps.(conn := Acknowledge(s.vps.conn, acked)), ms, ep);
  }

  lemma VpsTakes(s: System, vps: Vps.Vps, count: nat, ep: Endpoint)
    requires ChannelInv(s, ep) && count <= |s.up|
    requires vps.conn.sent == s.vps.conn.sent && vps.conn.read == s.vps.conn.read
    requires vps.conn.inlet == s.vps.conn.inlet
    requires vps.conn.received == s.vps.conn.received + s.up[..count]
    ensures ChannelInv(s.(vps := vps, up := s.up[count..]), ep)
  {
    assert s.vps.conn.received + s.up == vps.conn.received + s.up[count..];
  }

  lemma VpsInputKeepsInv(s: System, acked: nat, count: nat, ep: Endpoint, F: nat)
    requires Inv(s, ep, F) && Enabled(s, VpsInput(acked, count), F)
    ensures Inv(Next(s, VpsInput(acked, count), F), ep, F)
  {
    var ms := s.up[..count];
    Vps.InputKeepsInv(s.vps, acked, ms, F);
    ChannelReceivable(s, ep, ms, true);
    VpsInputHandshake(s, acked, count, ep);
    if !s.vps.conn.closed {
      VpsTakes(s, Vps.Input(s.vps, acked, ms), count, ep);
    }
  }

  lemma NextKeepsInv(s: System, e: Event, ep: Endpoint, F: nat)
    requires Inv(s, ep, F) && Enabled(s, e, F)
    ensures Inv(Next(s, e, F), ep, F)
  {
    match e
    case WifiRead(r, segs) => WifiReadKeepsInv(s, r, segs, ep, F);
    case WifiWrite(w) => Wifi.WriteDoneKeepsInv(s.wifi, w, F);
    case WifiInput(acked, count) => WifiInputKeepsInv(s, acked, count, ep, F);
    case VpsRead(r, segs) => VpsReadKeepsInv(s, r, segs, ep, F);
    case VpsWrite(w) => Vps.WriteDoneKeepsInv(s.vps, w, F);
    case VpsInput(acked, count) => VpsInputKeepsInv(s, acked, count, ep, F);
    case VpsConnect(ok) =>
      if ok {
        Vps.ConnectKeepsInv(s.vps, F);
      } else {
        Vps.ConnectFailedKeepsInv(s.vps, F);
      }
  }

  lemma {:induction false} RunKeepsInv(s: System, es: seq<Event>, ep: Endpoint, F: nat)
    requires Inv(s, ep, F) && Legal(s, es, F)
    ensures Inv(Run(s, es, F), ep, F)
    decreases |es|
  {
    if es == [] {
    } else {
      NextKeepsInv(s, es[0], ep, F);
      RunKeepsInv(Next(s, es[0], F), es[1..], ep, F);
    }
  }

  // ---------- what it is for ----------

  /** Safety of the tunnel, in every state of every run. */
  lemma EndToEnd(ep: Endpoint, segs: nat, es: seq<Event>, F: nat)
    requires segs <= F < HIGH_WATER && F >= 1
    requires Legal(Init(ep, segs), es, F)
    ensures var s := Run(Init(ep, segs), es, F);
      // bytes arrive in order, unaltered, in both directions
      && s.vps.conn.written <= s.wifi.read == BytesRead(es, true)
      && s.wifi.written <= s.vps.conn.read == BytesRead(es, false)
      // the target is connected to at most once, and it is the one the client asked for
      && s.vps.handshakes <= [ep]
      && (s.vps.enable ==> s.vps.handshakes == [ep])
      && (!s.vps.enable ==> s.vps.conn.written == [])
  {
    InitInv(ep, segs, F);
    RunKeepsInv(Init(ep, segs), es, ep, F);
    HistoriesExact(ep, segs, es, F);
    var s := Run(Init(ep, segs), es, F);
    BytesConcat(s.vps.conn.received, s.up);
    BytesConcat(s.wifi.received, s.down);
    assert s.vps.conn.written <= Bytes(s.vps.conn.received) <= s.wifi.read;
    assert s.wifi.written <= Bytes(s.wifi.received) <= s.vps.conn.read;
  }

  /** Conservation: while the receiving session is open, every byte read is written, queued
      behind the write in flight, or still in the channel; none is lost or duplicated. */
  lemma NothingLost(ep: Endpoint, segs: nat, es: seq<Event>, F: nat)
    requires segs <= F < HIGH_WATER && F >= 1
    requires Legal(Init(ep, segs), es, F)
    ensures var s := Run(Init(ep, segs), es, F);
      && (!s.vps.conn.closed ==>
            s.wifi.read == s.vps.conn.written + Bytes(s.vps.conn.queue) + Bytes(s.up))
      && (!s.wifi.closed ==>
            s.vps.conn.read == s.wifi.written + Bytes(s.wifi.queue) + Bytes(s.down))
  {
    InitInv(ep, segs, F);
    RunKeepsInv(Init(ep, segs), es, ep, F);
    var s := Run(Init(ep, segs), es, F);
    BytesConcat(s.vps.conn.received, s.up);
    BytesConcat(s.wifi.received, s.down);
  }

  /** Every message on its way fits the buffer its receiver asks the pool for, so no request
      is above the largest size class, and is long enough for the fields its receiver reads; so
      both receive loops take everything that reaches them, and never stop. */
  lemma RequestsFit(ep: Endpoint, segs: nat, es: seq<Event>, F: nat, m: Message)
    requires segs <= F < HIGH_WATER && F >= 1
    requires Legal(Init(ep, segs), es, F)
    ensures var s := Run(Init(ep, segs), es, F);
      && (m in s.up || m in s.down ==> Receivable(m, true))
      && s.wifi.inlet == Flowing && s.vps.conn.inlet == Flowing
  {
    InitInv(ep, segs, F);
    RunKeepsInv(Init(ep, segs), es, ep, F);
    NewSessionRoundTrip(ep);
    var s := Run(Init(ep, segs), es, F);
    if m in s.up || m in s.down {
      InTransit(s, ep, m);
    }
  }

  lemma InTransit(s: System, ep: Endpoint, m: Message)
    requires ChannelInv(s, ep) && (m in s.up || m in s.down)
    ensures m == EncodeNewSession(ep) || Carrier(m)
  {
    if m in s.up {
      var i :| 0 <= i < |s.up| && s.up[i] == m;
      var j := |s.vps.conn.received| + i;
      assert s.wifi.sent[j] == m;
      assert j > 0 ==> s.wifi.sent[1..][j - 1] == m;
    } else {
      var i :| 0 <= i < |s.down| && s.down[i] == m;
      assert s.vps.conn.sent[|s.wifi.received| + i] == m;
    }
  }

  // ---------- the run itself as the reference ----------

  /** The bytes a read brings. */
  function BytesOf(e: Event, wifi: bool): seq<byte> {
    match e
    case WifiRead(ReadBytes(data), _) => if wifi then data else []
    case VpsRead(ReadBytes(data), _) => if wifi then [] else data
    case _ => []
  }

  function BytesRead(es: seq<Event>, wifi: bool): seq<byte> {
    if es == [] then [] else BytesOf(es[0], wifi) + BytesRead(es[1..], wifi)
  }

  lemma WifiNextReads(s: System, e: Event, F: nat)
    requires Enabled(s, e, F)
    ensures Next(s, e, F).wifi.read == s.wifi.read + BytesOf(e, true)
  {
    if e.WifiInput? {
      Wifi.TakeAllHandles(Acknowledge(s.wifi, e.acked), s.down[..e.count]);
    }
  }

  lemma VpsNextReads(s: System, e: Event, F: nat)
    requires Enabled(s, e, F)
    ensures Next(s, e, F).vps.conn.read == s.vps.conn.read + BytesOf(e, false)
  {
    if e.VpsInput? {
      Vps.TakeAllHandles(s.vps.(conn := Acknowledge(s.vps.conn, e.acked)), s.up[..e.count]);
    }
  }

  lemma AppendBytes(a: seq<byte>, b: seq<byte>, c: seq<byte>)
    ensures (a + b) + c == a + (b + c) && [] + c == c
  {
  }

  lemma {:induction false} RunReads(s: System, es: seq<Event>, F: nat)
    requires Legal(s, es, F)
    ensures Run(s, es, F).wifi.read == s.wifi.read + BytesRead(es, true)
    ensures Run(s, es, F).vps.conn.read == s.vps.conn.read + BytesRead(es, false)
    decreases |es|
  {
    if es == [] {
      assert s.wifi.read + [] == s.wifi.read && s.vps.conn.read + [] == s.vps.conn.read;
    } else {
      WifiNextReads(s, es[0], F);
      VpsNextReads(s, es[0], F);
      RunReads(Next(s, es[0], F), es[1..], F);
      AppendBytes(s.wifi.read, BytesOf(es[0], true), BytesRead(es[1..], true));
      AppendBytes(s.vps.conn.read, BytesOf(es[0], false), BytesRead(es[1..], false));
    }
  }

  /** The segments a read's message takes, and those a datagram acknowledges. */
  function SegmentsOf(e: Event, wifi: bool): nat {
    match e
    case WifiRead(ReadBytes(data), segs) => if wifi && data != [] then segs else 0
    case VpsRead(ReadBytes(data), segs) => if !wifi && data != [] then segs else 0
    case _ => 0
  }

  function AcknowledgedBy(e: Event, wifi: bool): nat {
    match e
    case WifiInput(acked, _) => if wifi then acked else 0
    case VpsInput(acked, _) => if wifi then 0 else acked
    case _ => 0
  }

  function Segments(es: seq<Event>, wifi: bool): nat {
    if es == [] then 0 else SegmentsOf(es[0], wifi) + Segments(es[1..], wifi)
  }

  function Acknowledged(es: seq<Event>, wifi: bool): nat {
    if es == [] then 0 else AcknowledgedBy(es[0], wifi) + Acknowledged(es[1..], wifi)
  }

  /** A read or a write of the session that fails. */
  predicate Fails(e: Event, wifi: bool) {
    if wifi then (e.WifiRead? && e.r == ReadError) || (e.WifiWrite? && e.w != WriteOk)
    else (e.VpsRead? && e.r == ReadError) || (e.VpsWrite? && e.w != WriteOk)
  }

  predicate Failed(es: seq<Event>, wifi: bool) {
    es != [] && (Fails(es[0], wifi) || Failed(es[1..], wifi))
  }

  lemma WifiNextBacklog(s: System, e: Event, F: nat)
    requires Enabled(s, e, F)
    ensures Next(s, e, F).wifi.closed <==> s.wifi.closed || Fails(e, true)
    ensures !s.wifi.closed ==>
              Next(s, e, F).wifi.backlog + AcknowledgedBy(e, true) == s.wifi.backlog + SegmentsOf(e, true)
  {
    if e.WifiInput? {
      Wifi.TakeAllHandles(Acknowledge(s.wifi, e.acked), s.down[..e.count]);
    }
  }

  lemma VpsNextBacklog(s: System, e: Event, F: nat)
    requires Enabled(s, e, F)
    ensures Next(s, e, F).vps.conn.closed <==> s.vps.conn.closed || Fails(e, false)
    ensures !s.vps.conn.closed ==>
              Next(s, e, F).vps.conn.backlog + AcknowledgedBy(e, false) == s.vps.conn.backlog + SegmentsOf(e, false)
  {
    if e.VpsInput? {
      Vps.TakeAllHandles(s.vps.(conn := Acknowledge(s.vps.conn, e.acked)), s.up[..e.count]);
    }
  }

  lemma {:induction false} WifiBacklog(s: System, es: seq<Event>, F: nat)
    requires Legal(s, es, F)
    ensures Run(s, es, F).wifi.closed <==> s.wifi.closed || Failed(es, true)
    ensures !Run(s, es, F).wifi.closed ==>
              Run(s, es, F).wifi.backlog + Acknowledged(es, true) == s.wifi.backlog + Segments(es, true)
    decreases |es|
  {
    if es == [] {
      assert Run(s, es, F) == s;
    } else {
      WifiNextBacklog(s, es[0], F);
      WifiBacklog(Next(s, es[0], F), es[1..], F);
    }
  }

  lemma {:induction false} VpsBacklog(s: System, es: seq<Event>, F: nat)
    requires Legal(s, es, F)
    ensures Run(s, es, F).vps.conn.closed <==> s.vps.conn.closed || Failed(es, false)
    ensures !Run(s, es, F).vps.conn.closed ==>
              Run(s, es, F).vps.conn.backlog + Acknowledged(es, false) == s.vps.conn.backlog + Segments(es, false)
    decreases |es|
  {
    if es == [] {
      assert Run(s, es, F) == s;
    } else {
      VpsNextBacklog(s, es[0], F);
      VpsBacklog(Next(s, es[0], F), es[1..], F);
    }
  }

  /** A session is closed exactly when a read or a write of it has failed; while it is open its backlog
      is what it sent less what was acknowledged. */
  lemma BacklogExact(ep: Endpoint, segs: nat, es: seq<Event>, F: nat)
    requires Legal(Init(ep, segs), es, F)
    ensures var s := Run(Init(ep, segs), es, F);
      && (s.wifi.closed <==> Failed(es, true))
      && (s.vps.conn.closed <==> Failed(es, false))
      && (!s.wifi.closed ==> s.wifi.backlog == segs + Segments(es, true) - Acknowledged(es, true))
      && (!s.vps.conn.closed ==> s.vps.conn.backlog == Segments(es, false) - Acknowledged(es, false))
  {
    WifiBacklog(Init(ep, segs), es, F);
    VpsBacklog(Init(ep, segs), es, F);
  }

  /** How many writes of a run succeed. */
  function Writes(es: seq<Event>, wifi: bool): nat {
    if es == [] then 0 else WriteOf(es[0], wifi) + Writes(es[1..], wifi)
  }

  function WriteOf(e: Event, wifi: bool): nat {
    if e == (if wifi then WifiWrite(WriteOk) else VpsWrite(WriteOk)) then 1 else 0
  }

  predicate OpenWrote(c: Conn, k: nat) {
    !c.closed ==> WroteFirst(c, k)
  }

  lemma WifiInputWrote(c: Conn, acked: nat, ms: seq<Message>, k: nat)
    requires !c.closed && acked <= c.backlog && WroteFirst(c, k)
    ensures WroteFirst(Wifi.Input(c, acked, ms), k) && !Wifi.Input(c, acked, ms).closed
  {
    var a := Acknowledge(c, acked);
    Wifi.TakeAllHandles(a, ms);
    Wifi.TakeAllQueues(a, ms);
    WroteMore(c, Wifi.Input(c, acked, ms), k, Admitted(a, ms, false));
  }

  lemma VpsInputWrote(v: Vps.Vps, acked: nat, ms: seq<Message>, k: nat)
    requires !v.conn.closed && acked <= v.conn.backlog && WroteFirst(v.conn, k)
    ensures WroteFirst(Vps.Input(v, acked, ms).conn, k) && !Vps.Input(v, acked, ms).conn.closed
  {
    var a := v.(conn := Acknowledge(v.conn, acked));
    Vps.TakeAllHandles(a, ms);
    Vps.TakeAllQueues(a, ms);
    WroteMore(v.conn, Vps.Input(v, acked, ms).conn, k, Admitted(a.conn, ms, true));
  }

  lemma WroteSame(c: Conn, d: Conn, k: nat)
    requires WroteFirst(c, k) && d.written == c.written && d.queue == c.queue && d.received == c.received
    ensures WroteFirst(d, k)
  {
  }

  lemma ReadWrote(c: Conn, r: ReadResult, segs: nat, k: nat)
    requires WroteFirst(c, k) && c.reading > 0
    ensures WroteFirst(ReadDone(c, r, segs), k)
  {
    ReadDoneFrame(c, r, segs);
    WroteSame(c, ReadDone(c, r, segs), k);
  }

  lemma WifiWriteWrote(c: Conn, w: WriteResult, k: nat)
    requires WroteFirst(c, k) && !c.closed && Wifi.CanWrite(c, w)
    ensures w == WriteOk ==> WroteFirst(Wifi.WriteDone(c, w), k + 1)
    ensures w != WriteOk ==> Wifi.WriteDone(c, w).closed
  {
    WroteNext(c, k);
  }

  lemma VpsWriteWrote(v: Vps.Vps, w: WriteResult, k: nat)
    requires WroteFirst(v.conn, k) && !v.conn.closed && Vps.CanWrite(v, w)
    ensures w == WriteOk ==> WroteFirst(Vps.WriteDone(v, w).conn, k + 1)
    ensures w != WriteOk ==> Vps.WriteDone(v, w).conn.closed
  {
    WroteNext(v.conn, k);
  }

  lemma WifiNextWrote(s: System, e: Event, k: nat, F: nat)
    requires Enabled(s, e, F) && !s.wifi.closed && WroteFirst(s.wifi, k)
    ensures !Next(s, e, F).wifi.closed ==> WroteFirst(Next(s, e, F).wifi, k + WriteOf(e, true))
  {
    match e
    case WifiWrite(w) => WifiWriteWrote(s.wifi, w, k);
    case WifiInput(acked, count) => WifiInputWrote(s.wifi, acked, s.down[..count], k);
    case WifiRead(r, segs) => ReadWrote(s.wifi, r, segs, k);
    case _ =>
  }

  lemma VpsNextWrote(s: System, e: Event, k: nat, F: nat)
    requires Enabled(s, e, F) && !s.vps.conn.closed && WroteFirst(s.vps.conn, k)
    ensures !Next(s, e, F).vps.conn.closed ==> WroteFirst(Next(s, e, F).vps.conn, k + WriteOf(e, false))
  {
    match e
    case VpsWrite(w) => VpsWriteWrote(s.vps, w, k);
    case VpsInput(acked, count) => VpsInputWrote(s.vps, acked, s.up[..count], k);
    case VpsRead(r, segs) => ReadWrote(s.vps.conn, r, segs, k);
    case VpsConnect(ok) => WroteSame(s.vps.conn, Vps.ConnectDone(s.vps, ok).conn, k);
    case _ =>
  }

  lemma WifiStepWrote(s: System, e: Event, k: nat, F: nat)
    requires Enabled(s, e, F) && OpenWrote(s.wifi, k)
    ensures OpenWrote(Next(s, e, F).wifi, k + WriteOf(e, true))
  {
    if s.wifi.closed {
      WifiStaysClosed(s, e, F);
    } else {
      WifiNextWrote(s, e, k, F);
    }
  }

  lemma {:induction false} WifiRunWrote(s: System, es: seq<Event>, k: nat, F: nat)
    requires Legal(s, es, F) && OpenWrote(s.wifi, k)
    ensures OpenWrote(Run(s, es, F).wifi, k + Writes(es, true))
    decreases |es|
  {
    if es == [] {
      assert Run(s, es, F) == s && Writes(es, true) == 0;
    } else {
      var t, n := Next(s, es[0], F), k + WriteOf(es[0], true);
      assert Legal(t, es[1..], F) && Run(s, es, F) == Run(t, es[1..], F);
      assert k + Writes(es, true) == n + Writes(es[1..], true);
      WifiStepWrote(s, es[0], k, F);
      WifiRunWrote(t, es[1..], n, F);
    }
  }

  lemma VpsStepWrote(s: System, e: Event, k: nat, F: nat)
    requires Enabled(s, e, F) && OpenWrote(s.vps.conn, k)
    ensures OpenWrote(Next(s, e, F).vps.conn, k + WriteOf(e, false))
  {
    if s.vps.conn.closed {
      VpsStaysClosed(s, e, F);
    } else {
      VpsNextWrote(s, e, k, F);
    }
  }

  lemma {:induction false} VpsRunWrote(s: System, es: seq<Event>, k: nat, F: nat)
    requires Legal(s, es, F) && OpenWrote(s.vps.conn, k)
    ensures OpenWrote(Run(s, es, F).vps.conn, k + Writes(es, false))
    decreases |es|
  {
    if es == [] {
      assert Run(s, es, F) == s && Writes(es, false) == 0;
    } else {
      var t, n := Next(s, es[0], F), k + WriteOf(es[0], false);
      assert Legal(t, es[1..], F) && Run(s, es, F) == Run(t, es[1..], F);
      assert k + Writes(es, false) == n + Writes(es[1..], false);
      VpsStepWrote(s, es[0], k, F);
      VpsRunWrote(t, es[1..], n, F);
    }
  }

  /** How many writes complete, in success or error. */
  function WritesDone(es: seq<Event>, wifi: bool): nat {
    if es == [] then 0
    else (if (if wifi then es[0].WifiWrite? else es[0].VpsWrite?) then 1 else 0) + WritesDone(es[1..], wifi)
  }

  lemma WifiStaysClosed(s: System, e: Event, F: nat)
    requires Enabled(s, e, F) && s.wifi.closed
    ensures var c := Next(s, e, F).wifi;
      c.closed && c.writing == s.wifi.writing - (if e.WifiWrite? then 1 else 0)
  {
  }

  lemma VpsStaysClosed(s: System, e: Event, F: nat)
    requires Enabled(s, e, F) && s.vps.conn.closed
    ensures var c := Next(s, e, F).vps.conn;
      && c.closed
      && (!e.VpsConnect? ==> c.writing == s.vps.conn.writing - (if e.VpsWrite? then 1 else 0))
  {
  }

  /** A session that has closed stays closed and starts no further write: those that complete are
      those that were in flight. */
  lemma {:induction false} ClosedWritesNoMore(s: System, es: seq<Event>, ep: Endpoint, F: nat)
    requires Inv(s, ep, F) && Legal(s, es, F)
    ensures var t := Run(s, es, F);
      && (s.wifi.closed ==> t.wifi.closed && t.wifi.writing + WritesDone(es, true) == s.wifi.writing)
      && (s.vps.conn.closed ==>
            t.vps.conn.closed && t.vps.conn.writing + WritesDone(es, false) == s.vps.conn.writing)
    decreases |es|
  {
    if es == [] {
      assert Run(s, es, F) == s;
    } else {
      NextKeepsInv(s, es[0], ep, F);
      if s.wifi.closed {
        WifiStaysClosed(s, es[0], F);
      }
      if s.vps.conn.closed {
        VpsStaysClosed(s, es[0], F);
      }
      ClosedWritesNoMore(Next(s, es[0], F), es[1..], ep, F);
    }
  }

  lemma NothingYet(ep: Endpoint, segs: nat)
    ensures var s := Init(ep, segs);
      && s.wifi.read == [] && s.vps.conn.read == []
      && OpenWrote(s.wifi, 0) && OpenWrote(s.vps.conn, 0)
  {
  }

  /** The histories are what happened: the bytes read are those the reads of the run brought; and one
      completed write is one message: on an open session, after `k` successful writes, exactly the
      first `k` messages that carry bytes have been written, and the others are queued. */
  lemma HistoriesExact(ep: Endpoint, segs: nat, es: seq<Event>, F: nat)
    requires Legal(Init(ep, segs), es, F)
    ensures var s := Run(Init(ep, segs), es, F);
      && s.wifi.read == BytesRead(es, true) && s.vps.conn.read == BytesRead(es, false)
      && OpenWrote(s.wifi, Writes(es, true)) && OpenWrote(s.vps.conn, Writes(es, false))
  {
    NothingYet(ep, segs);
    var s := Init(ep, segs);
    RunReads(s, es, F);
    AppendBytes([], [], BytesRead(es, true));
    AppendBytes([], [], BytesRead(es, false));
    WifiRunWrote(s, es, 0, F);
    VpsRunWrote(s, es, 0, F);
  }

  // ---------- flow control ----------

  /** The event is a read that completes without error and without bytes. asio reports the end of a
      TCP stream as an error instead; the handlers nevertheless have a branch for it. */
  predicate EmptyRead(e: Event, wifi: bool) {
    if wifi then e.WifiRead? && e.r == ReadBytes([]) else e.VpsRead? && e.r == ReadBytes([])
  }

  predicate NoEmptyRead(es: seq<Event>, wifi: bool) {
    forall i | 0 <= i < |es| :: !EmptyRead(es[i], wifi)
  }

  lemma WifiDry(s: System, e: Event, F: nat)
    requires Wifi.Inv(s.wifi, F) && Enabled(s, e, F)
    ensures Next(s, e, F).wifi.dry <==> s.wifi.dry || EmptyRead(e, true)
  {
    if e.WifiInput? {
      Wifi.InputKeepsInv(s.wifi, e.acked, s.down[..e.count], F);
    }
  }

  lemma VpsDry(s: System, e: Event, F: nat)
    requires Vps.Inv(s.vps, F) && Enabled(s, e, F)
    ensures Next(s, e, F).vps.conn.dry <==> s.vps.conn.dry || EmptyRead(e, false)
  {
    if e.VpsInput? {
      Vps.InputKeepsInv(s.vps, e.acked, s.up[..e.count], F);
    }
  }

  lemma {:induction false} RunDry(s: System, es: seq<Event>, ep: Endpoint, F: nat)
    requires Inv(s, ep, F) && Legal(s, es, F)
    ensures !Run(s, es, F).wifi.dry <==> !s.wifi.dry && NoEmptyRead(es, true)
    ensures !Run(s, es, F).vps.conn.dry <==> !s.vps.conn.dry && NoEmptyRead(es, false)
    decreases |es|
  {
    if es == [] {
      assert Run(s, es, F) == s;
    } else {
      NextKeepsInv(s, es[0], ep, F);
      WifiDry(s, es[0], F);
      VpsDry(s, es[0], F);
      RunDry(Next(s, es[0], F), es[1..], ep, F);
      ConsNoEmptyRead(es, true);
      ConsNoEmptyRead(es, false);
    }
  }

  lemma ConsNoEmptyRead(es: seq<Event>, wifi: bool)
    requires es != []
    ensures NoEmptyRead(es, wifi) <==> !EmptyRead(es[0], wifi) && NoEmptyRead(es[1..], wifi)
  {
    var tail := es[1..];
    assert forall i | 1 <= i < |es| :: es[i] == tail[i - 1];
    assert forall i | 0 <= i < |tail| :: tail[i] == es[i + 1];
  }

  /** What the pumps guarantee of one state. */
  predicate Pumping(c: Conn, F: nat) {
    && c.backlog <= 127 + F
    && c.reading <= 1
    && (c.busy ==> c.reading == 0 && c.backlog >= 85)
  }

  /** Flow control over whole runs. There is never a second read, and a pause has the backlog to
      justify it; and on a session that is open (and connected) exactly one of "reading" and
      "paused" holds, so no wakeup is lost, if and only if every read that succeeded so far
      brought bytes. */
  lemma PumpsNeverStall(ep: Endpoint, segs: nat, es: seq<Event>, F: nat)
    requires segs <= F < HIGH_WATER && F >= 1
    requires Legal(Init(ep, segs), es, F)
    ensures var s := Run(Init(ep, segs), es, F);
      && Pumping(s.wifi, F) && Pumping(s.vps.conn, F)
      && (!s.wifi.closed ==> ((s.wifi.reading == 1) != s.wifi.busy <==> NoEmptyRead(es, true)))
      && (s.vps.enable && !s.vps.conn.closed ==>
            ((s.vps.conn.reading == 1) != s.vps.conn.busy <==> NoEmptyRead(es, false)))
  {
    InitInv(ep, segs, F);
    RunKeepsInv(Init(ep, segs), es, ep, F);
    RunDry(Init(ep, segs), es, ep, F);
    var s := Run(Init(ep, segs), es, F);
    if !s.wifi.closed {
      NoLostWakeup(s.wifi, F);
    }
    if s.vps.enable && !s.vps.conn.closed {
      NoLostWakeup(s.vps.conn, F);
    }
  }

  // ---------- the write queues ----------

  /** On an open session a write is in flight iff something is queued (and writing is allowed);
      a write in flight always has something to pop. */
  predicate OneWriter(c: Conn, gate: bool) {
    && c.writing <= 1
    && (!c.closed ==> (c.writing == 1 <==> gate && c.queue != []))
    && (c.writing == 1 ==> c.queue != [])
  }

  lemma InvOneWriter(s: System, F: nat)
    requires Wifi.Inv(s.wifi, F) && Vps.Inv(s.vps, F)
    ensures OneWriter(s.wifi, true) && OneWriter(s.vps.conn, s.vps.enable)
    ensures s.vps.conn.writing == 1 && !s.vps.undefined ==>
              (Next(s, VpsWrite(WriteOk), F).vps.undefined <==> s.vps.conn.closed)
  {
  }

  /** Single writer over whole runs; and popping never meets an empty queue, except on the VPS side
      exactly when a write succeeds after the session was closed. */
  lemma SingleWriter(ep: Endpoint, segs: nat, es: seq<Event>, F: nat)
    requires segs <= F < HIGH_WATER && F >= 1
    requires Legal(Init(ep, segs), es, F)
    ensures var s := Run(Init(ep, segs), es, F);
      && OneWriter(s.wifi, true) && OneWriter(s.vps.conn, s.vps.enable)
      && (s.vps.conn.writing == 1 && !s.vps.undefined ==>
            (Next(s, VpsWrite(WriteOk), F).vps.undefined <==> s.vps.conn.closed))
  {
    InitInv(ep, segs, F);
    RunKeepsInv(Init(ep, segs), es, ep, F);
    InvOneWriter(Run(Init(ep, segs), es, F), F);
  }

  lemma {:induction false} RunConcat(s: System, a: seq<Event>, b: seq<Event>, F: nat)
    requires Legal(s, a, F) && Legal(Run(s, a, F), b, F)
    ensures Legal(s, a + b, F) && Run(s, a + b, F) == Run(Run(s, a, F), b, F)
    decreases |a|
  {
    if a == [] {
      assert a + b == b;
    } else {
      assert (a + b)[1..] == a[1..] + b;
      RunConcat(Next(s, a[0], F), a[1..], b, F);
    }
  }

  lemma RunTwo(s: System, e: Event, e': Event, F: nat)
    requires Enabled(s, e, F) && Enabled(Next(s, e, F), e', F)
    ensures Legal(s, [e, e'], F) && Run(s, [e, e'], F) == Next(Next(s, e, F), e', F)
  {
    var t := Next(s, e, F);
    var u := Next(t, e', F);
    assert Legal(u, [], F) && [e, e'][1..] == [e'] && [e'][1..] == [];
    assert Legal(t, [e'], F) && Run(t, [e'], F) == u;
  }

  /** The target is connected: reading, with nothing to write yet. */
  lemma Connected(ep: Endpoint)
    ensures var s, es := Init(ep, 1), [VpsInput(0, 1), VpsConnect(true)];
      && Legal(s, es, 1)
      && var t := Run(s, es, 1);
      && t.wifi == s.wifi && t.up == [] && !t.vps.undefined && t.vps.enable
      && t.vps.conn == Vps.FRESH.conn.(reading := 1, received := [EncodeNewSession(ep)])
  {
    NewSessionRoundTrip(ep);
    var s0 := Init(ep, 1);
    TakeOne(s0.vps.(conn := Acknowledge(s0.vps.conn, 0)), EncodeNewSession(ep));
    assert s0.up[..1] == s0.up && s0.up[1..] == [];
    RunTwo(s0, VpsInput(0, 1), VpsConnect(true), 1);
  }

  /** A byte from the client is being written to the target. */
  lemma Writing(s: System)
    requires s.wifi.reading > 0 && s.up == [] && !s.vps.undefined && s.vps.enable
    requires s.vps.conn.queue == [] && s.vps.conn.writing == 0 && s.vps.conn.reading == 1 && !s.vps.conn.closed
    requires s.vps.conn.inlet == Flowing
    ensures var es := [WifiRead(ReadBytes([7]), 1), VpsInput(0, 1)];
      && Legal(s, es, 1)
      && var c := Run(s, es, 1).vps.conn;
      && !Run(s, es, 1).vps.undefined
      && c.writing == 1 && c.queue != [] && c.reading > 0
  {
    NormalRoundTrip([7]);
    var t := Next(s, WifiRead(ReadBytes([7]), 1), 1);
    TakeOne(t.vps.(conn := Acknowledge(t.vps.conn, 0)), EncodeNormal([7]));
    assert t.up == [EncodeNormal([7])] && t.up[..1] == t.up;
    RunTwo(s, WifiRead(ReadBytes([7]), 1), VpsInput(0, 1), 1);
  }

  /** Such a run: connect, one byte from the client, its write to the target starts, the target
      goes away, and then the write completes successfully. */
  lemma PopAfterClose(ep: Endpoint)
    ensures var es := [VpsInput(0, 1), VpsConnect(true)] + [WifiRead(ReadBytes([7]), 1), VpsInput(0, 1)]
                      + [VpsRead(ReadError, 1), VpsWrite(WriteOk)];
      Legal(Init(ep, 1), es, 1) && Run(Init(ep, 1), es, 1).vps.undefined
  {
    var s, a := Init(ep, 1), [VpsInput(0, 1), VpsConnect(true)];
    Connected(ep);
    var t, b := Run(s, a, 1), [WifiRead(ReadBytes([7]), 1), VpsInput(0, 1)];
    Writing(t);
    RunConcat(s, a, b, 1);
    RunTwo(Run(t, b, 1), VpsRead(ReadError, 1), VpsWrite(WriteOk), 1);
    RunConcat(s, a + b, [VpsRead(ReadError, 1), VpsWrite(WriteOk)], 1);
  }

  lemma TakeOne(v: Vps.Vps, m: Message)
    requires v.conn.inlet == Flowing
    ensures Vps.TakeAll(v, [m]) == Vps.Take(v, m)
  {
    assert [m][1..] == [];
    assert Vps.TakeAll(Vps.Take(v, m), []) == Vps.Take(v, m);
  }

  // ---------- the tunnel can always be drained ----------

  lemma RunCons(s: System, e: Event, es: seq<Event>, F: nat)
    requires Enabled(s, e, F) && Legal(Next(s, e, F), es, F)
    ensures Legal(s, [e] + es, F) && Run(s, [e] + es, F) == Run(Next(s, e, F), es, F)
  {
    assert ([e] + es)[1..] == es;
  }

  /** Both sessions are open, and every read brought bytes so far. */
  predicate Open(s: System) {
    && !s.wifi.closed && !s.vps.conn.closed
    && !s.wifi.dry && !s.vps.conn.dry
  }

  /** Nothing was read meanwhile, and nothing was closed. */
  predicate Undisturbed(s: System, t: System) {
    && Open(t)
    && t.wifi.read == s.wifi.read && t.vps.conn.read == s.vps.conn.read
  }

  /** `es` leads from `s` to `t`. */
  predicate Leads(s: System, es: seq<Event>, t: System, F: nat) {
    Legal(s, es, F) && Run(s, es, F) == t
  }

  lemma LeadsOn(s: System, a: seq<Event>, t: System, b: seq<Event>, u: System, F: nat)
    requires Leads(s, a, t, F) && Leads(t, b, u, F)
    ensures Leads(s, a + b, u, F)
  {
    RunConcat(s, a, b, F);
  }

  /** Taking what is in the channel to the VPS side, and all acknowledgements it waits for. */
  lemma TakeUp(s: System, ep: Endpoint, F: nat) returns (es: seq<Event>, t: System)
    requires Inv(s, ep, F) && Open(s)
    ensures Leads(s, es, t, F) && Inv(t, ep, F) && Undisturbed(s, t)
    ensures t.up == [] && t.wifi == s.wifi && t.down == s.down && t.vps.enable == s.vps.enable
    ensures t.vps.conn.backlog == 0
    ensures t.vps.connecting - s.vps.connecting == |t.vps.handshakes| - |s.vps.handshakes|
  {
    var e := VpsInput(s.vps.conn.backlog, |s.up|);
    es, t := [e], Next(s, e, F);
    NextKeepsInv(s, e, ep, F);
    Vps.InputKeepsInv(s.vps, s.vps.conn.backlog, s.up[..|s.up|], F);
    Vps.TakeAllKeepsQueue(s.vps.(conn := Acknowledge(s.vps.conn, s.vps.conn.backlog)), s.up[..|s.up|]);
    assert Legal(t, [], F);
    RunCons(s, e, [], F);
  }

  lemma TakeDown(s: System, ep: Endpoint, F: nat) returns (es: seq<Event>, t: System)
    requires Inv(s, ep, F) && Open(s)
    ensures Leads(s, es, t, F) && Inv(t, ep, F) && Undisturbed(s, t)
    ensures t.down == [] && t.vps == s.vps && t.up == s.up
    ensures t.wifi.backlog == 0
  {
    var e := WifiInput(s.wifi.backlog, |s.down|);
    es, t := [e], Next(s, e, F);
    NextKeepsInv(s, e, ep, F);
    Wifi.InputKeepsInv(s.wifi, s.wifi.backlog, s.down[..|s.down|], F);
    Wifi.TakeAllKeepsQueue(Acknowledge(s.wifi, s.wifi.backlog), s.down[..|s.down|]);
    assert Legal(t, [], F);
    RunCons(s, e, [], F);
  }

  /** Completing the writes to the target one after the other. */
  lemma {:induction false} WriteUp(s: System, ep: Endpoint, F: nat) returns (es: seq<Event>, t: System)
    requires Inv(s, ep, F) && Open(s) && s.vps.enable
    ensures Leads(s, es, t, F) && Inv(t, ep, F) && Undisturbed(s, t)
    ensures t.vps.conn.queue == [] && t.vps.enable && t.vps.conn.backlog == s.vps.conn.backlog
    ensures t.wifi == s.wifi && t.up == s.up && t.down == s.down
    decreases |s.vps.conn.queue|
  {
    if s.vps.conn.queue == [] {
      es, t := [], s;
    } else {
      var e := VpsWrite(WriteOk);
      NextKeepsInv(s, e, ep, F);
      var rest;
      rest, t := WriteUp(Next(s, e, F), ep, F);
      es := [e] + rest;
      RunCons(s, e, rest, F);
    }
  }

  lemma {:induction false} WriteDown(s: System, ep: Endpoint, F: nat) returns (es: seq<Event>, t: System)
    requires Inv(s, ep, F) && Open(s)
    ensures Leads(s, es, t, F) && Inv(t, ep, F) && Undisturbed(s, t)
    ensures t.wifi.queue == [] && t.wifi.backlog == s.wifi.backlog
    ensures t.vps == s.vps && t.up == s.up && t.down == s.down
    decreases |s.wifi.queue|
  {
    if s.wifi.queue == [] {
      es, t := [], s;
    } else {
      var e := WifiWrite(WriteOk);
      NextKeepsInv(s, e, ep, F);
      var rest;
      rest, t := WriteDown(Next(s, e, F), ep, F);
      es := [e] + rest;
      RunCons(s, e, rest, F);
    }
  }

  /** The handshake has not failed: it is done, under way, or its request is still in the channel. */
  predicate Connectable(v: Vps.Vps) {
    v.enable || v.connecting > 0 || v.conn.received == []
  }

  lemma Connect(s: System, ep: Endpoint, F: nat) returns (es: seq<Event>, t: System)
    requires Inv(s, ep, F) && Open(s) && (s.vps.enable || s.vps.connecting > 0)
    ensures Leads(s, es, t, F) && Inv(t, ep, F) && Undisturbed(s, t)
    ensures t.vps.enable && t.wifi == s.wifi && t.up == s.up && t.down == s.down
    ensures t.vps.conn.backlog == s.vps.conn.backlog
  {
    if s.vps.enable {
      es, t := [], s;
    } else {
      var e := VpsConnect(true);
      NextKeepsInv(s, e, ep, F);
      es, t := [e], Next(s, e, F);
      assert Legal(t, [], F);
      RunCons(s, e, [], F);
    }
  }

  /** All that was read is written, the channels are empty, and both ends read on. */
  predicate Drained(s: System) {
    && s.vps.enable && s.up == [] && s.down == []
    && s.vps.conn.written == s.wifi.read && s.wifi.written == s.vps.conn.read
    && s.wifi.reading == 1 && s.vps.conn.reading == 1
  }

  lemma DrainedNow(s: System, ep: Endpoint, F: nat)
    requires Inv(s, ep, F) && Open(s) && s.vps.enable && s.up == [] && s.down == []
    requires s.wifi.queue == [] && s.vps.conn.queue == [] && s.wifi.backlog == 0 && s.vps.conn.backlog == 0
    ensures Drained(s)
  {
    assert s.vps.conn.received + [] == s.vps.conn.received;
    assert s.wifi.received + [] == s.wifi.received;
  }

  /** `s` can be drained without reading anything more. */
  ghost predicate CanDrain(s: System, F: nat) {
    exists es, t :: Leads(s, es, t, F) && Undisturbed(s, t) && Drained(t)
  }

  /** First the way up is opened: the announcement taken, the target connected. */
  lemma OpenUp(s: System, ep: Endpoint, F: nat) returns (es: seq<Event>, t: System)
    requires Inv(s, ep, F) && Open(s) && Connectable(s.vps)
    ensures Leads(s, es, t, F) && Inv(t, ep, F) && Undisturbed(s, t)
    ensures t.vps.enable && t.up == [] && t.vps.conn.backlog == 0
  {
    var es1, s1 := TakeUp(s, ep, F);
    Announced(s, s1, ep);
    var es2;
    es2, t := Connect(s1, ep, F);
    es := es1 + es2;
    LeadsOn(s, es1, s1, es2, t, F);
  }

  /** Then what has arrived on either side is written. */
  lemma WriteAll(s: System, ep: Endpoint, F: nat) returns (es: seq<Event>, t: System)
    requires Inv(s, ep, F) && Open(s) && s.vps.enable && s.vps.conn.backlog == 0 && s.wifi.backlog == 0
    ensures Leads(s, es, t, F) && Inv(t, ep, F) && Undisturbed(s, t)
    ensures t.vps.enable && t.up == s.up && t.down == s.down && t.vps.conn.backlog == 0 && t.wifi.backlog == 0
    ensures t.vps.conn.queue == [] && t.wifi.queue == []
  {
    var es1, s1 := WriteUp(s, ep, F);
    var es2;
    es2, t := WriteDown(s1, ep, F);
    es := es1 + es2;
    LeadsOn(s, es1, s1, es2, t, F);
  }

  lemma Drains(s: System, ep: Endpoint, F: nat)
    requires Inv(s, ep, F) && Open(s) && Connectable(s.vps)
    ensures CanDrain(s, F)
  {
    var es1, s1 := OpenUp(s, ep, F);
    var es2, s2 := TakeDown(s1, ep, F);
    LeadsOn(s, es1, s1, es2, s2, F);
    var es3, s3 := WriteAll(s2, ep, F);
    LeadsOn(s, es1 + es2, s2, es3, s3, F);
    DrainedNow(s3, ep, F);
  }

  /** Once the channel has been taken, a handshake that has not failed is done or under way. */
  lemma Announced(s: System, t: System, ep: Endpoint)
    requires ChannelInv(s, ep) && HandshakeInv(s.vps, ep) && Connectable(s.vps)
    requires ChannelInv(t, ep) && HandshakeInv(t.vps, ep) && t.up == [] && t.wifi == s.wifi
    requires t.vps.enable == s.vps.enable
    requires t.vps.connecting - s.vps.connecting == |t.vps.handshakes| - |s.vps.handshakes|
    ensures t.vps.enable || t.vps.connecting > 0
  {
    assert t.vps.conn.received + [] == t.vps.conn.received;
    if s.vps.conn.received == [] {
      assert t.vps.conn.received != [];
    }
  }

  /** A handshake that has failed is not tried again: whatever happens next, nothing is ever
      written to the target or read from it. */
  lemma {:induction false} FailedForGood(s: System, es: seq<Event>, ep: Endpoint, F: nat)
    requires Inv(s, ep, F) && Legal(s, es, F) && !Connectable(s.vps)
    ensures var t := Run(s, es, F);
      && !Connectable(t.vps) && !t.vps.conn.closed
      && t.vps.conn.written == [] && t.vps.conn.read == s.vps.conn.read
    decreases |es|
  {
    if es == [] {
      assert Run(s, es, F) == s;
    } else {
      NextKeepsInv(s, es[0], ep, F);
      StaysFailed(s, es[0], ep, F);
      FailedForGood(Next(s, es[0], F), es[1..], ep, F);
    }
  }

  lemma StaysFailed(s: System, e: Event, ep: Endpoint, F: nat)
    requires Inv(s, ep, F) && Enabled(s, e, F) && !Connectable(s.vps)
    ensures !Connectable(Next(s, e, F).vps) && Next(s, e, F).vps.conn.read == s.vps.conn.read
  {
    if e.VpsInput? {
      NextKeepsInv(s, e, ep, F);
      var ms := s.up[..e.count];
      Vps.InputKeepsInv(s.vps, e.acked, ms, F);
      Vps.TakeAllKeepsQueue(s.vps.(conn := Acknowledge(s.vps.conn, e.acked)), ms);
    }
  }

  lemma NextOpen(s: System, e: Event, ep: Endpoint, F: nat)
    requires Inv(s, ep, F) && Enabled(s, e, F) && Open(Next(s, e, F))
    ensures Open(s)
  {
    WifiDry(s, e, F);
    VpsDry(s, e, F);
  }

  /** What has closed stays closed, and a read loop that has ended is not started again. */
  lemma {:induction false} RunOpen(s: System, es: seq<Event>, ep: Endpoint, F: nat)
    requires Inv(s, ep, F) && Legal(s, es, F) && Open(Run(s, es, F))
    ensures Open(s)
    decreases |es|
  {
    if es == [] {
      assert Run(s, es, F) == s;
    } else {
      NextKeepsInv(s, es[0], ep, F);
      RunOpen(Next(s, es[0], F), es[1..], ep, F);
      NextOpen(s, es[0], ep, F);
    }
  }

  lemma DrainableOnlyIf(s: System, ep: Endpoint, F: nat)
    requires Inv(s, ep, F) && CanDrain(s, F)
    ensures Open(s) && Connectable(s.vps)
  {
    var es, t :| Leads(s, es, t, F) && Undisturbed(s, t) && Drained(t);
    RunOpen(s, es, ep, F);
    if !Connectable(s.vps) {
      FailedForGood(s, es, ep, F);
    }
  }

  /** In every state of every run: some continuation delivers every byte read so far, both ways,
      and leaves both ends reading, if and only if both sessions are open, no read came back empty
      and the handshake has not failed. */
  lemma DrainableExactly(ep: Endpoint, segs: nat, es: seq<Event>, F: nat)
    requires segs <= F < HIGH_WATER && F >= 1
    requires Legal(Init(ep, segs), es, F)
    ensures var s := Run(Init(ep, segs), es, F);
      CanDrain(s, F) <==> !s.wifi.closed && !s.vps.conn.closed && Connectable(s.vps)
                          && NoEmptyRead(es, true) && NoEmptyRead(es, false)
  {
    InitInv(ep, segs, F);
    RunKeepsInv(Init(ep, segs), es, ep, F);
    RunDry(Init(ep, segs), es, ep, F);
    var s := Run(Init(ep, segs), es, F);
    if CanDrain(s, F) {
      DrainableOnlyIf(s, ep, F);
    } else if Open(s) && Connectable(s.vps) {
      Drains(s, ep, F);
    }
  }
}
