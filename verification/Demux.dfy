/** Session demultiplexing by the 16-byte id every packet carries. */
module Demux {
  import opened Sequences
  import opened Wire
  import opened Packet
  import SizeClasses

  /** What a session's KCP is given: a segment, or a size it refuses (`len - 16` with no data). */
  datatype Input = Segment(data: seq<byte>) | Junk(size: int)

  /** A session as the demultiplexer sees it: `inputs` is what reached `ikcp_input`. */
  datatype Record = Record(closed: bool, inputs: seq<Input>)

  /** A worker's sessions; `created` lists the ids sessions were created for, `receiving` counts
      the outstanding receives on the UDP socket. */
  datatype Table = Table(sessions: map<SessionId, Record>, created: seq<SessionId>, receiving: nat)

  /** A worker that has just started to receive. */
  const NO_SESSIONS := Table(map[], [], 1)

  datatype Event =
    | Datagram(id: SessionId, x: Input)
    | ReceiveError
    | Registered(id: SessionId)
    | Closed(id: SessionId)

  /** `inputToKcp`: a closed session drops its input. */
  function Feed(r: Record, x: Input): Record {
    if r.closed then r else r.(inputs := r.inputs + [x])
  }

  function Create(t: Table, id: SessionId): Table {
    t.(sessions := t.sessions[id := Record(false, [])], created := t.created + [id])
  }

  /** `emplace` does not replace a session whose id is taken. */
  function Register(t: Table, id: SessionId): Table {
    if id in t.sessions then t else Create(t, id)
  }

  /** The VPS side listens again after an error, the wifi side does not. */
  function Failed(t: Table, vps: bool): Table
    requires t.receiving > 0
  {
    if vps then t else t.(receiving := t.receiving - 1)
  }

  function Deliver(t: Table, id: SessionId, x: Input): Table
    requires id in t.sessions
  {
    t.(sessions := t.sessions[id := Feed(t.sessions[id], x)])
  }

  function Close(t: Table, id: SessionId): Table
    requires id in t.sessions
  {
    t.(sessions := t.sessions[id := t.sessions[id].(closed := true)])
  }

  /** The VPS side creates a session for every id it has not seen. */
  function VpsDatagram(t: Table, id: SessionId, x: Input): Table {
    Deliver(if id in t.sessions then t else Create(t, id), id, x)
  }

  /** The wifi side delivers to registered ids and drops the rest. */
  function WifiDatagram(t: Table, id: SessionId, x: Input): Table {
    if id in t.sessions then Deliver(t, id, x) else t
  }

  predicate Enabled(t: Table, e: Event, vps: bool) {
    match e
    case Datagram(_, _) => t.receiving > 0
    case ReceiveError => t.receiving > 0
    case Registered(_) => !vps
    case Closed(id) => id in t.sessions
  }

  function Next(t: Table, e: Event, vps: bool): Table
    requires Enabled(t, e, vps)
  {
    match e
    case Datagram(id, x) => if vps then VpsDatagram(t, id, x) else WifiDatagram(t, id, x)
    case ReceiveError => Failed(t, vps)
    case Registered(id) => Register(t, id)
    case Closed(id) => Close(t, id)
  }

  predicate Legal(t: Table, es: seq<Event>, vps: bool)
    decreases |es|
  {
    es == [] || (Enabled(t, es[0], vps) && Legal(Next(t, es[0], vps), es[1..], vps))
  }

  function Run(t: Table, es: seq<Event>, vps: bool): Table
    requires Legal(t, es, vps)
    decreases |es|
  {
    if es == [] then t else Run(Next(t, es[0], vps), es[1..], vps)
  }

  // ---------- what a session should receive, from the events alone ----------

  /** The inputs that carry `id`, in order, up to its close. */
  function Carrying(es: seq<Event>, id: SessionId): seq<Input> {
    if es == [] || es[0] == Closed(id) then []
    else if es[0].Datagram? && es[0].id == id then [es[0].x] + Carrying(es[1..], id)
    else Carrying(es[1..], id)
  }

  /** Does this event bring a session for `id` into being, if there is none? */
  predicate Opens(e: Event, id: SessionId, vps: bool) {
    if vps then e.Datagram? && e.id == id else e == Registered(id)
  }

  /** Some event opens the session. */
  predicate Opened(es: seq<Event>, id: SessionId, vps: bool) {
    exists i | 0 <= i < |es| :: Opens(es[i], id, vps)
  }

  /** The events from the one that opens the session on. */
  function SinceOpened(es: seq<Event>, id: SessionId, vps: bool): seq<Event> {
    if es == [] || Opens(es[0], id, vps) then es else SinceOpened(es[1..], id, vps)
  }

  ghost predicate OncePerId(t: Table) {
    NoDup(t.created) && forall id :: id in t.sessions <==> id in t.created
  }

  lemma NextOncePerId(t: Table, e: Event, vps: bool)
    requires OncePerId(t) && Enabled(t, e, vps)
    ensures OncePerId(Next(t, e, vps))
  {
    if !e.ReceiveError? && e.id !in t.sessions {
      NoDupSnoc(t.created, e.id);
    }
  }

  lemma {:induction false} OpenReceives(t: Table, es: seq<Event>, id: SessionId, vps: bool)
    requires Legal(t, es, vps) && id in t.sessions
    ensures id in Run(t, es, vps).sessions
    ensures Run(t, es, vps).sessions[id].inputs ==
            t.sessions[id].inputs + if t.sessions[id].closed then [] else Carrying(es, id)
    decreases |es|
  {
    if es == [] {
    } else {
      OpenReceives(Next(t, es[0], vps), es[1..], id, vps);
    }
  }

  lemma {:induction false} NewReceives(t: Table, es: seq<Event>, id: SessionId, vps: bool)
    requires Legal(t, es, vps) && id !in t.sessions
    ensures id in Run(t, es, vps).sessions <==> Opened(es, id, vps)
    ensures Opened(es, id, vps) ==>
              Run(t, es, vps).sessions[id].inputs == Carrying(SinceOpened(es, id, vps), id)
    decreases |es|
  {
    if es == [] {
    } else {
      var u := Next(t, es[0], vps);
      if Opens(es[0], id, vps) {
        OpenReceives(u, es[1..], id, vps);
      } else {
        NewReceives(u, es[1..], id, vps);
        assert forall i | 0 <= i < |es| - 1 :: es[1..][i] == es[i + 1];
        assert forall i | 1 <= i < |es| :: es[i] == es[1..][i - 1];
      }
    }
  }

  lemma {:induction false} RunOncePerId(t: Table, es: seq<Event>, vps: bool)
    requires Legal(t, es, vps) && OncePerId(t)
    ensures OncePerId(Run(t, es, vps))
    decreases |es|
  {
    if es == [] {
    } else {
      NextOncePerId(t, es[0], vps);
      RunOncePerId(Next(t, es[0], vps), es[1..], vps);
    }
  }

  /** Over every run the VPS side has a session for exactly the ids it was sent, one session
      each, and gave it exactly the inputs that carried its id, in order, up to its close. */
  lemma VpsRoutes(es: seq<Event>, id: SessionId)
    requires Legal(NO_SESSIONS, es, true)
    ensures var t := Run(NO_SESSIONS, es, true);
      && OncePerId(t)
      && (id in t.sessions <==> exists i | 0 <= i < |es| :: es[i].Datagram? && es[i].id == id)
      && (id in t.sessions ==> t.sessions[id].inputs == Carrying(es, id))
  {
    RunOncePerId(NO_SESSIONS, es, true);
    NewReceives(NO_SESSIONS, es, id, true);
    NothingBefore(NO_SESSIONS, es, id);
    assert Opened(es, id, true) <==> exists i | 0 <= i < |es| :: es[i].Datagram? && es[i].id == id;
  }

  /** Nothing carries an id, and nothing closes it, before the datagram that creates its session. */
  lemma {:induction false} NothingBefore(t: Table, es: seq<Event>, id: SessionId)
    requires Legal(t, es, true) && id !in t.sessions
    ensures Carrying(SinceOpened(es, id, true), id) == Carrying(es, id)
    decreases |es|
  {
    if es == [] || Opens(es[0], id, true) {
    } else {
      NothingBefore(Next(t, es[0], true), es[1..], id);
    }
  }

  /** Over every run the wifi side has a session for exactly the ids it registered, and gave it
      exactly the inputs that carried its id from its registration to its close. */
  lemma WifiRoutes(es: seq<Event>, id: SessionId)
    requires Legal(NO_SESSIONS, es, false)
    ensures var t := Run(NO_SESSIONS, es, false);
      && OncePerId(t)
      && (id in t.sessions <==> exists i | 0 <= i < |es| :: es[i] == Registered(id))
      && (id in t.sessions ==> t.sessions[id].inputs == Carrying(SinceOpened(es, id, false), id))
  {
    RunOncePerId(NO_SESSIONS, es, false);
    NewReceives(NO_SESSIONS, es, id, false);
    assert Opened(es, id, false) <==> exists i | 0 <= i < |es| :: es[i] == Registered(id);
  }

  /** Receiving goes on: for ever on the VPS side, up to the first error on the wifi side; and
      without an outstanding receive no event gives a session any input. */
  lemma {:induction false} ReceivesUntilError(t: Table, es: seq<Event>, vps: bool)
    requires Legal(t, es, vps) && t.receiving <= 1
    ensures Run(t, es, vps).receiving ==
            if vps || (forall i | 0 <= i < |es| :: es[i] != ReceiveError) then t.receiving else 0
    ensures t.receiving == 0 ==> forall i | 0 <= i < |es| :: !es[i].Datagram? && !es[i].ReceiveError?
    decreases |es|
  {
    if es == [] {
      assert Run(t, es, vps) == t;
    } else {
      ReceivesUntilError(Next(t, es[0], vps), es[1..], vps);
      assert forall i | 1 <= i < |es| :: es[i] == es[1..][i - 1];
      assert forall i | 0 <= i < |es| - 1 :: es[1..][i] == es[i + 1];
    }
  }

  /** Such a run on the wifi side: one receive error, and no receive is outstanding. */
  lemma WifiStopsReceiving()
    ensures Legal(NO_SESSIONS, [ReceiveError], false)
    ensures Run(NO_SESSIONS, [ReceiveError], false).receiving == 0
  {
    var es := [ReceiveError];
    assert es[1..] == [];
    assert Legal(Next(NO_SESSIONS, ReceiveError, false), es[1..], false);
  }

  // ---------- what a datagram says ----------

  /** The buffer after `doDecrypt` of its first `n` bytes. */
  function Decrypted(c: Aead, buffer: seq<byte>, n: nat): (r: seq<byte>)
    requires Lawful(c) && OVERHEAD <= |buffer| && n <= |buffer|
    ensures |r| == |buffer|
  {
    if n < OVERHEAD then buffer else
      Sizes(c, buffer[..n]);
      Patched(buffer, PLAIN_OFFSET, Plain(c, buffer[..n]))
  }

  lemma Sizes(c: Aead, packet: seq<byte>)
    requires Lawful(c) && |packet| >= OVERHEAD
    ensures |Plain(c, packet)| == |packet| - OVERHEAD
  {
    assert |c.decrypt(Key(packet), Iv(packet), Text(packet))| == |Text(packet)|;
  }

  /** Whose packet it is: the 16 bytes at offset 44, whatever the tag says. */
  function Sender(c: Aead, buffer: seq<byte>, n: nat): SessionId
    requires Lawful(c) && OVERHEAD <= |buffer| && n <= |buffer|
  {
    Decrypted(c, buffer, n)[PLAIN_OFFSET..PLAIN_OFFSET + ID_SIZE]
  }

  /** What its session is given: the plaintext after the id, or a refused size. */
  function Content(c: Aead, buffer: seq<byte>, n: nat): Input
    requires Lawful(c) && OVERHEAD <= |buffer| && n <= |buffer|
  {
    if Authentic(c, buffer[..n]) then
      if n >= OVERHEAD + ID_SIZE then
        Segment(Decrypted(c, buffer, n)[PLAIN_OFFSET + ID_SIZE..n - TAG_SIZE - PADDING_SIZE])
      else Junk(n - OVERHEAD - ID_SIZE)
    else Junk(-1 - ID_SIZE)
  }

  /** What an accepted datagram says: its first 16 plaintext bytes are the session, the rest is for its
      KCP; one with less than 16 is a refused size. A rejected one of 68 bytes or more names the
      session its false plaintext happens to name, one that is shorter the bytes at 44. */
  lemma DatagramExact(c: Aead, buffer: seq<byte>, n: nat)
    requires Lawful(c) && OVERHEAD <= |buffer| && n <= |buffer|
    ensures var p := buffer[..n];
      && (Authentic(c, p) && n >= 84 ==>
            Sender(c, buffer, n) == Plain(c, p)[..16] && Content(c, buffer, n) == Segment(Plain(c, p)[16..]))
      && (Authentic(c, p) && n < 84 ==> Content(c, buffer, n) == Junk(n - 84))
      && (!Authentic(c, p) ==> Content(c, buffer, n) == Junk(-17))
      && (84 <= n ==> Sender(c, buffer, n) == Plain(c, p)[..16])
      && (n < 68 ==> Sender(c, buffer, n) == buffer[44..60])
  {
    if n >= 68 {
      var p := buffer[..n];
      Sizes(c, p);
      var after := Decrypted(c, buffer, n);
      assert after[44..n - 24] == Plain(c, p);
      if n >= 84 {
        assert after[44..60] == after[44..n - 24][..16] && after[60..n - 24] == after[44..n - 24][16..];
      }
    }
  }

  /** KCP's segments of at most 1250 bytes become packets that fit what `kcpCallBack` asks the
      pool for, what the pool gives, and the receive buffer. */
  lemma FramesFit(c: Aead, key: seq<byte>, iv: seq<byte>, id: SessionId, segment: seq<byte>)
    requires Lawful(c) && |key| == KEY_SIZE && |iv| == IV_SIZE && |segment| <= 1250
    ensures |Frame(c, key, iv, id, segment)| == |segment| + 84
    ensures |segment| + 84 <= |segment| + 128
      <= SizeClasses.Capacity(SizeClasses.ClassOf(|segment| + 128)) <= BUFFER_SIZE
  {
    OpenSeal(c, key, iv, id + segment);
    SizeClasses.ClassFits(|segment| + 128);
    SizeClasses.Pow2Table();
  }

  /** A framed segment arrives at the session it was framed for, unaltered. */
  lemma FrameArrives(c: Aead, key: seq<byte>, iv: seq<byte>, id: SessionId, segment: seq<byte>,
                     buffer: seq<byte>, n: nat)
    requires Lawful(c) && |key| == KEY_SIZE && |iv| == IV_SIZE
    requires OVERHEAD <= |buffer| && n <= |buffer| && buffer[..n] == Frame(c, key, iv, id, segment)
    ensures Sender(c, buffer, n) == id && Content(c, buffer, n) == Segment(segment)
  {
    OpenSeal(c, key, iv, id + segment);
    var after := Decrypted(c, buffer, n);
    assert after[PLAIN_OFFSET..PLAIN_OFFSET + ID_SIZE + |segment|] == id + segment;
    assert after[PLAIN_OFFSET..PLAIN_OFFSET + ID_SIZE] == (id + segment)[..ID_SIZE];
    assert after[PLAIN_OFFSET + ID_SIZE..PLAIN_OFFSET + ID_SIZE + |segment|] == (id + segment)[ID_SIZE..];
  }
}

/** The receiving half of the two workers. */
module Workers {
  import opened Wire
  import opened Packet
  import opened Demux

  class Worker {
    const cipher: Aead
    const udpReceiveBuffer: array<byte>
    var sessionMap: map<SessionId, Record>
    var receiving: nat                // outstanding async_receive calls
    ghost var created: seq<SessionId>

    ghost function View(): Table
      reads this
    {
      Table(sessionMap, created, receiving)
    }

    ghost predicate Valid()
      reads this
    {
      Lawful(cipher) && udpReceiveBuffer.Length == BUFFER_SIZE && OncePerId(View())
    }

    constructor (cipher: Aead)
      requires Lawful(cipher)
      ensures Valid() && View() == NO_SESSIONS && fresh(udpReceiveBuffer)
    {
      this.cipher := cipher;
      udpReceiveBuffer := new byte[BUFFER_SIZE](_ => 0);
      sessionMap, created, receiving := map[], [], 1;
    }

    /** Start the next receive into the buffer. */
    method Receive()
      modifies this`receiving
      ensures receiving == old(receiving) + 1
    {
      receiving := receiving + 1;
    }

    /** Decrypt in place and read the header: whose packet, and what it carries. */
    method Unpack(n: nat) returns (id: SessionId, x: Input)
      requires Valid() && n <= BUFFER_SIZE
      modifies udpReceiveBuffer
      ensures id == Sender(cipher, old(udpReceiveBuffer[..]), n)
      ensures x == Content(cipher, old(udpReceiveBuffer[..]), n)
    {
      ghost var b := udpReceiveBuffer[..];
      assert b[..n] == udpReceiveBuffer[..n];
      var r := DoDecrypt(cipher, udpReceiveBuffer, n);
      assert udpReceiveBuffer[..] == Decrypted(cipher, b, n);
      id := udpReceiveBuffer[..][PLAIN_OFFSET..PLAIN_OFFSET + ID_SIZE];
      var len := if r == FAILED then -1 else r;
      if len >= ID_SIZE {
        x := Segment(udpReceiveBuffer[..][PLAIN_OFFSET + ID_SIZE..PLAIN_OFFSET + len]);
      } else {
        x := Junk(len - ID_SIZE);
      }
    }

    /** VPS side, completion of async_receive_from with `n` bytes or an error. */
    method Listen(error: bool, n: nat)
      requires Valid() && receiving > 0 && n <= BUFFER_SIZE
      modifies this, udpReceiveBuffer
      ensures Valid()
      ensures View() == if error then Next(old(View()), ReceiveError, true) else if n == 0 then old(View()) else
        var b := old(udpReceiveBuffer[..]);
        Next(old(View()), Datagram(Sender(cipher, b, n), Content(cipher, b, n)), true)
    {
      ghost var t := View();
      receiving := receiving - 1;
      if error {
        Receive();
        return;
      }
      if n == 0 {
        Receive();
        return;
      }
      var id, x := Unpack(n);
      NextOncePerId(t, Datagram(id, x), true);
      if id !in sessionMap {
        sessionMap, created := sessionMap[id := Record(false, [])], created + [id];
      }
      InputToKcp(id, x);
      Receive();
    }

    /** Wifi side, completion of async_receive. */
    method ReceiveUdpMessageFromRemoteServer(error: bool, n: nat)
      requires Valid() && receiving > 0 && n <= BUFFER_SIZE
      modifies this, udpReceiveBuffer
      ensures Valid()
      ensures View() == if error then Next(old(View()), ReceiveError, false) else
        var b := old(udpReceiveBuffer[..]);
        Next(old(View()), Datagram(Sender(cipher, b, n), Content(cipher, b, n)), false)
    {
      receiving := receiving - 1;
      if error {
        return;
      }
      var id, x := Unpack(n);
      if id in sessionMap {
        InputToKcp(id, x);
      }
      Receive();
    }

    method InputToKcp(id: SessionId, x: Input)
      requires id in sessionMap
      modifies this`sessionMap
      ensures View() == Deliver(old(View()), id, x)
    {
      var r := sessionMap[id];
      if !r.closed {
        sessionMap := sessionMap[id := r.(inputs := r.inputs + [x])];
      }
    }

    /** Wifi side, `registerSession` with the random id drawn. */
    method RegisterSession(id: SessionId)
      requires Valid()
      modifies this
      ensures Valid() && View() == Next(old(View()), Registered(id), false)
    {
      NextOncePerId(View(), Registered(id), false);
      if id !in sessionMap {
        sessionMap, created := sessionMap[id := Record(false, [])], created + [id];
      }
    }
  }
}
