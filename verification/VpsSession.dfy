/** The VPS side (remoteVps/session.cpp): the write queue is gated by a handshake with the
    target, and a completed write clears the queue before it looks at the front. */
module VpsSpec {
  import opened Wire
  import opened Relay

  datatype Vps = Vps(
    conn: Conn,
    enable: bool,               // enableToSendToTargetServer_
    status: u32,                // currentCmdStatus_
    connecting: nat,            // outstanding async_connect calls
    handshakes: seq<Endpoint>,  // every endpoint async_connect was called with
    undefined: bool)            // pop_front was called on an empty deque

  const FRESH := Vps(Conn(0, false, 0, [], 0, false, false, [], [], [], [], Flowing), false, NEW_SESSION, 0, [], false)

  function Take(v: Vps, m: Message): Vps {
    if !Receivable(m, true) then v.(conn := v.conn.(inlet := Stopped(m)))
    else Dispatch(v.(conn := v.conn.(received := v.conn.received + [m])), m)
  }

  function Dispatch(v: Vps, m: Message): Vps
    requires Framed(m)
  {
    match Decode(m)
    case NewSession(ep) =>
      if v.status == NEW_SESSION then v.(connecting := v.connecting + 1, handshakes := v.handshakes + [ep]) else v
    case Normal(_) => v.(conn := Enqueue(v.conn, m, v.enable))
    case Ignored => v
  }

  function TakeAll(v: Vps, ms: seq<Message>): Vps
    decreases |ms|
  {
    if ms == [] || v.conn.inlet != Flowing then v else TakeAll(Take(v, ms[0]), ms[1..])
  }

  function Input(v: Vps, acked: nat, ms: seq<Message>): Vps
    requires acked <= v.conn.backlog
  {
    if v.conn.closed then v
    else
      var d := TakeAll(v.(conn := Acknowledge(v.conn, acked)), ms);
      d.(conn := Resume(d.conn))
  }

  function ConnectDone(v: Vps, ok: bool): Vps
    requires v.connecting > 0
  {
    var d := v.(connecting := v.connecting - 1);
    if ok then Opened(d) else d
  }

  /** Blind forwarding starts: the first read, and whatever was buffered before the handshake. */
  function Opened(v: Vps): Vps {
    v.(enable := true, status := NORMAL,
       conn := v.conn.(reading := v.conn.reading + 1,
                       writing := if v.conn.queue == [] then v.conn.writing else v.conn.writing + 1))
  }

  function ReadDone(v: Vps, r: ReadResult, segs: nat): Vps
    requires v.conn.reading > 0
  {
    v.(conn := Relay.ReadDone(v.conn, r, segs))
  }

  predicate CanWrite(v: Vps, w: WriteResult) {
    v.conn.writing > 0 && v.conn.queue != [] && (w.WriteError? ==> w.partial <= |Front(v.conn)|)
  }

  function WriteDone(v: Vps, w: WriteResult): Vps
    requires CanWrite(v, w)
  {
    var c := v.conn;
    match w
    case WriteError(n) =>
      v.(conn := c.(written := c.written + Front(c)[..n], queue := if c.closed then [] else c.queue,
                    writing := c.writing - 1, closed := true))
    case WriteOk =>
      if c.closed then
        v.(conn := c.(written := c.written + Front(c), queue := [], writing := c.writing - 1), undefined := true)
      else
        var rest := c.queue[1..];
        v.(conn := c.(written := c.written + Front(c), queue := rest,
                      writing := if rest == [] then c.writing - 1 else c.writing))
  }

  /** What every handler keeps. A connection attempt may still be pending on a connected session. */
  predicate Inv(v: Vps, F: nat) {
    && PumpInv(v.conn, F, v.enable)
    && QueueInv(v.conn, v.enable)
    && v.status == (if v.enable then NORMAL else NEW_SESSION)
    && v.connecting + (if v.enable then 1 else 0) <= |v.handshakes|
    && (v.undefined ==> v.conn.closed)
  }

  /** What handling messages changes. */
  predicate Handled(v: Vps, d: Vps, more: seq<Message>, inlet: Inlet) {
    && d.conn == v.conn.(queue := d.conn.queue, writing := d.conn.writing,
                         received := v.conn.received + more, inlet := inlet)
    && d == v.(conn := d.conn, connecting := d.connecting, handshakes := d.handshakes)
    && |d.handshakes| - d.connecting == |v.handshakes| - v.connecting
  }

  lemma TakeHandles(v: Vps, m: Message)
    requires v.conn.inlet == Flowing
    ensures Handled(v, Take(v, m), First(m, true), if Receivable(m, true) then Flowing else Stopped(m))
  {
    assert v.conn.received + [] == v.conn.received;
  }

  lemma TakeKeepsQueue(v: Vps, m: Message)
    requires QueueInv(v.conn, v.enable) && !v.conn.closed
    ensures QueueInv(Take(v, m).conn, v.enable)
  {
    if Receivable(m, true) {
      if IsNormal(m) {
        EnqueueKeepsQueue(v.conn, m, v.enable);
      } else {
        SkipKeepsQueue(v.conn, m, v.enable);
      }
    }
  }

  /** The receive loop touches nothing but the write queue and the handshake, and takes exactly the
      messages before the first it cannot take. */
  lemma {:induction false} TakeAllHandles(v: Vps, ms: seq<Message>)
    ensures Handled(v, TakeAll(v, ms), Admitted(v.conn, ms, true), InletAfter(v.conn, ms, true))
    decreases |ms|
  {
    if ms == [] || v.conn.inlet != Flowing {
      assert v.conn.received + Admitted(v.conn, ms, true) == v.conn.received;
    } else {
      var d := Take(v, ms[0]);
      TakeHandles(v, ms[0]);
      TakeAllHandles(d, ms[1..]);
      TakenCons(v.conn.received, ms, true);
      assert d.conn.received + [] == d.conn.received;
    }
  }

  /** It loses none of those it takes. */
  lemma {:induction false} TakeAllKeepsQueue(v: Vps, ms: seq<Message>)
    requires QueueInv(v.conn, v.enable) && !v.conn.closed
    ensures QueueInv(TakeAll(v, ms).conn, v.enable)
    ensures Handled(v, TakeAll(v, ms), Admitted(v.conn, ms, true), InletAfter(v.conn, ms, true))
    decreases |ms|
  {
    TakeAllHandles(v, ms);
    if ms == [] || v.conn.inlet != Flowing {
    } else {
      TakeHandles(v, ms[0]);
      TakeKeepsQueue(v, ms[0]);
      TakeAllKeepsQueue(Take(v, ms[0]), ms[1..]);
    }
  }

  lemma InputKeepsInv(v: Vps, acked: nat, ms: seq<Message>, F: nat)
    requires Inv(v, F) && acked <= v.conn.backlog
    ensures var d := Input(v, acked, ms);
      && Inv(d, F)
      && d.conn.received == (if v.conn.closed then v.conn.received else v.conn.received + Admitted(v.conn, ms, true))
      && d.conn.inlet == (if v.conn.closed then v.conn.inlet else InletAfter(v.conn, ms, true))
      && d.conn.sent == v.conn.sent && d.conn.read == v.conn.read && d.conn.dry == v.conn.dry
      && d.enable == v.enable
      && (v.conn.closed ==> d == v)
      && (!v.conn.closed ==>
            && d.conn.backlog + acked == v.conn.backlog && (d.conn.busy <==> v.conn.busy && d.conn.backlog >= 85)
            && d.conn.reading - v.conn.reading == (if v.conn.busy && d.conn.backlog < 85 then 1 else 0))
  {
    if !v.conn.closed {
      TakeAllKeepsQueue(v.(conn := Acknowledge(v.conn, acked)), ms);
      InputKeepsPump(v.conn, acked, F, v.enable);
      ResumesExactly(v.conn, acked);
    }
  }

  lemma TakeQueues(v: Vps, m: Message)
    requires v.conn.inlet == Flowing
    ensures Take(v, m).conn.queue == v.conn.queue + Normals(First(m, true))
    ensures Take(v, m).conn.inlet == if Receivable(m, true) then Flowing else Stopped(m)
  {
    NormalsOne(m);
    assert v.conn.queue + [] == v.conn.queue;
  }

  /** What the loop queues is exactly what it takes that carries bytes. */
  lemma {:induction false} TakeAllQueues(v: Vps, ms: seq<Message>)
    ensures TakeAll(v, ms).conn.queue == v.conn.queue + Normals(Admitted(v.conn, ms, true))
    decreases |ms|
  {
    if ms == [] || v.conn.inlet != Flowing {
      assert v.conn.queue + [] == v.conn.queue;
    } else {
      var d := Take(v, ms[0]);
      TakeQueues(v, ms[0]);
      TakeAllQueues(d, ms[1..]);
      QueuedBoth(v.conn, d.conn, ms, true, TakeAll(d, ms[1..]).conn.queue);
    }
  }

  lemma ReadDoneKeepsInv(v: Vps, r: ReadResult, segs: nat, F: nat)
    requires Inv(v, F) && v.conn.reading > 0 && 1 <= segs <= F
    ensures Inv(ReadDone(v, r, segs), F)
  {
    ReadDoneKeepsPump(v.conn, r, segs, F);
    ReadDoneKeepsQueue(v.conn, r, segs);
    assert ReadDone(v, r, segs).conn.closed || !v.conn.closed;
  }

  /** A successful connect on an open session keeps the session's invariant if and only if the
      session was not connected yet: one reader and one writer, and no read while paused. */
  lemma ConnectKeepsInv(v: Vps, F: nat)
    requires Inv(v, F) && v.connecting > 0 && !v.conn.closed
    ensures Inv(ConnectDone(v, true), F) <==> !v.enable
  {
  }

  predicate OneReaderOneWriter(c: Conn) {
    c.reading <= 1 && c.writing <= 1 && !(c.reading == 1 && c.busy)
  }

  /** When a second connect does no harm yet: nothing is being read, nothing is paused and nothing
      is being written. An open session is in that state exactly when its read loop has ended and
      its queue is empty. */
  lemma ConnectExact(v: Vps, F: nat)
    requires Inv(v, F) && v.connecting > 0
    ensures OneReaderOneWriter(ConnectDone(v, true).conn) <==>
              (v.enable ==> v.conn.reading == 0 && !v.conn.busy && (v.conn.queue == [] || v.conn.writing == 0))
    ensures !v.conn.closed ==>
              (OneReaderOneWriter(ConnectDone(v, true).conn) <==> (v.enable ==> v.conn.dry && v.conn.queue == []))
  {
  }

  lemma ConnectFailedKeepsInv(v: Vps, F: nat)
    requires Inv(v, F) && v.connecting > 0
    ensures Inv(ConnectDone(v, false), F)
  {
  }

  lemma WriteDoneKeepsInv(v: Vps, w: WriteResult, F: nat)
    requires Inv(v, F) && CanWrite(v, w)
    ensures Inv(WriteDone(v, w), F)
    ensures !v.undefined ==> (WriteDone(v, w).undefined <==> v.conn.closed && w.WriteOk?)
    ensures v.conn.closed ==> WriteDone(v, w).conn.writing == 0 && WriteDone(v, w).conn.queue == []
    ensures w.WriteError? ==>
              var d := WriteDone(v, w).conn;
              && d.closed && d.writing == 0 && d.written == v.conn.written + Front(v.conn)[..w.partial]
              && d.queue == if v.conn.closed then [] else v.conn.queue
    ensures w.WriteOk? ==>
              var d := WriteDone(v, w).conn;
              d.closed == v.conn.closed && d.written == v.conn.written + Front(v.conn)
  {
    WriteProgress(v.conn, if w.WriteError? then w.partial else |Front(v.conn)|);
  }

  /** Two newSession messages before the first connect completes start two connects; should both
      succeed, two reads share the one receive buffer. */
  lemma TwoHandshakesTwoReaders(ep: Endpoint)
    ensures var v := Input(FRESH, 0, [EncodeNewSession(ep), EncodeNewSession(ep)]);
      && v.connecting == 2
      && ConnectDone(ConnectDone(v, true), true).conn.reading == 2
  {
    NewSessionRoundTrip(ep);
    var m := EncodeNewSession(ep);
    var ms := [m, m];
    assert ms[1..] == [m];
    var v0 := FRESH.(conn := Acknowledge(FRESH.conn, 0));
    assert TakeAll(v0, ms) == TakeAll(Take(v0, m), [m]);
    assert TakeAll(Take(v0, m), [m]) == TakeAll(Take(Take(v0, m), m), []);
  }

  // ---------- whole runs against an arbitrary peer ----------

  /** What can happen to a session, whoever sends it messages. */
  datatype Event =
    | Arrived(acked: nat, ms: seq<Message>)
    | Read(r: ReadResult, segs: nat)
    | Wrote(w: WriteResult)
    | Connected(ok: bool)

  predicate Enabled(v: Vps, e: Event, F: nat) {
    && !v.undefined && v.conn.inlet != Overrun
    && match e
       case Arrived(acked, _) => acked <= v.conn.backlog
       case Read(_, segs) => v.conn.reading > 0 && 1 <= segs <= F
       case Wrote(w) => CanWrite(v, w)
       case Connected(_) => v.connecting > 0
  }

  function Next(v: Vps, e: Event, F: nat): Vps
    requires Enabled(v, e, F)
  {
    match e
    case Arrived(acked, ms) => Input(v, acked, ms)
    case Read(r, segs) => ReadDone(v, r, segs)
    case Wrote(w) => WriteDone(v, w)
    case Connected(ok) => ConnectDone(v, ok)
  }

  predicate Legal(v: Vps, es: seq<Event>, F: nat)
    decreases |es|
  {
    es == [] || (Enabled(v, es[0], F) && Legal(Next(v, es[0], F), es[1..], F))
  }

  function Run(v: Vps, es: seq<Event>, F: nat): Vps
    requires Legal(v, es, F)
    decreases |es|
  {
    if es == [] then v else Run(Next(v, es[0], F), es[1..], F)
  }

  /** How many connects succeed in a run. */
  function Successes(es: seq<Event>): nat {
    if es == [] then 0 else (if es[0] == Connected(true) then 1 else 0) + Successes(es[1..])
  }

  /** How many connects complete, one way or the other. */
  function Completions(es: seq<Event>): nat {
    if es == [] then 0 else (if es[0].Connected? then 1 else 0) + Completions(es[1..])
  }

  lemma {:induction false} SuccessesComplete(es: seq<Event>)
    ensures Successes(es) <= Completions(es)
  {
    if es == [] {
    } else {
      SuccessesComplete(es[1..]);
    }
  }

  /** The endpoints of `announced` are connected to, one connect each, unless the session is connected. */
  predicate Attempted(v: Vps, d: Vps, announced: seq<Endpoint>) {
    && d.handshakes == v.handshakes + (if v.status == NEW_SESSION then announced else [])
    && d.connecting - v.connecting == |d.handshakes| - |v.handshakes|
    && d.status == v.status && d.enable == v.enable
    && Announced(d.conn.received) == Announced(v.conn.received) + announced
  }

  lemma TakeAttempts(v: Vps, m: Message)
    requires v.conn.inlet == Flowing
    ensures Attempted(v, Take(v, m), Announced(First(m, true)))
    ensures Take(v, m).conn.inlet == if Receivable(m, true) then Flowing else Stopped(m)
  {
    assert First(m, true) != [] ==> First(m, true)[1..] == [];
    AnnouncedConcat(v.conn.received, First(m, true));
    if First(m, true) == [] {
      assert v.handshakes + [] == v.handshakes;
      assert Announced(v.conn.received) + [] == Announced(v.conn.received);
    }
  }

  lemma AttemptedBoth(v: Vps, d: Vps, e: Vps, a: seq<Endpoint>, b: seq<Endpoint>)
    requires Attempted(v, d, a) && Attempted(d, e, b)
    ensures Attempted(v, e, a + b)
  {
    assert (v.handshakes + a) + b == v.handshakes + (a + b);
    assert (Announced(v.conn.received) + a) + b == Announced(v.conn.received) + (a + b);
  }

  lemma {:induction false} TakeAllAttempts(v: Vps, ms: seq<Message>)
    ensures Attempted(v, TakeAll(v, ms), Announced(Admitted(v.conn, ms, true)))
    decreases |ms|
  {
    if ms == [] || v.conn.inlet != Flowing {
      assert v.handshakes + [] == v.handshakes;
      assert Announced(v.conn.received) + [] == Announced(v.conn.received);
    } else {
      var d := Take(v, ms[0]);
      TakeAttempts(v, ms[0]);
      TakeAllAttempts(d, ms[1..]);
      var a, b := First(ms[0], true), Admitted(d.conn, ms[1..], true);
      AttemptedBoth(v, d, TakeAll(d, ms[1..]), Announced(a), Announced(b));
      AnnouncedConcat(a, b);
      AdmittedCons(v.conn, d.conn, ms, true);
    }
  }

  /** Before a session is connected, it has tried every endpoint announced to it, in order and once
      each; connecting ends that. */
  predicate TriedAll(v: Vps) {
    && v.status == (if v.enable then NORMAL else NEW_SESSION)
    && v.handshakes <= Announced(v.conn.received)
    && (!v.enable ==> v.handshakes == Announced(v.conn.received))
  }

  lemma NextTries(v: Vps, e: Event, F: nat)
    requires Enabled(v, e, F) && TriedAll(v)
    ensures var d := Next(v, e, F);
      && TriedAll(d)
      && (v.enable ==> d.enable && d.handshakes == v.handshakes)
      && |d.handshakes| - d.connecting == |v.handshakes| - v.connecting + if e.Connected? then 1 else 0
  {
    if e.Arrived? && !v.conn.closed {
      TakeAllAttempts(v.(conn := Acknowledge(v.conn, e.acked)), e.ms);
    }
  }

  /** Over every run, whatever the peer sends: the endpoints tried are the first announced, all of
      them until the session is connected and none after; and every try but those that completed
      is outstanding. */
  lemma {:induction false} TriesExactly(v: Vps, es: seq<Event>, F: nat)
    requires Legal(v, es, F) && TriedAll(v)
    ensures var d := Run(v, es, F);
      && TriedAll(d)
      && (v.enable ==> d.enable && d.handshakes == v.handshakes)
      && |d.handshakes| - d.connecting == |v.handshakes| - v.connecting + Completions(es)
    decreases |es|
  {
    if es == [] {
      assert Run(v, es, F) == v;
    } else {
      NextTries(v, es[0], F);
      TriesExactly(Next(v, es[0], F), es[1..], F);
    }
  }

  /** So no more connects succeed than the peer announced sessions. */
  lemma SuccessesBounded(es: seq<Event>, F: nat)
    requires Legal(FRESH, es, F)
    ensures Successes(es) <= |Announced(Run(FRESH, es, F).conn.received)|
  {
    TriesExactly(FRESH, es, F);
    SuccessesComplete(es);
  }

  /** Every event but a second successful connect keeps the invariant. */
  lemma NextKeepsInv(v: Vps, e: Event, F: nat)
    requires Inv(v, F) && Enabled(v, e, F) && (e == Connected(true) ==> !v.enable)
    ensures Inv(Next(v, e, F), F)
    ensures Next(v, e, F).enable <==> v.enable || e == Connected(true)
  {
    match e
    case Arrived(acked, ms) => InputKeepsInv(v, acked, ms, F);
    case Read(r, segs) => ReadDoneKeepsInv(v, r, segs, F);
    case Wrote(w) => WriteDoneKeepsInv(v, w, F);
    case Connected(ok) => if ok { ConnectKeepsInv(v, F); } else { ConnectFailedKeepsInv(v, F); }
  }

  lemma {:induction false} SafeOnce(v: Vps, es: seq<Event>, F: nat)
    requires Inv(v, F) && Legal(v, es, F)
    requires Successes(es) + (if v.enable then 1 else 0) <= 1
    ensures Inv(Run(v, es, F), F)
    decreases |es|
  {
    if es == [] {
      assert Run(v, es, F) == v;
    } else {
      NextKeepsInv(v, es[0], F);
      SafeOnce(Next(v, es[0], F), es[1..], F);
    }
  }

  /** Some message arrives at an open session whose receive loop has not stopped, cannot be taken
      and is not empty, and no empty one comes before it. */
  predicate Overruns(v: Vps, es: seq<Event>, F: nat)
    requires Legal(v, es, F)
    decreases |es|
  {
    es != [] &&
    (|| (es[0].Arrived? && !v.conn.closed && v.conn.inlet == Flowing && StateAfter(es[0].ms, true) == Overrun)
     || Overruns(Next(v, es[0], F), es[1..], F))
  }

  /** After a message it cannot take nothing is claimed any more. */
  lemma OverrunLast(v: Vps, es: seq<Event>, F: nat)
    requires Legal(v, es, F) && v.conn.inlet == Overrun
    ensures es == [] && Run(v, es, F) == v
  {
  }

  lemma {:induction false} OverrunExact(v: Vps, es: seq<Event>, F: nat)
    requires Inv(v, F) && Legal(v, es, F) && v.conn.inlet != Overrun
    requires Successes(es) + (if v.enable then 1 else 0) <= 1
    ensures Run(v, es, F).conn.inlet == Overrun <==> Overruns(v, es, F)
    decreases |es|
  {
    if es == [] {
      assert Run(v, es, F) == v;
    } else {
      NextKeepsInv(v, es[0], F);
      var d := Next(v, es[0], F);
      if es[0].Arrived? {
        InputKeepsInv(v, es[0].acked, es[0].ms, F);
      }
      if d.conn.inlet == Overrun {
        OverrunLast(d, es[1..], F);
      } else {
        OverrunExact(d, es[1..], F);
      }
    }
  }

  /** Whatever a peer sends, no more connects succeed than it announced endpoints; and a session to
      which it announced at most one keeps one reader, one writer and the byte accounting, and writes
      a prefix of the bytes it received, up to the first message the receive loop cannot take. */
  lemma SafeWithAnyPeer(es: seq<Event>, F: nat)
    requires F >= 1 && Legal(FRESH, es, F)
    ensures var v := Run(FRESH, es, F);
      && Successes(es) <= |Announced(v.conn.received)|
      && (|Announced(v.conn.received)| <= 1 ==>
            && Inv(v, F) && OneReaderOneWriter(v.conn) && v.conn.written <= Bytes(v.conn.received)
            && (v.conn.inlet == Overrun <==> Overruns(FRESH, es, F)))
  {
    SuccessesBounded(es, F);
    if |Announced(Run(FRESH, es, F).conn.received)| <= 1 {
      SafeOnce(FRESH, es, F);
      OverrunExact(FRESH, es, F);
    }
  }

  /** A message that does not fit the area its size is given is not receivable: such a run. */
  lemma OversizeOverruns(data: seq<byte>)
    requires |data| >= BUFFER_SIZE - STATUS_SIZE + 1
    ensures var es := [Arrived(0, [EncodeNormal(data)])];
      Legal(FRESH, es, 1) && Run(FRESH, es, 1).conn.inlet == Overrun
  {
    var es := [Arrived(0, [EncodeNormal(data)])];
    var v := FRESH.(conn := Acknowledge(FRESH.conn, 0));
    TakeAllKeepsQueue(v, [EncodeNormal(data)]);
    assert Run(Next(FRESH, es[0], 1), [], 1).conn.inlet == Overrun;
    assert Legal(FRESH, es, 1) && es[1..] == [];
  }

  /** After an empty message nothing is taken any more, whatever arrives. */
  lemma {:induction false} BlockedForGood(v: Vps, es: seq<Event>, F: nat)
    requires Legal(v, es, F) && v.conn.inlet == Blocked
    ensures Run(v, es, F).conn.inlet == Blocked && Run(v, es, F).conn.received == v.conn.received
    decreases |es|
  {
    if es == [] {
      assert Run(v, es, F) == v;
    } else {
      BlockedForGood(Next(v, es[0], F), es[1..], F);
    }
  }
}

/** The VPS-side session as the object the handlers update. */
module VpsSessions {
  import opened Wire
  import opened Relay
  import opened KcpContract
  import Spec = VpsSpec

  class Session {
    const kcp: Kcp
    var trafficBusy: bool
    var enableToSendToTargetServer: bool
    var sessionClose: bool
    var currentCmdStatus: u32
    var waitForSend: seq<Message>      // tcpDataWaitForSendDeque_
    var socket: Socket
    var handshakes: seq<Endpoint>      // endpoints async_connect was called with
    var poppedEmpty: bool              // pop_front was called on an empty deque
    ghost var inlet: Inlet             // what has become of the receive loop

    ghost function Conn(): Relay.Conn
      reads this, kcp
    {
      Relay.Conn.Conn(socket.reading, trafficBusy, kcp.backlog, waitForSend, socket.writing, sessionClose,
                socket.dry, socket.read, socket.written, kcp.sent, kcp.received, inlet)
    }

    /** The session this object stands for. */
    ghost function View(): Spec.Vps
      reads this, kcp
    {
      Spec.Vps(Conn(), enableToSendToTargetServer, currentCmdStatus, socket.connecting, handshakes, poppedEmpty)
    }

    ghost predicate Valid(F: nat)
      reads this, kcp
    {
      Spec.Inv(View(), F) && Drained()
    }

    /** KCP holds no message, unless the receive loop was stopped by the first one it holds. */
    ghost predicate Drained()
      reads this, kcp
    {
      && (inlet == Flowing ==> kcp.inbox == [])
      && (inlet == Blocked ==> kcp.inbox != [] && kcp.inbox[0] == [])
    }

    constructor (kcp: Kcp)
      requires kcp.Idle()
      ensures this.kcp == kcp && View() == Spec.FRESH && forall F: nat | F >= 1 :: Valid(F)
    {
      this.kcp := kcp;
      trafficBusy, enableToSendToTargetServer, sessionClose := false, false, false;
      currentCmdStatus, waitForSend, socket := NEW_SESSION, [], UNUSED_SOCKET;
      handshakes, poppedEmpty, inlet := [], false, Flowing;
    }

    method ReceiveTcpFromTargetServerMessage()
      modifies this`socket
      ensures socket == old(socket).(reading := old(socket).reading + 1)
    {
      socket := socket.(reading := socket.reading + 1);
    }

    method CloseSession()
      modifies this`sessionClose
      ensures sessionClose
    {
      if !sessionClose {
        sessionClose := true;
      }
    }

    method CheckTrafficStatus()
      modifies this`trafficBusy, this`socket
      ensures Conn() == CheckTraffic(old(Conn())) && socket.connecting == old(socket.connecting)
    {
      var waiting := kcp.WaitSnd();
      if waiting >= HIGH_WATER {
        trafficBusy := true;
      } else {
        ReceiveTcpFromTargetServerMessage();
      }
    }

    /** Completion of async_read_some. */
    method OnRead(r: ReadResult, segs: nat, ghost F: nat)
      requires Valid(F) && socket.reading > 0 && 1 <= segs <= F
      modifies this, kcp
      ensures View() == Spec.ReadDone(old(View()), r, segs) && Valid(F)
    {
      Spec.ReadDoneKeepsInv(View(), r, segs, F);
      socket := socket.(reading := socket.reading - 1);
      if r.ReadError? {
        CloseSession();
        return;
      }
      if |r.data| == 0 {
        socket := socket.(dry := true);
        return;
      }
      socket := socket.(read := socket.read + r.data);
      kcp.Send(EncodeNormal(r.data), segs);
      CheckTrafficStatus();
    }

    method TrySendTcpToTargetServerMessage(m: Message)
      requires IsNormal(m)
      modifies this`waitForSend, this`socket
      ensures Conn() == Enqueue(old(Conn()), m, enableToSendToTargetServer)
      ensures socket.connecting == old(socket.connecting)
    {
      if !enableToSendToTargetServer {
        waitForSend := waitForSend + [m];
        return;
      }
      var isEmpty := waitForSend == [];
      waitForSend := waitForSend + [m];
      if isEmpty {
        SendTcpToTargetServerMessage();
      }
    }

    /** Start writing the front message. */
    method SendTcpToTargetServerMessage()
      requires waitForSend != []
      modifies this`socket
      ensures socket == old(socket).(writing := old(socket).writing + 1)
    {
      socket := socket.(writing := socket.writing + 1);
    }

    /** Completion of async_write. */
    method OnWrite(w: WriteResult, ghost F: nat)
      requires Valid(F) && socket.writing > 0
      requires w.WriteError? ==> w.partial <= |Front(Conn())|
      modifies this
      ensures View() == Spec.WriteDone(old(View()), w) && Valid(F)
    {
      Spec.WriteDoneKeepsInv(View(), w, F);
      var front := waitForSend[0][STATUS_SIZE..];
      socket := socket.(writing := socket.writing - 1,
                        written := socket.written + if w.WriteError? then front[..w.partial] else front);
      if sessionClose {
        waitForSend := [];
      }
      if w.WriteError? {
        CloseSession();
        return;
      }
      if waitForSend == [] {
        poppedEmpty := true;
      } else {
        waitForSend := waitForSend[1..];
        if waitForSend != [] {
          SendTcpToTargetServerMessage();
        }
      }
    }

    /** Completion of async_connect. */
    method OnConnect(ok: bool, ghost F: nat)
      requires Valid(F) && socket.connecting > 0
      modifies this
      ensures View() == Spec.ConnectDone(old(View()), ok)
      ensures ok && !old(sessionClose) ==> (Valid(F) <==> !old(enableToSendToTargetServer))
      ensures !ok ==> Valid(F)
    {
      ghost var v := View();
      socket := socket.(connecting := socket.connecting - 1);
      if !ok {
        return;
      }
      Open();
      if !v.conn.closed {
        Spec.ConnectKeepsInv(v, F);
      }
    }

    method Open()
      modifies this
      ensures View() == Spec.Opened(old(View()))
    {
      enableToSendToTargetServer := true;
      currentCmdStatus := NORMAL;
      var isEmpty := waitForSend == [];
      ReceiveTcpFromTargetServerMessage();
      if !isEmpty {
        SendTcpToTargetServerMessage();
      }
    }

    /** A datagram for this session: `acked` segments acknowledged, messages `ms` completed. */
    method InputToKcp(acked: nat, ms: seq<Message>, ghost F: nat)
      requires Valid(F) && inlet != Overrun && acked <= kcp.backlog
      modifies this, kcp
      ensures View() == Spec.Input(old(View()), acked, ms) && Valid(F)
    {
      ghost var v := View();
      if sessionClose {
        return;
      }
      Feed(acked, ms);
      Spec.InputKeepsInv(v, acked, ms, F);
    }

    /** `inputToKcp` on an open session. */
    method Feed(acked: nat, ms: seq<Message>)
      requires Drained() && inlet != Overrun && !sessionClose && acked <= kcp.backlog
      modifies this, kcp
      ensures View() == Spec.Input(old(View()), acked, ms) && Drained()
    {
      ghost var v := View();
      kcp.Input(acked, ms);
      assert (inlet == Flowing ==> kcp.inbox == ms) && View() == v.(conn := Acknowledge(v.conn, acked));
      TryToReadFromKcp();
      ResumeReading();
    }

    method ResumeReading()
      modifies this`trafficBusy, this`socket
      ensures View() == old(View()).(conn := Resume(old(Conn())))
    {
      var waiting := kcp.WaitSnd();
      if trafficBusy && waiting < HIGH_WATER * 2 / 3 {
        trafficBusy := false;
        ReceiveTcpFromTargetServerMessage();
      }
    }

    /** The receive loop. At a message it cannot take the model stops: what the source does next
        depends on memory outside the message or outside its area. */
    method TryToReadFromKcp()
      requires inlet != Overrun && (inlet == Blocked ==> kcp.inbox != [] && kcp.inbox[0] == [])
      modifies this, kcp
      ensures View() == Spec.TakeAll(old(View()), old(kcp.inbox)) && Drained()
    {
      while true
        invariant inlet != Overrun && (inlet == Blocked ==> kcp.inbox != [] && kcp.inbox[0] == [])
        invariant Spec.TakeAll(View(), kcp.inbox) == Spec.TakeAll(old(View()), old(kcp.inbox))
        decreases |kcp.inbox|
      {
        var size := kcp.PeekSize();
        if size <= 0 {
          inlet := if kcp.inbox == [] then Flowing else Blocked;
          break;
        }
        if !Receivable(kcp.inbox[0], true) {
          inlet := Overrun;
          break;
        }
        TakeMessage();
      }
    }

    /** One turn of the loop, at a message it can take. */
    method TakeMessage()
      requires kcp.inbox != [] && Receivable(kcp.inbox[0], true)
      modifies this, kcp
      ensures View() == Spec.Take(old(View()), old(kcp.inbox)[0])
      ensures kcp.inbox == old(kcp.inbox)[1..] && inlet == old(inlet)
    {
      var m := kcp.Recv();
      HandleMessage(m);
    }

    method HandleMessage(m: Message)
      requires Framed(m)
      modifies this
      ensures View() == Spec.Dispatch(old(View()), m) && inlet == old(inlet)
    {
      match Decode(m)
      case NewSession(ep) =>
        if currentCmdStatus == NEW_SESSION {
          HandShakeWithTargetServer(ep);
        }
      case Normal(_) => TrySendTcpToTargetServerMessage(m);
      case Ignored =>
    }

    method HandShakeWithTargetServer(ep: Endpoint)
      modifies this`socket, this`handshakes
      ensures socket == old(socket).(connecting := old(socket).connecting + 1)
      ensures handshakes == old(handshakes) + [ep]
    {
      socket := socket.(connecting := socket.connecting + 1);
      handshakes := handshakes + [ep];
    }
  }
}
