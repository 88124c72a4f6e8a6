/** What the wifi-side and the VPS-side session share: one TCP socket, one KCP connection,
    a read pump paused by KCP backlog, and a write queue with one write in flight.

    KCP is a contract: messages come out whole and in order, `ikcp_send` raises the backlog
    by 1..F segments, and only `ikcp_input` lowers it. Sockets are a contract too: an
    operation started is later completed once, with a result the environment chooses. */
module Relay {
  import opened Wire

  const HIGH_WATER := 128
  const LOW_WATER := HIGH_WATER * 2 / 3

  /** What has become of the receive loop. It stops for good at an empty message, whose size it takes
      for "nothing there"; and nothing can be said of it after a message it cannot take. */
  datatype Inlet = Flowing | Blocked | Overrun

  /** One end of the tunnel. The last six fields are history the source does not store. */
  datatype Conn = Conn(
    reading: nat,              // outstanding async_read_some calls
    busy: bool,                // trafficBusy_
    backlog: nat,              // ikcp_waitsnd
    queue: seq<Message>,       // tcpDataWaitForSendDeque_
    writing: nat,              // outstanding async_write calls
    closed: bool,              // sessionClose_
    dry: bool,                 // some read completed without error and without bytes
    read: seq<byte>,           // bytes read from the TCP socket
    written: seq<byte>,        // bytes written to the TCP socket
    sent: seq<Message>,        // messages handed to ikcp_send
    received: seq<Message>,    // messages taken from ikcp_recv
    inlet: Inlet)

  datatype ReadResult = ReadError | ReadBytes(data: seq<byte>)
  datatype WriteResult = WriteError(partial: nat) | WriteOk

  // ---------- the read pump ----------

  function CheckTraffic(c: Conn): Conn {
    if c.backlog >= HIGH_WATER then c.(busy := true) else c.(reading := c.reading + 1)
  }

  function Send(c: Conn, m: Message, segs: nat): Conn {
    c.(sent := c.sent + [m], backlog := c.backlog + segs)
  }

  function ReadDone(c: Conn, r: ReadResult, segs: nat): Conn
    requires c.reading > 0
  {
    var d := c.(reading := c.reading - 1);
    match r
    case ReadError => d.(closed := true)
    case ReadBytes(data) =>
      if data == [] then d.(dry := true)
      else CheckTraffic(Send(d.(read := c.read + data), EncodeNormal(data), segs))
  }

  /** The acknowledgement half of `inputToKcp`, before messages are taken out. */
  function Acknowledge(c: Conn, acked: nat): Conn
    requires acked <= c.backlog
  {
    c.(backlog := c.backlog - acked)
  }

  /** The flow-control half of `inputToKcp`, after messages were taken out. */
  function Resume(c: Conn): Conn {
    if c.busy && c.backlog < LOW_WATER then c.(busy := false, reading := c.reading + 1) else c
  }

  /** Everything the read pump maintains. `active`: the first read has been started. */
  predicate PumpInv(c: Conn, F: nat, active: bool) {
    && c.reading <= 1
    && (c.reading == 1 ==> !c.busy && !c.dry && c.backlog < HIGH_WATER)
    && (c.busy ==> !c.dry && LOW_WATER <= c.backlog)
    && c.backlog < HIGH_WATER + F
    && (!active ==> c.reading == 0 && !c.busy && !c.dry && !c.closed && c.backlog < HIGH_WATER)
    && (active && !c.closed ==> c.reading == 1 || c.busy || c.dry)
  }

  /** No lost wakeup, exactly: on an open session one of "read outstanding" and "paused" holds,
      unless a read ever completed without error and without bytes; and there is never a second
      read on the shared buffer, nor a pause without the backlog to justify it. */
  lemma NoLostWakeup(c: Conn, F: nat)
    requires PumpInv(c, F, true) && !c.closed
    ensures ((c.reading == 1) != c.busy) <==> !c.dry
    ensures c.reading <= 1 && !(c.reading == 1 && c.busy)
    ensures c.busy ==> 85 <= c.backlog <= 127 + F
  {
    assert LOW_WATER == 85;
  }

  /** When a read pauses: a read that brings bytes goes on reading below a backlog of 128 segments,
      those just sent included, and pauses from 128 on. Nothing else moves. */
  lemma PausesExactly(c: Conn, data: seq<byte>, segs: nat)
    requires c.reading > 0 && !c.busy && data != []
    ensures var d := ReadDone(c, ReadBytes(data), segs);
      && (d.busy <==> c.backlog + segs >= 128)
      && d.reading == (if c.backlog + segs >= 128 then c.reading - 1 else c.reading)
      && d.backlog == c.backlog + segs
      && d.read == c.read + data && d.sent == c.sent + [EncodeNormal(data)] && d.closed == c.closed
  {
  }

  /** When an acknowledgement resumes: a paused connection stays paused as long as 85 segments remain,
      and reads again below. */
  lemma ResumesExactly(c: Conn, acked: nat)
    requires acked <= c.backlog
    ensures var d := Resume(Acknowledge(c, acked));
      && d.backlog + acked == c.backlog
      && (d.busy <==> c.busy && d.backlog >= 85)
      && d.reading - c.reading == (if c.busy && d.backlog < 85 then 1 else 0)
  {
    assert LOW_WATER == 85;
  }

  lemma ReadDoneKeepsPump(c: Conn, r: ReadResult, segs: nat, F: nat)
    requires PumpInv(c, F, true) && c.reading > 0 && 1 <= segs <= F
    ensures PumpInv(ReadDone(c, r, segs), F, true)
  {
  }

  lemma InputKeepsPump(c: Conn, acked: nat, F: nat, active: bool)
    requires PumpInv(c, F, active) && !c.closed && acked <= c.backlog
    ensures PumpInv(Resume(Acknowledge(c, acked)), F, active)
  {
  }

  // ---------- the receive loop ----------

  /** The messages it takes, of those that arrive: all before the first that stops it. */
  function Taken(ms: seq<Message>, handshake: bool): seq<Message> {
    if ms == [] || !Receivable(ms[0], handshake) then [] else [ms[0]] + Taken(ms[1..], handshake)
  }

  function StateAfter(ms: seq<Message>, handshake: bool): Inlet {
    if ms == [] then Flowing
    else if Receivable(ms[0], handshake) then StateAfter(ms[1..], handshake)
    else Stopped(ms[0])
  }

  /** How a message that cannot be taken stops the loop. */
  function Stopped(m: Message): Inlet {
    if m == [] then Blocked else Overrun
  }

  /** The loop's effect on what was received, one message at a time. */
  function First(m: Message, handshake: bool): seq<Message> {
    if Receivable(m, handshake) then [m] else []
  }

  lemma TakenCons(received: seq<Message>, ms: seq<Message>, handshake: bool)
    requires ms != []
    ensures var after := received + First(ms[0], handshake);
      received + Taken(ms, handshake) ==
      if Receivable(ms[0], handshake) then after + Taken(ms[1..], handshake) else after
  {
    if Receivable(ms[0], handshake) {
      Append(received, [ms[0]], Taken(ms[1..], handshake));
    }
  }

  lemma AdmittedCons(c: Conn, d: Conn, ms: seq<Message>, handshake: bool)
    requires c.inlet == Flowing && ms != []
    requires d.inlet == if Receivable(ms[0], handshake) then Flowing else Stopped(ms[0])
    ensures First(ms[0], handshake) + Admitted(d, ms[1..], handshake) == Admitted(c, ms, handshake)
  {
  }

  /** What is queued after a message and after the rest is what is queued after all of them. */
  lemma QueuedBoth(c: Conn, d: Conn, ms: seq<Message>, handshake: bool, queue: seq<Message>)
    requires c.inlet == Flowing && ms != []
    requires d.inlet == if Receivable(ms[0], handshake) then Flowing else Stopped(ms[0])
    requires d.queue == c.queue + Normals(First(ms[0], handshake))
    requires queue == d.queue + Normals(Admitted(d, ms[1..], handshake))
    ensures queue == c.queue + Normals(Admitted(c, ms, handshake))
  {
    AdmittedCons(c, d, ms, handshake);
    NormalsConcat(First(ms[0], handshake), Admitted(d, ms[1..], handshake));
    Append(c.queue, Normals(First(ms[0], handshake)), Normals(Admitted(d, ms[1..], handshake)));
  }

  lemma NormalsOne(m: Message)
    ensures Normals([m]) == if IsNormal(m) then [m] else []
  {
    assert [m][1..] == [];
  }

  lemma Append(a: seq<Message>, b: seq<Message>, c: seq<Message>)
    ensures (a + b) + c == a + (b + c)
  {
  }

  /** Nothing stops it exactly when every message can be taken; then it takes them all. */
  lemma {:induction false} TakenExact(ms: seq<Message>, handshake: bool)
    ensures StateAfter(ms, handshake) == Flowing <==> forall i | 0 <= i < |ms| :: Receivable(ms[i], handshake)
    ensures StateAfter(ms, handshake) == Flowing <==> Taken(ms, handshake) == ms
    ensures Taken(ms, handshake) <= ms
    decreases |ms|
  {
    if ms == [] {
      assert Taken(ms, handshake) == [];
    } else {
      TakenExact(ms[1..], handshake);
      assert ms == [ms[0]] + ms[1..];
    }
  }

  /** What a connection takes of the messages that arrive, and how its loop is then. */
  function Admitted(c: Conn, ms: seq<Message>, handshake: bool): seq<Message> {
    if c.inlet == Flowing then Taken(ms, handshake) else []
  }

  function InletAfter(c: Conn, ms: seq<Message>, handshake: bool): Inlet {
    if c.inlet == Flowing then StateAfter(ms, handshake) else c.inlet
  }

  // ---------- the write queue ----------

  function Front(c: Conn): seq<byte>
    requires c.queue != []
  {
    Payload(c.queue[0])
  }

  /** Put a message on the write queue; `gate` is whether writing is allowed yet. */
  function Enqueue(c: Conn, m: Message, gate: bool): Conn {
    c.(queue := c.queue + [m], writing := if gate && c.queue == [] then c.writing + 1 else c.writing)
  }

  predicate AllNormal(ms: seq<Message>) {
    forall i | 0 <= i < |ms| :: IsNormal(ms[i])
  }

  /** Everything the write queue maintains: a write is in flight iff there is something to
      write, and bytes written plus bytes queued are exactly the bytes received. */
  predicate QueueInv(c: Conn, gate: bool) {
    && c.writing <= 1
    && (c.writing == 1 ==> c.queue != [] && gate)
    && (!gate ==> c.written == [] && !c.closed)
    && (gate && !c.closed && c.queue != [] ==> c.writing == 1)
    && AllNormal(c.queue)
    && (!c.closed || c.writing == 1 ==> c.written + Bytes(c.queue) == Bytes(c.received))
    && c.written <= Bytes(c.received)
  }

  lemma EnqueueKeepsQueue(c: Conn, m: Message, gate: bool)
    requires QueueInv(c, gate) && !c.closed && IsNormal(m)
    ensures QueueInv(Enqueue(c.(received := c.received + [m]), m, gate), gate)
  {
    BytesSnoc(c.received, m);
    BytesSnoc(c.queue, m);
    assert c.written + (Bytes(c.queue) + Payload(m)) == (c.written + Bytes(c.queue)) + Payload(m);
  }

  lemma SkipKeepsQueue(c: Conn, m: Message, gate: bool)
    requires QueueInv(c, gate) && !IsNormal(m)
    ensures QueueInv(c.(received := c.received + [m]), gate)
  {
    BytesSnoc(c.received, m);
  }

  /** The write queue depends on these fields only, and closing weakens it. */
  lemma QueueFrame(c: Conn, d: Conn)
    requires QueueInv(c, true) && (c.closed ==> d.closed)
    requires d.queue == c.queue && d.writing == c.writing && d.written == c.written && d.received == c.received
    ensures QueueInv(d, true)
  {
  }

  lemma ReadDoneFrame(c: Conn, r: ReadResult, segs: nat)
    requires c.reading > 0
    ensures var d := ReadDone(c, r, segs);
      && d.queue == c.queue && d.writing == c.writing && d.written == c.written && d.received == c.received
      && (c.closed ==> d.closed)
  {
  }

  lemma ReadDoneKeepsQueue(c: Conn, r: ReadResult, segs: nat)
    requires QueueInv(c, true) && c.reading > 0
    ensures QueueInv(ReadDone(c, r, segs), true)
  {
    ReadDoneFrame(c, r, segs);
    var d := ReadDone(c, r, segs);
    QueueFrame(c, d);
  }

  /** After `k` completed writes exactly the first `k` of the messages that carry bytes have been
      written, and the others are queued, in order. */
  predicate WroteFirst(c: Conn, k: nat) {
    var ms := Normals(c.received);
    k <= |ms| && c.written == Bytes(ms[..k]) && c.queue == ms[k..]
  }

  lemma WroteNext(c: Conn, k: nat)
    requires WroteFirst(c, k) && c.queue != []
    ensures WroteFirst(c.(written := c.written + Front(c), queue := c.queue[1..]), k + 1)
  {
    var ms := Normals(c.received);
    assert ms[..k + 1] == ms[..k] + [ms[k]];
    BytesSnoc(ms[..k], ms[k]);
  }

  lemma WroteMore(c: Conn, d: Conn, k: nat, more: seq<Message>)
    requires WroteFirst(c, k) && d.written == c.written
    requires d.received == c.received + more && d.queue == c.queue + Normals(more)
    ensures WroteFirst(d, k)
  {
    NormalsConcat(c.received, more);
    var ms := Normals(d.received);
    assert ms[..k] == Normals(c.received)[..k];
    assert ms[k..] == Normals(c.received)[k..] + Normals(more);
  }

  /** The first `n` bytes of the front message reach the socket. */
  lemma WriteProgress(c: Conn, n: nat)
    requires QueueInv(c, true) && c.writing == 1 && n <= |Front(c)|
    ensures c.written + Front(c)[..n] <= Bytes(c.received)
    ensures c.written + Front(c) + Bytes(c.queue[1..]) == Bytes(c.received)
  {
    assert c.written + Front(c) + Bytes(c.queue[1..]) == c.written + Bytes(c.queue);
    var rest := Bytes(c.queue[1..]);
    assert c.written + Front(c)[..n] + Front(c)[n..] + rest == c.written + Front(c) + rest;
  }
}
