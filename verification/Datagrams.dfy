/** Routing over whole runs of what the sockets deliver: which datagrams get a session, and which
    data reach it. */
module Datagrams {
  import opened Wire
  import opened Packet
  import opened Demux

  /** What happens to a worker: `n` bytes are in its receive buffer, or something else. */
  datatype Raw = Received(buffer: seq<byte>, n: nat) | Other(e: Event)

  predicate Sized(r: Raw) {
    match r
    case Received(buffer, n) => OVERHEAD <= |buffer| && n <= |buffer|
    case Other(e) => !e.Datagram?
  }

  /** What the workers make of it, before looking at the tag; the VPS side ignores empty datagrams. */
  function AsEvents(c: Aead, r: Raw, vps: bool): seq<Event>
    requires Lawful(c) && Sized(r)
  {
    match r
    case Received(buffer, n) =>
      if vps && n == 0 then [] else [Datagram(Sender(c, buffer, n), Content(c, buffer, n))]
    case Other(e) => [e]
  }

  ghost function Events(c: Aead, rs: seq<Raw>, vps: bool): seq<Event>
    requires Lawful(c) && forall i | 0 <= i < |rs| :: Sized(rs[i])
  {
    if rs == [] then [] else AsEvents(c, rs[0], vps) + Events(c, rs[1..], vps)
  }

  /** A datagram that names `id` as its session, whatever its tag says. */
  ghost predicate Names(c: Aead, r: Raw, id: SessionId, vps: bool)
    requires Lawful(c) && Sized(r)
  {
    r.Received? && (vps ==> r.n > 0) && Sender(c, r.buffer, r.n) == id
  }

  /** An authentic datagram that carries `data` for `id`. */
  ghost predicate Carries(c: Aead, r: Raw, id: SessionId, data: seq<byte>)
    requires Lawful(c) && Sized(r)
  {
    && r.Received? && Authentic(c, r.buffer[..r.n])
    && Sender(c, r.buffer, r.n) == id && Content(c, r.buffer, r.n) == Segment(data)
  }

  lemma {:induction false} EventFrom(c: Aead, rs: seq<Raw>, vps: bool, e: Event) returns (i: nat)
    requires Lawful(c) && (forall k | 0 <= k < |rs| :: Sized(rs[k])) && e in Events(c, rs, vps)
    ensures i < |rs| && e in AsEvents(c, rs[i], vps)
  {
    if e in AsEvents(c, rs[0], vps) {
      i := 0;
    } else {
      assert Events(c, rs, vps) == AsEvents(c, rs[0], vps) + Events(c, rs[1..], vps);
      i := EventFrom(c, rs[1..], vps, e);
      i := i + 1;
    }
  }

  lemma {:induction false} EventOf(c: Aead, rs: seq<Raw>, vps: bool, i: nat, e: Event)
    requires Lawful(c) && (forall k | 0 <= k < |rs| :: Sized(rs[k])) && i < |rs| && e in AsEvents(c, rs[i], vps)
    ensures e in Events(c, rs, vps)
  {
    if i == 0 {
    } else {
      EventOf(c, rs[1..], vps, i - 1, e);
    }
  }

  lemma NamesOpens(c: Aead, r: Raw, id: SessionId)
    requires Lawful(c) && Sized(r)
    ensures Names(c, r, id, true) ==>
              AsEvents(c, r, true) != [] && Opens(AsEvents(c, r, true)[0], id, true)
    ensures forall e | e in AsEvents(c, r, true) && Opens(e, id, true) :: Names(c, r, id, true)
  {
  }

  lemma {:induction false} CarryingFrom(es: seq<Event>, id: SessionId, x: Input)
    requires x in Carrying(es, id)
    ensures Datagram(id, x) in es
  {
    if es == [] {
      assert false;
    } else if es[0] != Datagram(id, x) {
      CarryingFrom(es[1..], id, x);
    }
  }

  lemma {:induction false} SinceOpenedFrom(es: seq<Event>, id: SessionId, vps: bool)
    ensures forall e | e in SinceOpened(es, id, vps) :: e in es
  {
    if es == [] || Opens(es[0], id, vps) {
    } else {
      SinceOpenedFrom(es[1..], id, vps);
    }
  }

  lemma NamedIffOpened(c: Aead, rs: seq<Raw>, id: SessionId)
    requires Lawful(c) && forall i | 0 <= i < |rs| :: Sized(rs[i])
    ensures (exists i | 0 <= i < |rs| :: Names(c, rs[i], id, true)) <==> Opened(Events(c, rs, true), id, true)
  {
    var es := Events(c, rs, true);
    if i :| 0 <= i < |rs| && Names(c, rs[i], id, true) {
      NamesOpens(c, rs[i], id);
      var e := AsEvents(c, rs[i], true)[0];
      EventOf(c, rs, true, i, e);
      var k :| 0 <= k < |es| && es[k] == e;
    }
    if k :| 0 <= k < |es| && Opens(es[k], id, true) {
      var i := EventFrom(c, rs, true, es[k]);
      NamesOpens(c, rs[i], id);
    }
  }

  /** The ids that get a session on the VPS side are exactly those named by some datagram, authentic
      or not. */
  lemma SessionsFromNames(c: Aead, rs: seq<Raw>, id: SessionId)
    requires Lawful(c) && forall i | 0 <= i < |rs| :: Sized(rs[i])
    requires Legal(NO_SESSIONS, Events(c, rs, true), true)
    ensures id in Run(NO_SESSIONS, Events(c, rs, true), true).sessions <==>
              exists i | 0 <= i < |rs| :: Names(c, rs[i], id, true)
  {
    NewReceives(NO_SESSIONS, Events(c, rs, true), id, true);
    NamedIffOpened(c, rs, id);
  }

  lemma SegmentSource(c: Aead, rs: seq<Raw>, id: SessionId, data: seq<byte>, vps: bool)
    requires Lawful(c) && forall i | 0 <= i < |rs| :: Sized(rs[i])
    requires Datagram(id, Segment(data)) in Events(c, rs, vps)
    ensures exists i | 0 <= i < |rs| :: Carries(c, rs[i], id, data)
  {
    var i := EventFrom(c, rs, vps, Datagram(id, Segment(data)));
    assert Carries(c, rs[i], id, data);
  }

  /** On either side, every segment a session is given came in an authentic datagram for its id. */
  lemma SegmentsAuthentic(c: Aead, rs: seq<Raw>, id: SessionId, data: seq<byte>, vps: bool)
    requires Lawful(c) && forall i | 0 <= i < |rs| :: Sized(rs[i])
    requires Legal(NO_SESSIONS, Events(c, rs, vps), vps)
    ensures var t := Run(NO_SESSIONS, Events(c, rs, vps), vps);
      id in t.sessions && Segment(data) in t.sessions[id].inputs ==>
        exists i | 0 <= i < |rs| :: Carries(c, rs[i], id, data)
  {
    var es := Events(c, rs, vps);
    NewReceives(NO_SESSIONS, es, id, vps);
    if id in Run(NO_SESSIONS, es, vps).sessions && Segment(data) in Run(NO_SESSIONS, es, vps).sessions[id].inputs {
      CarryingFrom(SinceOpened(es, id, vps), id, Segment(data));
      SinceOpenedFrom(es, id, vps);
      SegmentSource(c, rs, id, data, vps);
    }
  }

  /** A datagram that fails decryption gets a session all the same, whose KCP is given a size of -17. */
  lemma RejectedGetsSession(c: Aead, buffer: seq<byte>, n: nat)
    requires Lawful(c) && OVERHEAD <= |buffer| && n <= |buffer| && !Authentic(c, buffer[..n])
    ensures var id := Sender(c, buffer, n);
      var t := Next(NO_SESSIONS, Datagram(id, Content(c, buffer, n)), true);
      id in t.sessions && t.sessions[id] == Record(false, [Junk(-17)])
  {
  }

  // ---------- honest senders ----------

  /** A segment framed for a session. */
  datatype Framing = Framing(id: SessionId, segment: seq<byte>, key: seq<byte>, iv: seq<byte>)

  /** The buffer holds the packet made of `f`. */
  ghost predicate Holds(c: Aead, r: Raw, f: Framing) {
    && |f.key| == KEY_SIZE && |f.iv| == IV_SIZE
    && r.Received? && Sized(r) && r.buffer[..r.n] == Frame(c, f.key, f.iv, f.id, f.segment)
  }

  /** The segments framed for `id`, in order. */
  function SegmentsFor(fs: seq<Framing>, id: SessionId): seq<Input> {
    if fs == [] then []
    else (if fs[0].id == id then [Segment(fs[0].segment)] else []) + SegmentsFor(fs[1..], id)
  }

  lemma {:induction false} CarryingFrames(c: Aead, rs: seq<Raw>, fs: seq<Framing>, id: SessionId)
    requires Lawful(c) && |rs| == |fs| && forall i | 0 <= i < |rs| :: Sized(rs[i])
    requires forall i | 0 <= i < |rs| :: Holds(c, rs[i], fs[i])
    ensures Carrying(Events(c, rs, true), id) == SegmentsFor(fs, id)
    decreases |rs|
  {
    if rs == [] {
      assert Events(c, rs, true) == [];
    } else {
      var f, es := fs[0], Events(c, rs[1..], true);
      assert Holds(c, rs[0], f);
      FrameArrives(c, f.key, f.iv, f.id, f.segment, rs[0].buffer, rs[0].n);
      OpenSeal(c, f.key, f.iv, f.id + f.segment);
      assert Events(c, rs, true)[0] == Datagram(f.id, Segment(f.segment)) && Events(c, rs, true)[1..] == es;
      CarryingFrames(c, rs[1..], fs[1..], id);
    }
  }

  /** When all that arrives are framed segments, each session is given exactly the segments framed
      for it, in order. */
  lemma SegmentsReachTheirSession(c: Aead, rs: seq<Raw>, fs: seq<Framing>, id: SessionId)
    requires Lawful(c) && |rs| == |fs| && forall i | 0 <= i < |rs| :: Sized(rs[i])
    requires forall i | 0 <= i < |rs| :: Holds(c, rs[i], fs[i])
    requires Legal(NO_SESSIONS, Events(c, rs, true), true)
    ensures var t := Run(NO_SESSIONS, Events(c, rs, true), true);
      id in t.sessions ==> t.sessions[id].inputs == SegmentsFor(fs, id)
  {
    VpsRoutes(Events(c, rs, true), id);
    CarryingFrames(c, rs, fs, id);
  }
}
