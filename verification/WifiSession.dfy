/** The wifi side (server/session.cpp): what each handler does to a connection. */
module WifiSpec {
  import opened Wire
  import opened Relay

  /** The state `start` leaves behind: the endpoint announced, the first read outstanding. */
  function Started(ep: Endpoint, segs: nat): Conn {
    Conn(1, false, segs, [], 0, false, false, [], [], [EncodeNewSession(ep)], [], Flowing)
  }

  function Take(c: Conn, m: Message): Conn {
    if !Receivable(m, false) then c.(inlet := Stopped(m)) else Dispatch(c.(received := c.received + [m]), m)
  }

  function Dispatch(c: Conn, m: Message): Conn {
    if IsNormal(m) then Enqueue(c, m, true) else c
  }

  function TakeAll(c: Conn, ms: seq<Message>): Conn
    decreases |ms|
  {
    if ms == [] || c.inlet != Flowing then c else TakeAll(Take(c, ms[0]), ms[1..])
  }

  /** A datagram that acknowledges `acked` segments and completes the messages `ms`. */
  function Input(c: Conn, acked: nat, ms: seq<Message>): Conn
    requires acked <= c.backlog
  {
    if c.closed then c else Resume(TakeAll(Acknowledge(c, acked), ms))
  }

  predicate CanWrite(c: Conn, w: WriteResult) {
    c.writing > 0 && c.queue != [] && (w.WriteError? ==> w.partial <= |Front(c)|)
  }

  function WriteDone(c: Conn, w: WriteResult): Conn
    requires CanWrite(c, w)
  {
    var rest := if c.closed then [] else c.queue[1..];
    match w
    case WriteError(n) =>
      c.(written := c.written + Front(c)[..n], queue := rest, writing := c.writing - 1, closed := true)
    case WriteOk =>
      c.(written := c.written + Front(c), queue := rest, writing := if rest == [] then c.writing - 1 else c.writing)
  }

  predicate Inv(c: Conn, F: nat) {
    PumpInv(c, F, true) && QueueInv(c, true)
  }

  lemma StartedInv(ep: Endpoint, segs: nat, F: nat)
    requires segs <= F < HIGH_WATER
    ensures Inv(Started(ep, segs), F)
    ensures Started(ep, segs).sent == [EncodeNewSession(ep)] && Started(ep, segs).backlog == segs
    ensures Started(ep, segs).reading == 1 && !Started(ep, segs).closed
  {
  }

  /** What handling messages changes. */
  predicate Handled(c: Conn, d: Conn, more: seq<Message>, inlet: Inlet) {
    d == c.(queue := d.queue, writing := d.writing, received := c.received + more, inlet := inlet)
  }

  lemma TakeHandles(c: Conn, m: Message)
    requires c.inlet == Flowing
    ensures Handled(c, Take(c, m), First(m, false), if Receivable(m, false) then Flowing else Stopped(m))
  {
    assert c.received + [] == c.received;
  }

  lemma TakeKeepsQueue(c: Conn, m: Message)
    requires QueueInv(c, true) && !c.closed
    ensures QueueInv(Take(c, m), true)
  {
    if Receivable(m, false) {
      if IsNormal(m) {
        EnqueueKeepsQueue(c, m, true);
      } else {
        SkipKeepsQueue(c, m, true);
      }
    }
  }

  /** The receive loop touches nothing but the write queue, and takes exactly the messages before the
      first it cannot take. */
  lemma {:induction false} TakeAllHandles(c: Conn, ms: seq<Message>)
    ensures Handled(c, TakeAll(c, ms), Admitted(c, ms, false), InletAfter(c, ms, false))
    decreases |ms|
  {
    if ms == [] || c.inlet != Flowing {
      assert c.received + Admitted(c, ms, false) == c.received;
    } else {
      var d := Take(c, ms[0]);
      TakeHandles(c, ms[0]);
      TakeAllHandles(d, ms[1..]);
      TakenCons(c.received, ms, false);
      assert d.received + [] == d.received;
    }
  }

  /** It loses none of those it takes. */
  lemma {:induction false} TakeAllKeepsQueue(c: Conn, ms: seq<Message>)
    requires QueueInv(c, true) && !c.closed
    ensures QueueInv(TakeAll(c, ms), true)
    ensures Handled(c, TakeAll(c, ms), Admitted(c, ms, false), InletAfter(c, ms, false))
    decreases |ms|
  {
    TakeAllHandles(c, ms);
    if ms == [] || c.inlet != Flowing {
    } else {
      TakeHandles(c, ms[0]);
      TakeKeepsQueue(c, ms[0]);
      TakeAllKeepsQueue(Take(c, ms[0]), ms[1..]);
    }
  }

  lemma InputKeepsInv(c: Conn, acked: nat, ms: seq<Message>, F: nat)
    requires Inv(c, F) && acked <= c.backlog
    ensures var d := Input(c, acked, ms);
      && Inv(d, F)
      && d.received == (if c.closed then c.received else c.received + Admitted(c, ms, false))
      && d.inlet == (if c.closed then c.inlet else InletAfter(c, ms, false))
      && d.sent == c.sent && d.read == c.read && d.dry == c.dry
      && (c.closed ==> d == c)
      && (!c.closed ==>
            && d.backlog + acked == c.backlog && (d.busy <==> c.busy && d.backlog >= 85)
            && d.reading - c.reading == (if c.busy && d.backlog < 85 then 1 else 0))
  {
    if !c.closed {
      TakeAllKeepsQueue(Acknowledge(c, acked), ms);
      InputKeepsPump(c, acked, F, true);
      ResumesExactly(c, acked);
    }
  }

  lemma TakeQueues(c: Conn, m: Message)
    requires c.inlet == Flowing
    ensures Take(c, m).queue == c.queue + Normals(First(m, false))
    ensures Take(c, m).inlet == if Receivable(m, false) then Flowing else Stopped(m)
  {
    NormalsOne(m);
    assert c.queue + [] == c.queue;
  }

  /** What the loop queues is exactly what it takes that carries bytes. */
  lemma {:induction false} TakeAllQueues(c: Conn, ms: seq<Message>)
    ensures TakeAll(c, ms).queue == c.queue + Normals(Admitted(c, ms, false))
    decreases |ms|
  {
    if ms == [] || c.inlet != Flowing {
      assert c.queue + [] == c.queue;
    } else {
      var d := Take(c, ms[0]);
      TakeQueues(c, ms[0]);
      TakeAllQueues(d, ms[1..]);
      QueuedBoth(c, d, ms, false, TakeAll(d, ms[1..]).queue);
    }
  }

  lemma ReadDoneKeepsInv(c: Conn, r: ReadResult, segs: nat, F: nat)
    requires Inv(c, F) && c.reading > 0 && 1 <= segs <= F
    ensures Inv(ReadDone(c, r, segs), F)
  {
    ReadDoneKeepsPump(c, r, segs, F);
    ReadDoneKeepsQueue(c, r, segs);
  }

  lemma WriteDoneKeepsInv(c: Conn, w: WriteResult, F: nat)
    requires Inv(c, F) && CanWrite(c, w)
    ensures Inv(WriteDone(c, w), F)
    ensures c.closed ==> WriteDone(c, w).writing == 0 && WriteDone(c, w).queue == []
    ensures w.WriteError? ==>
              var d := WriteDone(c, w);
              && d.closed && d.writing == 0
              && d.written == c.written + Front(c)[..w.partial] && |d.queue| == if c.closed then 0 else |c.queue| - 1
    ensures w.WriteOk? ==> WriteDone(c, w).closed == c.closed && WriteDone(c, w).written == c.written + Front(c)
  {
    WriteProgress(c, if w.WriteError? then w.partial else |Front(c)|);
  }
}

/** The wifi-side session as the object the handlers update. */
module WifiSessions {
  import opened Wire
  import opened Relay
  import opened KcpContract
  import Spec = WifiSpec

  class Session {
    const kcp: Kcp
    var trafficBusy: bool
    var sessionClose: bool
    var currentCmdStatus: u32
    var waitForSend: seq<Message>     // tcpDataWaitForSendDeque_
    var socket: Socket
    ghost var inlet: Inlet            // what has become of the receive loop

    /** The connection this object stands for. */
    ghost function View(): Conn
      reads this, kcp
    {
      Conn(socket.reading, trafficBusy, kcp.backlog, waitForSend, socket.writing, sessionClose,
           socket.dry, socket.read, socket.written, kcp.sent, kcp.received, inlet)
    }

    ghost predicate Valid(F: nat)
      reads this, kcp
    {
      Spec.Inv(View(), F) && Drained()
    }

    /** KCP holds no message, unless the receive loop was stopped by the first one it holds. */
    ghost predicate Drained()
      reads this, kcp
    {
      && (inlet == Flowing ==> kcp.inbox == [])
      && (inlet == Blocked ==> kcp.inbox != [] && kcp.inbox[0] == [])
    }

    constructor (kcp: Kcp)
      requires kcp.Idle()
      ensures this.kcp == kcp && !trafficBusy && !sessionClose && currentCmdStatus == NEW_SESSION
      ensures waitForSend == [] && socket == UNUSED_SOCKET && inlet == Flowing
    {
      this.kcp := kcp;
      trafficBusy, sessionClose, currentCmdStatus := false, false, NEW_SESSION;
      waitForSend, socket, inlet := [], UNUSED_SOCKET, Flowing;
    }

    /** The tail of `start`: announce the endpoint, then start reading. */
    method SendIpAndPortToServer(ep: Endpoint, segs: nat, ghost F: nat)
      requires segs <= F < HIGH_WATER
      requires kcp.Idle() && !trafficBusy && !sessionClose && waitForSend == [] && socket == UNUSED_SOCKET
      requires inlet == Flowing
      modifies this, kcp
      ensures View() == Spec.Started(ep, segs) && Valid(F) && currentCmdStatus == NORMAL
      ensures kcp.sent == [EncodeNewSession(ep)] && kcp.backlog == segs && socket.reading == 1 && !trafficBusy
    {
      kcp.Send(EncodeNewSession(ep), segs);
      currentCmdStatus := NORMAL;
      ReceiveTcpFromWifiClientMessage();
      Spec.StartedInv(ep, segs, F);
    }

    method ReceiveTcpFromWifiClientMessage()
      modifies this`socket
      ensures socket == old(socket).(reading := old(socket).reading + 1)
    {
      socket := socket.(reading := socket.reading + 1);
    }

    method CloseSession()
      modifies this`sessionClose
      ensures sessionClose
    {
      if !sessionClose {
        sessionClose := true;
      }
    }

    method CheckTrafficStatus()
      modifies this
      ensures View() == CheckTraffic(old(View())) && unchanged(`currentCmdStatus)
    {
      var waiting := kcp.WaitSnd();
      if waiting >= HIGH_WATER {
        trafficBusy := true;
      } else {
        ReceiveTcpFromWifiClientMessage();
      }
    }

    /** Completion of async_read_some. */
    method OnRead(r: ReadResult, segs: nat, ghost F: nat)
      requires Valid(F) && socket.reading > 0 && 1 <= segs <= F
      modifies this, kcp
      ensures View() == ReadDone(old(View()), r, segs) && Valid(F)
    {
      Spec.ReadDoneKeepsInv(View(), r, segs, F);
      socket := socket.(reading := socket.reading - 1);
      if r.ReadError? {
        CloseSession();
        return;
      }
      if |r.data| == 0 {
        socket := socket.(dry := true);
        return;
      }
      socket := socket.(read := socket.read + r.data);
      kcp.Send(EncodeNormal(r.data), segs);
      CheckTrafficStatus();
    }

    method TrySendTcpToWifiClientMessage(m: Message)
      requires IsNormal(m)
      modifies this`waitForSend, this`socket
      ensures View() == Enqueue(old(View()), m, true)
    {
      var isEmpty := waitForSend == [];
      waitForSend := waitForSend + [m];
      if isEmpty {
        SendTcpToWifiClientMessage();
      }
    }

    /** Start writing the front message. */
    method SendTcpToWifiClientMessage()
      requires waitForSend != []
      modifies this`socket
      ensures socket == old(socket).(writing := old(socket).writing + 1)
    {
      socket := socket.(writing := socket.writing + 1);
    }

    /** Completion of async_write. */
    method OnWrite(w: WriteResult, ghost F: nat)
      requires Valid(F) && socket.writing > 0
      requires w.WriteError? ==> w.partial <= |Front(View())|
      modifies this
      ensures View() == Spec.WriteDone(old(View()), w) && Valid(F)
    {
      Spec.WriteDoneKeepsInv(View(), w, F);
      var front := waitForSend[0][STATUS_SIZE..];
      socket := socket.(writing := socket.writing - 1,
                        written := socket.written + if w.WriteError? then front[..w.partial] else front);
      waitForSend := waitForSend[1..];
      if sessionClose {
        waitForSend := [];
      }
      if w.WriteError? {
        CloseSession();
        return;
      }
      if waitForSend != [] {
        SendTcpToWifiClientMessage();
      }
    }

    /** A datagram for this session: `acked` segments acknowledged, messages `ms` completed. */
    method InputToKcp(acked: nat, ms: seq<Message>, ghost F: nat)
      requires Valid(F) && inlet != Overrun && acked <= kcp.backlog
      modifies this, kcp
      ensures View() == Spec.Input(old(View()), acked, ms) && Valid(F)
    {
      ghost var c := View();
      if sessionClose {
        return;
      }
      Feed(acked, ms);
      Spec.InputKeepsInv(c, acked, ms, F);
    }

    /** `inputToKcp` on an open session. */
    method Feed(acked: nat, ms: seq<Message>)
      requires Drained() && inlet != Overrun && !sessionClose && acked <= kcp.backlog
      modifies this, kcp
      ensures View() == Spec.Input(old(View()), acked, ms) && Drained()
    {
      kcp.Input(acked, ms);
      assert inlet == Flowing ==> kcp.inbox == ms;
      TryToReadFromKcp();
      ResumeReading();
    }

    method ResumeReading()
      modifies this`trafficBusy, this`socket
      ensures View() == Resume(old(View()))
    {
      var waiting := kcp.WaitSnd();
      if trafficBusy && waiting < HIGH_WATER * 2 / 3 {
        trafficBusy := false;
        ReceiveTcpFromWifiClientMessage();
      }
    }

    /** The receive loop. At a message it cannot take the model stops: what the source does next
        depends on memory outside the message or outside its area. */
    method TryToReadFromKcp()
      requires inlet != Overrun && (inlet == Blocked ==> kcp.inbox != [] && kcp.inbox[0] == [])
      modifies this, kcp
      ensures View() == Spec.TakeAll(old(View()), old(kcp.inbox)) && Drained()
    {
      while true
        invariant inlet != Overrun && (inlet == Blocked ==> kcp.inbox != [] && kcp.inbox[0] == [])
        invariant Spec.TakeAll(View(), kcp.inbox) == Spec.TakeAll(old(View()), old(kcp.inbox))
        decreases |kcp.inbox|
      {
        var size := kcp.PeekSize();
        if size <= 0 {
          inlet := if kcp.inbox == [] then Flowing else Blocked;
          break;
        }
        if !Receivable(kcp.inbox[0], false) {
          inlet := Overrun;
          break;
        }
        var m := kcp.Recv();
        if Status(m) == NORMAL {
          TrySendTcpToWifiClientMessage(m);
        }
      }
    }
  }
}
