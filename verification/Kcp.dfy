/** The contracts of what the sessions are built on: a KCP control block and a TCP socket. */
module KcpContract {
  import opened Wire

  /** A TCP socket as a session sees it. */
  datatype Socket = Socket(
    reading: nat,        // outstanding async_read_some calls
    writing: nat,        // outstanding async_write calls
    connecting: nat,     // outstanding async_connect calls
    dry: bool,           // a read completed without error and without bytes
    read: seq<byte>,     // bytes read so far
    written: seq<byte>)  // bytes written so far

  const UNUSED_SOCKET := Socket(0, 0, 0, false, [], [])

  /** KCP delivers whole messages in order. The backlog counts segments sent and not yet
      acknowledged: `Send` raises it, `Input` lowers it, nothing else touches it. */
  class Kcp {
    var backlog: nat
    var inbox: seq<Message>
    var sent: seq<Message>
    var received: seq<Message>

    ghost predicate Idle()
      reads this
    {
      backlog == 0 && inbox == [] && sent == [] && received == []
    }

    constructor ()
      ensures Idle()
    {
      backlog, inbox, sent, received := 0, [], [], [];
    }

    method Send(m: Message, segs: nat)
      modifies this
      ensures sent == old(sent) + [m] && backlog == old(backlog) + segs
      ensures unchanged(`inbox, `received)
    {
      sent, backlog := sent + [m], backlog + segs;
    }

    method Input(acked: nat, arrived: seq<Message>)
      requires acked <= backlog
      modifies this
      ensures backlog == old(backlog) - acked && inbox == old(inbox) + arrived
      ensures unchanged(`sent, `received)
    {
      backlog, inbox := backlog - acked, inbox + arrived;
    }

    method WaitSnd() returns (n: nat)
      ensures n == backlog
    {
      n := backlog;
    }

    /** The size of the next complete message, or -1. */
    method PeekSize() returns (size: int)
      ensures size == if inbox == [] then -1 else |inbox[0]|
    {
      size := if inbox == [] then -1 else |inbox[0]|;
    }

    method Recv() returns (m: Message)
      requires inbox != []
      modifies this
      ensures m == old(inbox)[0] && inbox == old(inbox)[1..] && received == old(received) + [m]
      ensures unchanged(`sent, `backlog)
    {
      m := inbox[0];
      inbox, received := inbox[1..], received + [m];
    }
  }
}
