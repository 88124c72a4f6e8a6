/** The bounded UDP send queue a worker's sessions share (both worker.cpp files have it). */
module UdpSpec {
  const LIMIT := 2048

  /** The queue, with the packets offered, accepted and taken off again as history. */
  datatype Udp<!P> = Udp(
    queue: seq<P>,       // udpSocketWaitForSendDeque_
    sending: nat,        // outstanding async_send calls
    offered: seq<P>,
    accepted: seq<P>,
    done: seq<P>,        // packets whose send completed, with or without error
    stalled: bool)       // a send failed with more packets waiting

  datatype Event<!P> = Offer(p: P) | SendDone(ok: bool)

  function Empty<P>(): Udp<P> {
    Udp([], 0, [], [], [], false)
  }

  predicate Enabled<P(==)>(u: Udp<P>, e: Event<P>) {
    e.SendDone? ==> u.sending > 0 && u.queue != []
  }

  function Next<P(==)>(u: Udp<P>, e: Event<P>): Udp<P>
    requires Enabled(u, e)
  {
    match e
    case Offer(p) =>
      var v := u.(offered := u.offered + [p]);
      if |u.queue| > LIMIT then v
      else v.(queue := u.queue + [p], accepted := u.accepted + [p],
              sending := if u.queue == [] then u.sending + 1 else u.sending)
    case SendDone(ok) =>
      var v := u.(queue := u.queue[1..], done := u.done + [u.queue[0]]);
      if ok && v.queue != [] then v else v.(sending := u.sending - 1, stalled := u.stalled || v.queue != [])
  }

  predicate IsSubsequence<P(==)>(xs: seq<P>, ys: seq<P>) {
    xs == [] || (ys != [] && if xs[|xs| - 1] == ys[|ys| - 1] then IsSubsequence(xs[..|xs| - 1], ys[..|ys| - 1])
                             else IsSubsequence(xs, ys[..|ys| - 1]))
  }

  /** A send is in flight iff something is queued, unless the queue has stalled. */
  predicate Inv<P(==)>(u: Udp<P>) {
    && |u.queue| <= LIMIT + 1
    && u.done + u.queue == u.accepted
    && u.sending <= 1
    && (u.sending == 1 <==> u.queue != [] && !u.stalled)
    && (u.stalled ==> u.queue != [])
  }

  lemma NextKeepsInv<P>(u: Udp<P>, e: Event<P>)
    requires Inv(u) && Enabled(u, e)
    ensures Inv(Next(u, e))
    ensures Next(u, e).stalled <==> u.stalled || (e == SendDone(false) && |u.queue| >= 2)
    ensures u.stalled ==> Next(u, e).done == u.done
    ensures e.Offer? ==> (Next(u, e).accepted == u.accepted + [e.p] <==> |u.queue| <= 2048)
  {
    match e
    case Offer(p) =>
      assert u.done + (u.queue + [p]) == u.accepted + [p];
    case SendDone(ok) =>
      assert u.queue == [u.queue[0]] + u.queue[1..];
      assert (u.done + [u.queue[0]]) + u.queue[1..] == u.accepted;
  }

  predicate Legal<P(==)>(u: Udp<P>, es: seq<Event<P>>)
    decreases |es|
  {
    es == [] || (Enabled(u, es[0]) && Legal(Next(u, es[0]), es[1..]))
  }

  function Run<P(==)>(u: Udp<P>, es: seq<Event<P>>): Udp<P>
    requires Legal(u, es)
    decreases |es|
  {
    if es == [] then u else Run(Next(u, es[0]), es[1..])
  }

  /** Some send of the run fails while another packet is waiting. */
  predicate FailsWithMore<P(==)>(u: Udp<P>, es: seq<Event<P>>)
    requires Legal(u, es)
    decreases |es|
  {
    es != [] && ((es[0] == SendDone(false) && |u.queue| >= 2) || FailsWithMore(Next(u, es[0]), es[1..]))
  }

  lemma {:induction false} NoFailure<P>(u: Udp<P>, es: seq<Event<P>>)
    requires Legal(u, es) && forall i | 0 <= i < |es| :: es[i] != SendDone(false)
    ensures !FailsWithMore(u, es)
    decreases |es|
  {
    if es == [] {
      assert !FailsWithMore(u, es);
    } else {
      NoFailure(Next(u, es[0]), es[1..]);
    }
  }

  /** Over every run: the queue never exceeds 2049 packets; packets are sent in the order they
      were accepted; and a send is in flight iff something is queued, until a send fails while
      another packet is waiting, after which nothing is ever sent again. */
  lemma {:induction false} RunKeepsInv<P>(u: Udp<P>, es: seq<Event<P>>)
    requires Inv(u) && Legal(u, es)
    ensures var v := Run(u, es);
      && Inv(v)
      && |v.queue| <= 2049
      && v.done + v.queue == v.accepted
      && (u.stalled ==> v.stalled && v.done == u.done)
      && (v.stalled <==> u.stalled || FailsWithMore(u, es))
      && (v.sending == 1 <==> v.queue != [] && !u.stalled && !FailsWithMore(u, es))
    decreases |es|
  {
    if es == [] {
    } else {
      NextKeepsInv(u, es[0]);
      RunKeepsInv(Next(u, es[0]), es[1..]);
    }
  }

  /** How many sends of a run complete, with or without error. */
  function Completions<P(==)>(es: seq<Event<P>>): nat {
    if es == [] then 0 else (if es[0].SendDone? then 1 else 0) + Completions(es[1..])
  }

  /** The packets offered in a run. */
  function Offers<P>(es: seq<Event<P>>): seq<P> {
    if es == [] then [] else (if es[0].Offer? then [es[0].p] else []) + Offers(es[1..])
  }

  lemma NextTakesOne<P>(u: Udp<P>, e: Event<P>)
    requires Inv(u) && Enabled(u, e)
    ensures var v := Next(u, e);
      && |v.done| == |u.done| + (if e.SendDone? then 1 else 0)
      && u.done <= v.done && u.accepted <= v.accepted
      && v.offered == u.offered + (if e.Offer? then [e.p] else [])
  {
    assert u.offered + [] == u.offered;
  }

  /** Each completed send takes exactly one packet off the queue, the front one: after `n` completions
      the first `n` packets accepted are done, and the others are queued, in order. What was accepted
      or sent stays so, and every offer of the run is on record. */
  lemma {:induction false} OneAtATime<P>(u: Udp<P>, es: seq<Event<P>>)
    requires Inv(u) && Legal(u, es)
    ensures var v := Run(u, es); var n := |u.done| + Completions(es);
      && |v.done| == n
      && n <= |v.accepted| && v.done == v.accepted[..n] && v.queue == v.accepted[n..]
      && u.done <= v.done && u.accepted <= v.accepted
      && v.offered == u.offered + Offers(es)
    decreases |es|
  {
    if es == [] {
      assert u.offered + [] == u.offered;
    } else {
      NextKeepsInv(u, es[0]);
      NextTakesOne(u, es[0]);
      var w := Next(u, es[0]);
      OneAtATime(w, es[1..]);
      var o := if es[0].Offer? then [es[0].p] else [];
      assert (u.offered + o) + Offers(es[1..]) == u.offered + (o + Offers(es[1..]));
    }
  }

  /** Such a run: two packets are offered, and sending the first one fails. */
  lemma StalledRun<P>(a: P, b: P)
    ensures var es := [Offer(a), Offer(b), SendDone(false)];
      Legal(Empty(), es) && Run(Empty(), es).stalled && Run(Empty(), es).queue == [b]
  {
    var es := [Offer(a), Offer(b), SendDone(false)];
    var u1 := Next(Empty<P>(), es[0]);
    var u2 := Next(u1, es[1]);
    var u3 := Next(u2, es[2]);
    assert u2.queue == [a, b];
    assert Legal(u3, []) && Run(u3, []) == u3;
    assert es[1..] == [es[1], es[2]] && es[1..][1..] == [es[2]] && [es[2]][1..] == [];
    assert Legal(u2, [es[2]]) && Run(u2, [es[2]]) == u3;
    assert Legal(u1, es[1..]) && Run(u1, es[1..]) == u3;
  }

  /** The packets accepted are some of those offered, in the order they were offered. */
  lemma {:induction false} AcceptedInOrder<P>(u: Udp<P>, es: seq<Event<P>>)
    requires Legal(u, es) && IsSubsequence(u.accepted, u.offered)
    ensures IsSubsequence(Run(u, es).accepted, Run(u, es).offered)
    decreases |es|
  {
    if es == [] {
    } else {
      if es[0].Offer? {
        var p, xs, ys := es[0].p, u.accepted, u.offered;
        assert (ys + [p])[..|ys|] == ys && (xs + [p])[..|xs|] == xs;
        DropLast(xs, ys, p);
      }
      AcceptedInOrder(Next(u, es[0]), es[1..]);
    }
  }

  lemma {:induction false} DropLast<P>(xs: seq<P>, ys: seq<P>, p: P)
    requires IsSubsequence(xs, ys)
    ensures IsSubsequence(xs, ys + [p])
    decreases |ys|, 1
  {
    assert (ys + [p])[..|ys|] == ys;
    if xs != [] && xs[|xs| - 1] == p {
      ShorterStill(xs, ys);
    }
  }

  lemma {:induction false} ShorterStill<P>(xs: seq<P>, ys: seq<P>)
    requires xs != [] && IsSubsequence(xs, ys)
    ensures IsSubsequence(xs[..|xs| - 1], ys)
    decreases |ys|, 0
  {
    var init := ys[..|ys| - 1];
    assert ys == init + [ys[|ys| - 1]];
    if xs[|xs| - 1] == ys[|ys| - 1] {
      DropLast(xs[..|xs| - 1], init, ys[|ys| - 1]);
    } else {
      ShorterStill(xs, init);
      DropLast(xs[..|xs| - 1], init, ys[|ys| - 1]);
    }
  }
}

/** The queue as the object the handlers update. */
module UdpSenders {
  import opened UdpSpec

  class UdpSender<P(==)> {
    var waitForSend: seq<P>
    var sending: nat
    ghost var offered: seq<P>
    ghost var accepted: seq<P>
    ghost var done: seq<P>
    ghost var stalled: bool

    ghost function View(): Udp<P>
      reads this
    {
      Udp(waitForSend, sending, offered, accepted, done, stalled)
    }

    constructor ()
      ensures View() == Empty() && Inv(View())
    {
      waitForSend, sending := [], 0;
      offered, accepted, done, stalled := [], [], [], false;
    }

    method TryToSendUdpMessage(p: P)
      requires Inv(View())
      modifies this
      ensures View() == Next(old(View()), Offer(p)) && Inv(View())
    {
      NextKeepsInv(View(), Offer(p));
      offered := offered + [p];
      if |waitForSend| > LIMIT {
        return;
      }
      var isEmpty := waitForSend == [];
      waitForSend, accepted := waitForSend + [p], accepted + [p];
      if isEmpty {
        SendUdpMessage();
      }
    }

    /** Start sending the front packet. */
    method SendUdpMessage()
      requires waitForSend != []
      modifies this`sending
      ensures sending == old(sending) + 1
    {
      sending := sending + 1;
    }

    /** Completion of async_send: the packet goes either way, and an error ends the chain. */
    method OnSent(ok: bool)
      requires Inv(View()) && sending > 0
      modifies this
      ensures View() == Next(old(View()), SendDone(ok)) && Inv(View())
    {
      NextKeepsInv(View(), SendDone(ok));
      sending := sending - 1;
      done := done + [waitForSend[0]];
      waitForSend := waitForSend[1..];
      if !ok {
        stalled := stalled || waitForSend != [];
        return;
      }
      if waitForSend != [] {
        SendUdpMessage();
      }
    }
  }
}
