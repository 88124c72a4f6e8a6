/** The timing wheel as the intrusive doubly linked lists of timeWheel.hpp. */
module TimeWheels {
  import opened Sequences
  import opened WheelSpec

  /** A task; a slot header is used as one too, through a cast that makes its `next_` coincide
      with a task's. A header's `ahead` overlays other data and must never be written. */
  class Node {
    var next: Node?
    var ahead: Node?
    ghost var slot: int    // the slot a mounted task is in

    /** `registerTask`. */
    constructor ()
      ensures next == null && ahead == null && slot == LENGTH
    {
      next, ahead, slot := null, null, LENGTH;
    }
  }

  function First(xs: seq<Node>): Node? {
    if xs == [] then null else xs[0]
  }

  lemma Shift<T>(done: seq<T>, rest: seq<T>)
    requires rest != []
    ensures (done + [rest[0]]) + rest[1..] == done + rest
  {
  }

  lemma {:induction false} WithoutAt<T>(xs: seq<T>, k: nat)
    requires k < |xs| && forall i | 0 <= i < k :: xs[i] != xs[k]
    ensures Without(xs, xs[k]) == xs[..k] + xs[k + 1..]
  {
    if k == 0 {
      assert xs[..0] + xs[1..] == xs[1..];
    } else {
      WithoutAt(xs[1..], k - 1);
      assert [xs[0]] + (xs[1..][..k - 1] + xs[1..][k..]) == xs[..k] + xs[k + 1..];
    }
  }

  /** A doubly linked list from its header: `ahead` inverts `next`, the first task's `ahead`
      is the header, the last task's `next` is null, and no task occurs twice. */
  ghost predicate IsList(h: Node, xs: seq<Node>)
    reads h`next, xs`next, xs`ahead
  {
    && h.next == First(xs)
    && IsChain(xs)
    && (forall j {:trigger xs[j].ahead} | 0 <= j < |xs| :: xs[j].ahead == if j == 0 then h else xs[j - 1])
  }

  ghost predicate IsChain(xs: seq<Node>)
    reads xs`next
  {
    && (forall j {:trigger xs[j].next} | 0 <= j < |xs| :: xs[j].next == if j + 1 < |xs| then xs[j + 1] else null)
    && NoDup(xs)
  }

  /** The linking half of `mountTask`. */
  method LinkFront(h: Node, ghost xs: seq<Node>, node: Node)
    requires IsList(h, xs) && h !in xs && node !in xs && node != h
    modifies h`next, node`next, node`ahead, xs`next, xs`ahead
    ensures IsList(h, [node] + xs)
  {
    var first := h.next;
    assert ([node] + xs)[1..] == xs;
    if first == null {
      node.next := first;
      node.ahead := h;
      h.next := node;
      return;
    }
    assert forall j | 1 <= j < |xs| :: xs[j] == xs[1..][j - 1];
    first.ahead.next := node;
    node.next := first;
    node.ahead := first.ahead;
    first.ahead := node;
  }

  /** The unlinking half of `removeTask`, at any position. */
  method Unlink(ghost h: Node, ghost xs: seq<Node>, ghost k: nat, node: Node)
    requires IsList(h, xs) && h !in xs && k < |xs| && xs[k] == node
    modifies h`next, xs`next, xs`ahead
    ensures IsList(h, xs[..k] + xs[k + 1..]) && node.next == null && node.ahead == null
  {
    NoDupAt(xs);
    NoDupWithout(xs, k);
    ghost var before := if k == 0 then h else xs[k - 1];
    assert before == h || before in xs;
    node.ahead.next := node.next;
    if node.next != null {
      assert node.next == xs[k + 1];
      node.next.ahead := node.ahead;
    }
    node.next := null;
    node.ahead := null;
    ghost var ys := xs[..k] + xs[k + 1..];
    assert forall j | 0 <= j < k :: ys[j] == xs[j];
    assert forall j | k <= j < |ys| :: ys[j] == xs[j + 1];
  }

  /** The slot headers, all empty. */
  method NewHeaders() returns (hs: seq<Node>)
    ensures |hs| == LENGTH
    ensures forall i | 0 <= i < LENGTH :: fresh(hs[i]) && hs[i].next == null && hs[i].slot == -1 - i
  {
    hs := [];
    while |hs| < LENGTH
      invariant |hs| <= LENGTH
      invariant forall i | 0 <= i < |hs| :: fresh(hs[i]) && hs[i].next == null && hs[i].slot == -1 - i
    {
      var h := new Node();
      h.slot := -1 - |hs|;
      hs := hs + [h];
    }
  }

  class TimeWheel {
    const headers: seq<Node>          // timeSegmentList_
    ghost const heads: set<Node>      // the same, as a set
    var cursor: nat                   // currentTaskNumber_
    ghost var slots: seq<seq<Node>>
    ghost var Repr: set<Node>         // entries on the wheel

    /** The wheel the links stand for. */
    ghost function View(): Wheel<Node>
      reads this
    {
      Wheel(slots, cursor)
    }

    /** An empty wheel. */
    constructor ()
      ensures Valid() && fresh(heads) && Repr == {} && View() == Idle()
    {
      var hs := NewHeaders();
      headers := hs;
      heads := set h | h in hs;
      cursor := 0;
      slots := Idle<Node>().slots;
      Repr := {};
      new;
      assert forall s | 0 <= s < LENGTH :: slots[s] == [];
      AllLinked(LENGTH);
    }

    /** Every node knows its place: headers and the 1000 lists are pairwise disjoint. */
    ghost predicate Placed()
      reads `slots, `Repr, heads`slot, Repr`slot
    {
      && |headers| == LENGTH && |slots| == LENGTH
      && (forall s | 0 <= s < LENGTH :: headers[s] in heads && headers[s].slot == -1 - s)
      && (forall n | n in heads :: n.slot < 0)
      && (forall s, n | 0 <= s < LENGTH && n in slots[s] :: n in Repr && n.slot == s)
      && (forall n | n in Repr :: 0 <= n.slot < LENGTH && n in slots[n.slot])
    }

    /** The first `k` slots are lists. */
    ghost predicate Linked(k: nat)
      requires Placed() && k <= LENGTH
      reads `slots, `Repr, heads, Repr
    {
      k == 0 || (Linked(k - 1) && IsList(headers[k - 1], slots[k - 1]))
    }

    ghost predicate Valid()
      reads this, heads, Repr
    {
      cursor < LENGTH && Placed() && Linked(|headers|)
    }

    lemma {:induction false} GetList(k: nat, s: nat)
      requires Placed() && s < k <= LENGTH && Linked(k)
      ensures IsList(headers[s], slots[s])
    {
      if s < k - 1 {
        GetList(k - 1, s);
      }
    }

    lemma {:induction false} AllLinked(k: nat)
      requires Placed() && k <= LENGTH
      requires forall s | 0 <= s < k :: IsList(headers[s], slots[s])
      ensures Linked(k)
    {
      if k == 0 {
      } else {
        AllLinked(k - 1);
      }
    }

    lemma Lists()
      requires Valid()
      ensures forall s | 0 <= s < LENGTH :: IsList(headers[s], slots[s])
    {
      forall s | 0 <= s < LENGTH ensures IsList(headers[s], slots[s]) {
        GetList(LENGTH, s);
      }
    }

    /** What belongs to another slot is out of reach of an operation on slot `s`. */
    lemma PlacedApart(s: nat, t: nat)
      requires Placed() && s < LENGTH && t < LENGTH && s != t
      ensures headers[t] != headers[s] && headers[t] !in slots[s]
      ensures forall n | n in slots[t] :: n !in slots[s] && n !in heads
    {
      forall n | n in slots[t] ensures n !in slots[s] && n !in heads {
        assert n.slot == t;
      }
    }

    lemma HeaderApart(s: nat)
      requires Placed() && s < LENGTH
      ensures headers[s] !in slots[s] && headers[s] !in Repr
    {
    }

    /** With slot `s` holding `xs` and the others as before, all the lists are in place again. */
    lemma Settled(before: seq<seq<Node>>, s: nat, xs: seq<Node>)
      requires Placed() && s < LENGTH && |before| == LENGTH && slots == before[s := xs]
      requires forall t | 0 <= t < LENGTH && t != s :: IsList(headers[t], before[t])
      requires IsList(headers[s], xs)
      ensures Linked(|headers|)
    {
      forall t | 0 <= t < LENGTH ensures IsList(headers[t], slots[t]) {
        if t == s {
          assert slots[t] == xs;
        } else {
          assert slots[t] == before[t];
        }
      }
      AllLinked(LENGTH);
    }

    ghost method Place(node: Node, s: nat)
      requires Placed() && node !in Repr && node !in heads && s < LENGTH
      modifies this, node`slot
      ensures Placed() && slots == old(slots)[s := [node] + old(slots)[s]]
      ensures Repr == old(Repr) + {node} && cursor == old(cursor)
    {
      node.slot := s;
      slots := slots[s := [node] + slots[s]];
      Repr := Repr + {node};
    }

    method LinkSlot(s: nat, node: Node)
      requires Valid() && node !in Repr && node !in heads && s < LENGTH
      modifies heads`next, Repr`next, Repr`ahead, node`next, node`ahead
      ensures forall t | 0 <= t < LENGTH && t != s :: IsList(headers[t], slots[t])
      ensures IsList(headers[s], [node] + slots[s])
    {
      HeaderApart(s);
      Lists();
      LinkFront(headers[s], slots[s], node);
      forall t | 0 <= t < LENGTH && t != s ensures IsList(headers[t], slots[t]) {
        PlacedApart(s, t);
        ghost var ys := slots[t];
        assert forall j | 0 <= j < |ys| :: ys[j] in ys;
        assert forall n | n in ys :: n.next == old(n.next) && n.ahead == old(n.ahead);
        assert old(IsList(headers[t], ys));
      }
    }

    method MountTask(node: Node, next: uint32)
      requires Valid() && node !in Repr && node !in heads
      modifies this, heads`next, Repr, node
      ensures Valid() && View() == Mount(old(View()), node, next)
      ensures Repr == old(Repr) + {node}
    {
      var ticks := next / DELTA;
      if ticks < 1 {
        ticks := 1;
      }
      var target := (cursor + ticks) % LENGTH;
      MountAt(node, target);
    }

    method MountAt(node: Node, s: nat)
      requires Valid() && node !in Repr && node !in heads && s < LENGTH
      modifies this, heads`next, Repr, node
      ensures Valid() && slots == old(slots)[s := [node] + old(slots)[s]] && cursor == old(cursor)
      ensures Repr == old(Repr) + {node}
    {
      ghost var before := slots;
      LinkSlot(s, node);
      Place(node, s);
      Settled(before, s, [node] + before[s]);
    }

    method UnlinkSlot(ghost s: nat, ghost k: nat, node: Node)
      requires Valid() && s < LENGTH && k < |slots[s]| && slots[s][k] == node
      modifies heads`next, Repr`next, Repr`ahead
      ensures forall t | 0 <= t < LENGTH && t != s :: IsList(headers[t], slots[t])
      ensures IsList(headers[s], slots[s][..k] + slots[s][k + 1..])
      ensures node.next == null && node.ahead == null
    {
      HeaderApart(s);
      Lists();
      Unlink(headers[s], slots[s], k, node);
      forall t | 0 <= t < LENGTH && t != s ensures IsList(headers[t], slots[t]) {
        PlacedApart(s, t);
        ghost var ys := slots[t];
        assert forall j | 0 <= j < |ys| :: ys[j] in ys;
        assert forall n | n in ys :: n.next == old(n.next) && n.ahead == old(n.ahead);
        assert old(IsList(headers[t], ys));
      }
    }

    ghost method Displace(s: nat, k: nat)
      requires Placed() && s < LENGTH && k < |slots[s]|
      requires NoDup(slots[s])
      modifies this, Repr`slot
      ensures Placed() && slots == old(slots)[s := old(slots)[s][..k] + old(slots)[s][k + 1..]]
      ensures Repr == old(Repr) - {old(slots)[s][k]} && cursor == old(cursor)
    {
      var xs := slots[s];
      NoDupWithout(xs, k);
      xs[k].slot := LENGTH;
      slots := slots[s := xs[..k] + xs[k + 1..]];
      Repr := Repr - {xs[k]};
    }

    method RemoveTask(node: Node)
      requires Valid() && node in Repr
      modifies this, heads`next, Repr
      ensures Valid() && View() == Remove(old(View()), old(node.slot), node)
      ensures node.next == null && node.ahead == null && Repr == old(Repr) - {node}
    {
      ghost var s := node.slot;
      ghost var k :| 0 <= k < |slots[s]| && slots[s][k] == node;
      GetList(LENGTH, s);
      NoDupAt(slots[s]);
      WithoutAt(slots[s], k);
      ghost var before := slots;
      UnlinkSlot(s, k, node);
      Displace(s, k);
      Settled(before, s, before[s][..k] + before[s][k + 1..]);
    }

    ghost method Vacate()
      requires Placed() && cursor < LENGTH
      modifies this, Repr`slot
      ensures Placed() && slots == old(slots)[cursor := []] && cursor == old(cursor)
      ensures Repr == old(Repr) - set n | n in old(slots[cursor])
    {
      var xs := slots[cursor];
      forall n | n in xs {
        n.slot := LENGTH;
      }
      slots := slots[cursor := []];
      Repr := Repr - set n | n in xs;
    }

    /** Cut the list of slot `s` off its header; its tasks stay chained. */
    method CutSlot(s: nat)
      requires Valid() && s < LENGTH
      modifies heads`next
      ensures forall t | 0 <= t < LENGTH && t != s :: IsList(headers[t], slots[t])
      ensures IsList(headers[s], []) && IsChain(slots[s])
    {
      Lists();
      HeaderApart(s);
      headers[s].next := null;
      forall t | 0 <= t < LENGTH && t != s ensures IsList(headers[t], slots[t]) {
        PlacedApart(s, t);
        assert old(IsList(headers[t], slots[t]));
      }
    }

    /** Take the whole list of the current slot off the wheel. */
    method DetachSlot()
      requires Valid()
      modifies this, heads`next, Repr`slot
      ensures Valid() && View() == Detach(old(View())) && Repr <= old(Repr)
      ensures IsChain(old(slots[cursor]))
      ensures forall n | n in old(slots[cursor]) :: n in old(Repr) && n !in Repr && n !in heads
    {
      ghost var before := slots;
      CutSlot(cursor);
      Vacate();
      Settled(before, cursor, []);
    }

    /** Call back the first of the detached tasks and remount it unless it answers 0. */
    method FireOne(current: Node, ghost rest: seq<Node>, answer: Node -> uint32) returns (point: Node?)
      requires Valid() && rest != [] && current == rest[0] && IsChain(rest)
      requires forall n | n in rest :: n !in Repr && n !in heads
      modifies this, heads`next, Repr, current
      ensures Valid() && point == First(rest[1..]) && IsChain(rest[1..])
      ensures View() == Remount(old(View()), current, answer)
      ensures old(Repr) <= Repr <= old(Repr) + {current}
    {
      ghost var more := rest[1..];
      assert forall j | 0 <= j < |more| :: more[j] == rest[j + 1];
      point := current.next;
      current.next := null;
      current.ahead := null;
      assert Valid();
      var nextTime := answer(current);
      if nextTime > 0 {
        MountTask(current, nextTime);
      }
    }

    /** Fire a detached chain; `fired` lists the callback's invocations. */
    method FireAll(first: Node?, ghost all: seq<Node>, answer: Node -> uint32) returns (fired: seq<Node>)
      requires Valid() && first == First(all) && IsChain(all)
      requires forall n | n in all :: n !in Repr && n !in heads
      modifies this, heads`next, Repr, all
      ensures Valid() && View() == Fire(old(View()), all, answer) && fired == all
      ensures forall n | n in Repr :: n in old(Repr) || n in all
    {
      var current := first;
      ghost var rest := all;
      fired := [];
      while current != null
        invariant Valid() && current == First(rest) && IsChain(rest) && fired + rest == all
        invariant forall n | n in rest :: n !in Repr && n !in heads && n in all
        invariant forall n | n in Repr :: n in old(Repr) || n in all
        invariant Fire(View(), rest, answer) == Fire(old(View()), all, answer)
        decreases |rest|
      {
        Shift(fired, rest);
        fired := fired + [current];
        current := FireOne(current, rest, answer);
        rest := rest[1..];
      }
    }

    /** One tick. `answer` is the callback; `fired` lists its invocations in order. */
    method DoCurrentTimeWheel(answer: Node -> uint32) returns (fired: seq<Node>)
      requires Valid()
      modifies this, heads`next, Repr
      ensures Valid() && View() == Tick(old(View()), answer)
      ensures fired == old(slots[cursor]) && Repr <= old(Repr)
    {
      var current := headers[cursor].next;
      ghost var all := slots[cursor];
      GetList(LENGTH, cursor);
      DetachSlot();
      fired := FireAll(current, all, answer);
      AdvanceCursor();
    }

    method AdvanceCursor()
      requires Valid()
      modifies `cursor
      ensures Valid() && View() == Advance(old(View()))
    {
      cursor := cursor + 1;
      if cursor >= LENGTH {
        cursor := 0;
      }
    }
  }
}
