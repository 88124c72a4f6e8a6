/** Sequences without repetitions. */
module Sequences {
  predicate NoDup<T(==)>(xs: seq<T>) {
    xs == [] || (xs[0] !in xs[1..] && NoDup(xs[1..]))
  }

  lemma {:induction false} NoDupAt<T>(xs: seq<T>)
    requires NoDup(xs)
    ensures forall i, j | 0 <= i < j < |xs| :: xs[i] != xs[j]
  {
    if xs == [] {
    } else {
      var tail := xs[1..];
      NoDupAt(tail);
      forall i, j | 0 <= i < j < |xs| ensures xs[i] != xs[j] {
        assert xs[j] == tail[j - 1];
        assert i > 0 ==> xs[i] == tail[i - 1];
      }
    }
  }

  lemma {:induction false} NoDupSnoc<T>(xs: seq<T>, x: T)
    requires NoDup(xs) && x !in xs
    ensures NoDup(xs + [x])
  {
    if xs == [] {
    } else {
      NoDupSnoc(xs[1..], x);
      assert (xs + [x])[1..] == xs[1..] + [x];
    }
  }

  /** Without its element at `k`. */
  lemma {:induction false} NoDupWithout<T>(xs: seq<T>, k: nat)
    requires NoDup(xs) && k < |xs|
    ensures NoDup(xs[..k] + xs[k + 1..])
    ensures forall x :: x in xs[..k] + xs[k + 1..] <==> x in xs && x != xs[k]
  {
    var ys := xs[..k] + xs[k + 1..];
    if k == 0 {
      assert ys == xs[1..] && xs == [xs[0]] + ys;
    } else {
      var tail := xs[1..];
      NoDupWithout(tail, k - 1);
      assert ys[1..] == tail[..k - 1] + tail[k..];
      assert ys == [xs[0]] + ys[1..] && xs == [xs[0]] + tail;
    }
  }
}
