/** One size class of the pool as a value: a chain of blocks, each with a LIFO free list. */
module SlabSpec {
  import opened Sequences

  /** A block: where it starts and which of its nodes 0..N are on the free list, in order. */
  datatype Slab = Slab(base: int, free: seq<nat>)

  type Chain = seq<Slab>

  /** The free list is duplicate-free, stays within nodes 0..N and ends in the spare node N. */
  predicate WfSlab(s: Slab, N: nat) {
    && s.free != [] && s.free[|s.free| - 1] == N
    && (forall i | 0 <= i < |s.free| :: s.free[i] <= N)
    && NoDup(s.free)
  }

  predicate WfChain(c: Chain, N: nat) {
    c != [] && forall i | 0 <= i < |c| :: WfSlab(c[i], N)
  }

  /** `currentNodeNumber`: the spare node is on the list but not counted. */
  function Count(s: Slab): int {
    |s.free| - 1
  }

  predicate Live(s: Slab, N: nat, k: nat) {
    k < N && k !in s.free
  }

  /** The nodes of a chain that are handed out, each named by its block's base and its index. */
  predicate IsLive(c: Chain, N: nat, base: int, k: nat) {
    exists i | 0 <= i < |c| :: c[i].base == base && Live(c[i], N, k)
  }

  predicate DistinctBases(c: Chain) {
    forall i, j | 0 <= i < j < |c| :: c[i].base != c[j].base
  }

  function LiveCount(c: Chain, N: nat): int {
    if c == [] then 0 else N - Count(c[0]) + LiveCount(c[1..], N)
  }

  // ---------- the operations ----------

  /** Nodes 0..N linked in address order. */
  function Carved(N: nat): seq<nat> {
    seq(N + 1, i => i)
  }

  /** The first block with a node to hand out, or the chain's length. */
  function FirstFit(c: Chain): nat {
    if c == [] || Count(c[0]) != 0 then 0 else 1 + FirstFit(c[1..])
  }

  /** The chain, the block and the node `mallocMemory` takes; `os` is where a new block would go. */
  function Grown(c: Chain, N: nat, os: int): Chain {
    if FirstFit(c) < |c| then c else c + [Slab(os, Carved(N))]
  }

  function Pop(s: Slab): Slab
    requires s.free != []
  {
    s.(free := s.free[1..])
  }

  function Malloc(c: Chain, N: nat, os: int): Chain
    requires WfChain(c, N) && N >= 1
  {
    FirstFitExact(c);
    var g := Grown(c, N, os);
    g[FirstFit(c) := Pop(g[FirstFit(c)])]
  }

  /** The node handed out. */
  function Taken(c: Chain, N: nat, os: int): (int, nat)
    requires WfChain(c, N)
  {
    FirstFitExact(c);
    var s := Grown(c, N, os)[FirstFit(c)];
    (s.base, s.free[0])
  }

  function Free(c: Chain, i: nat, k: nat): Chain
    requires i < |c|
  {
    c[i := c[i].(free := [k] + c[i].free)]
  }

  /** The blocks with a live node, in order. */
  function Survivors(c: Chain, N: nat): Chain {
    if c == [] then []
    else if Count(c[0]) == N then Survivors(c[1..], N)
    else [c[0]] + Survivors(c[1..], N)
  }

  function Trim(c: Chain, N: nat): Chain
    requires c != []
  {
    [c[0]] + Survivors(c[1..], N)
  }

  // ---------- free nodes and live nodes ----------

  function Elements(xs: seq<nat>): (r: set<nat>)
    ensures forall x :: x in r <==> x in xs
  {
    set x | x in xs
  }

  function Below(n: nat): (r: set<nat>)
    ensures |r| == n && forall x: nat :: x in r <==> x < n
  {
    if n == 0 then {} else Below(n - 1) + {n - 1}
  }

  function LiveNodes(s: Slab, N: nat): set<nat> {
    Below(N) - Elements(s.free)
  }

  lemma {:induction false} ElementCount(xs: seq<nat>)
    requires NoDup(xs)
    ensures |Elements(xs)| == |xs|
  {
    if xs == [] {
    } else {
      ElementCount(xs[1..]);
      assert xs == [xs[0]] + xs[1..];
      assert Elements(xs) == {xs[0]} + Elements(xs[1..]);
    }
  }

  /** Conservation in a block: free nodes plus live nodes are its N nodes. */
  lemma FreePlusLive(s: Slab, N: nat)
    requires WfSlab(s, N)
    ensures Count(s) + |LiveNodes(s, N)| == N
    ensures 0 <= Count(s) <= N
  {
    ElementCount(s.free);
    assert LiveNodes(s, N) == Below(N + 1) - Elements(s.free);
    assert Elements(s.free) <= Below(N + 1);
    assert Below(N + 1) == LiveNodes(s, N) + Elements(s.free);
  }

  /** `currentNodeNumber` tells exactly when a block has no live node and when it has no other. */
  lemma CountTells(s: Slab, N: nat)
    requires WfSlab(s, N)
    ensures Count(s) == N <==> forall k: nat :: !Live(s, N, k)
    ensures Count(s) == 0 <==> forall k: nat | k < N :: Live(s, N, k)
  {
    FreePlusLive(s, N);
    assert forall k: nat :: k in LiveNodes(s, N) <==> Live(s, N, k);
    if forall k: nat :: !Live(s, N, k) {
      assert LiveNodes(s, N) == {};
    }
    if forall k: nat | k < N :: Live(s, N, k) {
      assert LiveNodes(s, N) == Below(N);
    }
    if Count(s) == 0 {
      assert s.free == [N];
    }
  }

  // ---------- malloc ----------

  lemma {:induction false} FirstFitExact(c: Chain)
    ensures FirstFit(c) <= |c|
    ensures forall i | 0 <= i < FirstFit(c) :: Count(c[i]) == 0
    ensures FirstFit(c) < |c| ==> Count(c[FirstFit(c)]) != 0
  {
    if c == [] || Count(c[0]) != 0 {
    } else {
      FirstFitExact(c[1..]);
      assert forall i | 1 <= i < |c| :: c[i] == c[1..][i - 1];
    }
  }

  lemma FirstFitIs(c: Chain, j: nat)
    requires j <= |c| && (forall i | 0 <= i < j :: Count(c[i]) == 0) && (j < |c| ==> Count(c[j]) != 0)
    ensures FirstFit(c) == j
  {
    FirstFitExact(c);
  }

  lemma CarvedSlab(base: int, N: nat)
    ensures WfSlab(Slab(base, Carved(N)), N)
    ensures forall k: nat :: !Live(Slab(base, Carved(N)), N, k)
  {
    CarvedNoDup(N, 0);
    assert Carved(N)[0..] == Carved(N);
    forall k: nat ensures !Live(Slab(base, Carved(N)), N, k) {
      assert k < N ==> Carved(N)[k] == k;
    }
  }

  lemma {:induction false} CarvedNoDup(N: nat, m: nat)
    requires m <= N + 1
    ensures NoDup(Carved(N)[m..])
    decreases N + 1 - m
  {
    if m == N + 1 {
    } else {
      CarvedNoDup(N, m + 1);
      assert Carved(N)[m..][1..] == Carved(N)[m + 1..];
    }
  }

  lemma PopSlab(s: Slab, N: nat)
    requires WfSlab(s, N) && Count(s) != 0
    ensures WfSlab(Pop(s), N) && !Live(s, N, s.free[0]) && s.free[0] < N
    ensures forall k: nat :: Live(Pop(s), N, k) <==> Live(s, N, k) || k == s.free[0]
  {
    assert s.free == [s.free[0]] + s.free[1..];
    assert s.free[|s.free| - 1] == s.free[1..][|s.free| - 2];
  }

  lemma GrownWf(c: Chain, N: nat, os: int)
    requires WfChain(c, N) && N >= 1
    ensures WfChain(Grown(c, N, os), N)
    ensures FirstFit(c) < |Grown(c, N, os)| && Count(Grown(c, N, os)[FirstFit(c)]) != 0
    ensures forall base: int, k: nat :: IsLive(Grown(c, N, os), N, base, k) <==> IsLive(c, N, base, k)
  {
    FirstFitExact(c);
    var g := Grown(c, N, os);
    if FirstFit(c) == |c| {
      CarvedSlab(os, N);
      forall base: int, k: nat ensures IsLive(g, N, base, k) <==> IsLive(c, N, base, k) {
        assert forall i | 0 <= i < |c| :: g[i] == c[i];
      }
    }
  }

  /** `mallocMemory` hands out a node that was not live and makes exactly it live; it takes the
      first block that has one, and appends one block exactly when every block is full. */
  lemma MallocExact(c: Chain, N: nat, os: int)
    requires WfChain(c, N) && N >= 1
    requires DistinctBases(Grown(c, N, os))
    ensures var m := Malloc(c, N, os); var p := Taken(c, N, os);
      && WfChain(m, N)
      && p.1 < N && !IsLive(c, N, p.0, p.1)
      && (forall base: int, k: nat :: IsLive(m, N, base, k) <==> IsLive(c, N, base, k) || (base, k) == p)
    ensures |Malloc(c, N, os)| == |c| + (if forall i | 0 <= i < |c| :: Count(c[i]) == 0 then 1 else 0)
  {
    FirstFitExact(c);
    GrownWf(c, N, os);
    var g, f := Grown(c, N, os), FirstFit(c);
    PopSlab(g[f], N);
    SetSlab(g, N, f, Pop(g[f]));
  }

  /** Replacing one block changes the live nodes of that block only. */
  lemma SetSlab(c: Chain, N: nat, i: nat, s: Slab)
    requires i < |c| && DistinctBases(c) && s.base == c[i].base
    ensures forall base: int, k: nat ::
              IsLive(c[i := s], N, base, k) <==> if base == s.base then Live(s, N, k) else IsLive(c, N, base, k)
    ensures forall k: nat :: IsLive(c, N, s.base, k) <==> Live(c[i], N, k)
  {
    var d := c[i := s];
    forall base: int, k: nat | base != s.base
      ensures IsLive(d, N, base, k) <==> IsLive(c, N, base, k)
    {
      assert forall j | 0 <= j < |c| && c[j].base == base :: d[j] == c[j];
      assert forall j | 0 <= j < |c| && d[j].base == base :: d[j] == c[j];
    }
    forall k: nat ensures IsLive(d, N, s.base, k) <==> Live(s, N, k) {
      assert d[i] == s;
      assert forall j | 0 <= j < |c| && d[j].base == s.base :: j == i;
    }
    forall k: nat ensures IsLive(c, N, s.base, k) <==> Live(c[i], N, k) {
      assert forall j | 0 <= j < |c| && c[j].base == s.base :: j == i;
    }
  }

  // ---------- free ----------

  /** `freeMemory` of a live node makes exactly it free again. */
  lemma FreeExact(c: Chain, N: nat, i: nat, k: nat)
    requires WfChain(c, N) && DistinctBases(c) && i < |c| && Live(c[i], N, k)
    ensures WfChain(Free(c, i, k), N)
    ensures forall b: int, j: nat ::
              IsLive(Free(c, i, k), N, b, j) <==> IsLive(c, N, b, j) && (b, j) != (c[i].base, k)
  {
    var s := c[i].(free := [k] + c[i].free);
    assert s.free[1..] == c[i].free;
    SetSlab(c, N, i, s);
  }

  /** Freeing what was just handed out restores every free list; a block appended stays. */
  lemma MallocThenFree(c: Chain, N: nat, os: int)
    requires WfChain(c, N) && N >= 1
    ensures FirstFit(c) < |Malloc(c, N, os)|
    ensures Free(Malloc(c, N, os), FirstFit(c), Taken(c, N, os).1) == Grown(c, N, os)
  {
    FirstFitExact(c);
    GrownWf(c, N, os);
    var g, f := Grown(c, N, os), FirstFit(c);
    assert [g[f].free[0]] + g[f].free[1..] == g[f].free;
  }

  /** Last in, first out: a node freed in a block with none but full blocks in front of it is the
      next one handed out. */
  lemma FreeThenMalloc(c: Chain, N: nat, i: nat, k: nat, os: int)
    requires WfChain(c, N) && DistinctBases(c) && i < |c| && Live(c[i], N, k)
    requires forall j | 0 <= j < i :: Count(c[j]) == 0
    ensures WfChain(Free(c, i, k), N) && Taken(Free(c, i, k), N, os) == (c[i].base, k)
  {
    FreeExact(c, N, i, k);
    var d := Free(c, i, k);
    FreePlusLive(c[i], N);
    FirstFitIs(d, i);
  }

  /** `m` mallocs in a row. */
  function MallocTimes(c: Chain, N: nat, os: int, m: nat): (d: Chain)
    requires WfChain(c, N) && N >= 1
    ensures WfChain(d, N)
  {
    if m == 0 then c
    else
      var d := MallocTimes(c, N, os, m - 1);
      GrownWf(d, N, os);
      PopSlab(Grown(d, N, os)[FirstFit(d)], N);
      Malloc(d, N, os)
  }

  /** A new block hands out its nodes in the order of their addresses, all of them. */
  lemma {:induction false} FreshInOrder(base: int, N: nat, os: int, m: nat)
    requires 1 <= N && m <= N
    ensures WfChain([Slab(base, Carved(N))], N)
    ensures var d := MallocTimes([Slab(base, Carved(N))], N, os, m);
      && d == [Slab(base, Carved(N)[m..])]
      && (m < N ==> Taken(d, N, os) == (base, m))
  {
    CarvedSlab(base, N);
    if m == 0 {
      assert Carved(N)[0..] == Carved(N);
    } else {
      FreshInOrder(base, N, os, m - 1);
      assert Carved(N)[m - 1..][1..] == Carved(N)[m..];
    }
    FirstFitIs([Slab(base, Carved(N)[m..])], if m < N then 0 else 1);
  }

  // ---------- trim ----------

  /** `a` comes before `b` in the chain. */
  predicate InOrder(c: Chain, a: Slab, b: Slab) {
    exists i, j :: 0 <= i < j < |c| && c[i] == a && c[j] == b
  }

  /** The survivors are exactly the blocks whose counter is not N, in the order of the chain. */
  lemma {:induction false} SurvivorsExact(c: Chain, N: nat)
    ensures forall s :: s in Survivors(c, N) <==> s in c && Count(s) != N
    ensures forall i, j | 0 <= i < j < |Survivors(c, N)| :: InOrder(c, Survivors(c, N)[i], Survivors(c, N)[j])
  {
    if c == [] {
      assert Survivors(c, N) == [];
    } else {
      var tail, rest, kept := c[1..], Survivors(c[1..], N), Survivors(c, N);
      SurvivorsExact(tail, N);
      assert c == [c[0]] + tail;
      forall i, j | 0 <= i < j < |kept| ensures InOrder(c, kept[i], kept[j]) {
        if Count(c[0]) == N {
          LaterInOrder(c, kept[i], kept[j]);
        } else if i == 0 {
          assert kept[j] == rest[j - 1] && rest[j - 1] in tail;
          var h :| 0 <= h < |tail| && tail[h] == kept[j];
          assert c[h + 1] == kept[j];
        } else {
          assert kept[i] == rest[i - 1] && kept[j] == rest[j - 1];
          LaterInOrder(c, kept[i], kept[j]);
        }
      }
    }
  }

  lemma LaterInOrder(c: Chain, a: Slab, b: Slab)
    requires c != [] && InOrder(c[1..], a, b)
    ensures InOrder(c, a, b)
  {
    var i, j :| 0 <= i < j < |c[1..]| && c[1..][i] == a && c[1..][j] == b;
    assert c[i + 1] == a && c[j + 1] == b;
  }

  lemma {:induction false} SurvivorsCount(c: Chain, N: nat)
    requires forall i | 0 <= i < |c| :: WfSlab(c[i], N)
    ensures Survivors(Survivors(c, N), N) == Survivors(c, N)
    ensures |Survivors(c, N)| <= LiveCount(c, N) == LiveCount(Survivors(c, N), N)
  {
    if c == [] {
    } else {
      SurvivorsCount(c[1..], N);
      FreePlusLive(c[0], N);
      var rest := Survivors(c[1..], N);
      assert ([c[0]] + rest)[1..] == rest;
    }
  }

  /** `freeOldMemoryBlock` keeps the first block and, in order, exactly the blocks with a live
      node; no live node is lost, it is idempotent, and it bounds blocks by live nodes. */
  lemma TrimExact(c: Chain, N: nat)
    requires WfChain(c, N)
    ensures var t := Trim(c, N);
      && WfChain(t, N)
      && (forall base: int, k: nat :: IsLive(t, N, base, k) <==> IsLive(c, N, base, k))
      && Trim(t, N) == t
      && LiveCount(t, N) == LiveCount(c, N)
      && |t| <= 1 + LiveCount(c, N)
  {
    var t := Trim(c, N);
    SurvivorsExact(c[1..], N);
    SurvivorsCount(c[1..], N);
    FreePlusLive(c[0], N);
    assert c == [c[0]] + c[1..];
    assert t[1..] == Survivors(c[1..], N);
    forall i | 0 <= i < |t| ensures t[i] in c {
      assert i > 0 ==> t[i] == Survivors(c[1..], N)[i - 1];
    }
    forall base: int, k: nat ensures IsLive(t, N, base, k) <==> IsLive(c, N, base, k) {
      if IsLive(c, N, base, k) {
        var i :| 0 <= i < |c| && c[i].base == base && Live(c[i], N, k);
        CountTells(c[i], N);
        assert i > 0 ==> c[i] == c[1..][i - 1];
        assert c[i] in t;
      }
      if IsLive(t, N, base, k) {
        var i :| 0 <= i < |t| && t[i].base == base && Live(t[i], N, k);
        assert t[i] in c;
      }
    }
  }

  lemma {:induction false} SurvivorsDistinct(c: Chain, N: nat)
    requires DistinctBases(c)
    ensures DistinctBases(Survivors(c, N)) && |Survivors(c, N)| <= |c|
  {
    if c == [] {
      assert Survivors(c, N) == [];
    } else {
      SurvivorsDistinct(c[1..], N);
      InFront(c, Survivors(c[1..], N), N);
    }
  }

  lemma InFront(c: Chain, rest: Chain, N: nat)
    requires c != [] && DistinctBases(c) && rest == Survivors(c[1..], N) && DistinctBases(rest)
    ensures DistinctBases([c[0]] + rest)
  {
    SurvivorsExact(c[1..], N);
    forall j | 0 <= j < |rest| ensures rest[j].base != c[0].base {
      assert rest[j] in c[1..];
      var h :| 0 <= h < |c[1..]| && c[1..][h] == rest[j];
      assert c[h + 1] == rest[j];
    }
  }

  lemma TrimDistinct(c: Chain, N: nat)
    requires c != [] && DistinctBases(c)
    ensures DistinctBases(Trim(c, N)) && |Trim(c, N)| <= |c|
    ensures forall s | s in Trim(c, N) :: s in c
  {
    var tail := c[1..];
    assert c == [c[0]] + tail;
    SurvivorsDistinct(tail, N);
    InFront(c, Survivors(tail, N), N);
    SurvivorsExact(tail, N);
  }

  lemma SameBases(c: Chain, d: Chain)
    requires |c| == |d| && DistinctBases(c) && forall j | 0 <= j < |c| :: c[j].base == d[j].base
    ensures DistinctBases(d)
    ensures forall s | s in d :: exists t | t in c :: t.base == s.base
  {
    forall s | s in d ensures exists t | t in c :: t.base == s.base {
      var j :| 0 <= j < |d| && d[j] == s;
      assert c[j] in c;
    }
  }

  /** A malloc leaves every block where it was and adds at most the one at `os`. */
  lemma MallocStays(c: Chain, N: nat, os: int)
    requires WfChain(c, N) && N >= 1 && DistinctBases(c) && forall s | s in c :: s.base != os
    ensures DistinctBases(Grown(c, N, os)) && DistinctBases(Malloc(c, N, os))
    ensures forall s | s in Malloc(c, N, os) :: (exists t | t in c :: t.base == s.base) || s.base == os
  {
    GrownWf(c, N, os);
    var g, m := Grown(c, N, os), Malloc(c, N, os);
    assert forall j | 0 <= j < |c| :: c[j] in c && g[j] == c[j];
    SameBases(g, m);
    forall s | s in m ensures (exists t | t in c :: t.base == s.base) || s.base == os {
      var t :| t in g && t.base == s.base;
    }
  }
}
