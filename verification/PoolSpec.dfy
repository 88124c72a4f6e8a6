/** The whole pool as a value: four chains of blocks in one address space, over whole runs. */
module PoolSpec {
  import opened SizeClasses
  import opened SlabSpec

  /** A pool whose blocks are `n` MiB each; per class, `numberOfNode`, the chain of blocks, and
      (history) the most nodes live at once so far. */
  datatype Pool = Pool(n: nat, counts: seq<nat>, chains: seq<Chain>, peak: seq<int>)

  /** Two blocks of `n` MiB do not overlap. */
  predicate Apart(n: nat, a: int, b: int) {
    a + MIB * n <= b || b + MIB * n <= a
  }

  predicate Shape(p: Pool) {
    1 <= p.n <= 557056 && |p.counts| == |p.chains| == |p.peak| == CLASSES
  }

  /** A class that grew to k blocks once had (k-1)*N+1 nodes live at the same time. */
  predicate SpaceBound(blocks: nat, live: int, N: nat, peak: int) {
    live <= peak && (blocks >= 2 ==> peak >= (blocks - 1) * N + 1)
  }

  predicate ClassOk(p: Pool, i: nat)
    requires Shape(p) && i < CLASSES
  {
    && p.counts[i] >= 1 && p.counts[i] == NodeCount(p.n, i)
    && WfChain(p.chains[i], p.counts[i])
    && DistinctBases(p.chains[i])
    && (forall a | a in p.chains[i] :: a.base % 16 == 0)
    && SpaceBound(|p.chains[i]|, LiveCount(p.chains[i], p.counts[i]), p.counts[i], p.peak[i])
  }

  /** The blocks of two classes are disjoint, and so are those of one class. */
  predicate PairOk(p: Pool, i: nat, j: nat)
    requires Shape(p) && i < CLASSES && j < CLASSES
  {
    forall a, b | a in p.chains[i] && b in p.chains[j] ::
      i != j || a.base != b.base ==> Apart(p.n, a.base, b.base)
  }

  predicate Inv(p: Pool) {
    && Shape(p)
    && (forall i | 0 <= i < CLASSES :: ClassOk(p, i))
    && (forall i, j | 0 <= i < CLASSES && 0 <= j < CLASSES :: PairOk(p, i, j))
  }

  /** What `aligned_alloc` promises about the address of a new block. */
  predicate FreshBlock(p: Pool, os: int)
    requires Shape(p)
  {
    os % 16 == 0 && forall i | 0 <= i < CLASSES :: FreshTo(p, i, os)
  }

  predicate FreshTo(p: Pool, i: nat, os: int)
    requires Shape(p) && i < CLASSES
  {
    forall a | a in p.chains[i] :: a.base != os && Apart(p.n, a.base, os)
  }

  datatype Op = MallocOp(memorySize: nat, os: int) | FreeOp(i: nat, j: nat, k: nat) | TrimOp

  /** Requests of at most 2048 bytes; frees of live nodes only. */
  predicate Legal(p: Pool, op: Op)
    requires Inv(p)
  {
    match op
    case MallocOp(memorySize, os) => memorySize <= MAX_REQUEST && FreshBlock(p, os)
    case FreeOp(i, j, k) => i < CLASSES && j < |p.chains[i]| && Live(p.chains[i][j], p.counts[i], k)
    case TrimOp => true
  }

  function Max(a: int, b: int): int {
    if a < b then b else a
  }

  function SetChain(p: Pool, i: nat, c: Chain): Pool
    requires Shape(p) && i < CLASSES
  {
    p.(chains := p.chains[i := c], peak := p.peak[i := Max(p.peak[i], LiveCount(c, p.counts[i]))])
  }

  /** Trim the first `upTo` classes. */
  function TrimAll(p: Pool, upTo: nat): (q: Pool)
    requires Shape(p) && upTo <= CLASSES && forall i | 0 <= i < CLASSES :: p.chains[i] != []
    ensures Shape(q) && q.n == p.n && q.counts == p.counts
    ensures forall i | upTo <= i < CLASSES :: q.chains[i] == p.chains[i]
  {
    if upTo == 0 then p
    else
      var q := TrimAll(p, upTo - 1);
      SetChain(q, upTo - 1, Trim(q.chains[upTo - 1], p.counts[upTo - 1]))
  }

  lemma NonEmpty(p: Pool)
    requires Inv(p)
    ensures forall i | 0 <= i < CLASSES :: p.chains[i] != []
  {
    assert ClassOk(p, 0) && ClassOk(p, 1) && ClassOk(p, 2) && ClassOk(p, 3);
  }

  function Step(p: Pool, op: Op): Pool
    requires Inv(p) && Legal(p, op)
  {
    match op
    case MallocOp(memorySize, os) =>
      ClassFits(memorySize);
      var i := ClassOf(memorySize);
      assert ClassOk(p, i);
      SetChain(p, i, Malloc(p.chains[i], p.counts[i], os))
    case FreeOp(i, j, k) => SetChain(p, i, Free(p.chains[i], j, k))
    case TrimOp => NonEmpty(p); TrimAll(p, CLASSES)
  }

  /** The address `mallocMemory` returns. */
  function Allocated(p: Pool, memorySize: nat, os: int): int
    requires Inv(p) && Legal(p, MallocOp(memorySize, os))
  {
    ClassFits(memorySize);
    var i := ClassOf(memorySize);
    assert ClassOk(p, i);
    var t := Taken(p.chains[i], p.counts[i], os);
    DataAddr(t.0, NodeSize(i), t.1)
  }

  // ---------- live areas never overlap ----------

  /** The data area of node `k` of class `i` in the block at `base`. */
  predicate InData(base: int, i: nat, k: nat, a: int) {
    DataAddr(base, NodeSize(i), k) <= a < DataAddr(base, NodeSize(i), k) + Capacity(i)
  }

  /** The whole node, the 16 bytes in front of its data area included. */
  predicate InNode(base: int, i: nat, k: nat, a: int) {
    NodeAddr(base, NodeSize(i), k) <= a < NodeAddr(base, NodeSize(i), k) + NodeSize(i)
  }

  predicate InHead(base: int, i: nat, k: nat, a: int) {
    NodeAddr(base, NodeSize(i), k) <= a < DataAddr(base, NodeSize(i), k)
  }

  predicate InHeader(base: int, a: int) {
    base <= a < base + LINKER
  }

  /** Block `j` of class `i`, and one of the nodes 0..N it was carved into. */
  predicate IsNode(p: Pool, i: nat, j: nat, k: nat)
    requires Shape(p)
  {
    i < CLASSES && j < |p.chains[i]| && k <= p.counts[i]
  }

  /** A node lies in its block, behind the header. */
  lemma NodeWithin(p: Pool, i: nat, j: nat, k: nat, a: int)
    requires Inv(p) && IsNode(p, i, j, k) && InNode(p.chains[i][j].base, i, k, a)
    ensures p.chains[i][j].base + LINKER <= a < p.chains[i][j].base + MIB * p.n
  {
    assert ClassOk(p, i);
    NodeInBlock(p.chains[i][j].base, p.n, i, k);
  }

  lemma BlocksApart(p: Pool, i: nat, j: nat, i': nat, j': nat)
    requires Inv(p) && i < CLASSES && j < |p.chains[i]| && i' < CLASSES && j' < |p.chains[i']|
    requires (i, j) != (i', j')
    ensures Apart(p.n, p.chains[i][j].base, p.chains[i'][j'].base)
  {
    assert ClassOk(p, i) && PairOk(p, i, i');
    assert p.chains[i][j] in p.chains[i] && p.chains[i'][j'] in p.chains[i'];
  }

  /** Blocks are carved without overlap: no byte is in two nodes, nor in a node and a header. */
  lemma NodesDisjoint(p: Pool, i: nat, j: nat, k: nat, i': nat, j': nat, k': nat, a: int)
    requires Inv(p) && IsNode(p, i, j, k) && IsNode(p, i', j', k')
    requires InNode(p.chains[i][j].base, i, k, a)
    ensures !InHeader(p.chains[i'][j'].base, a)
    ensures InNode(p.chains[i'][j'].base, i', k', a) ==> (i, j, k) == (i', j', k')
  {
    NodeWithin(p, i, j, k, a);
    if InNode(p.chains[i'][j'].base, i', k', a) {
      NodeWithin(p, i', j', k', a);
    }
    if (i, j) != (i', j') {
      BlocksApart(p, i, j, i', j');
    } else if k < k' {
      NodeGap(p.chains[i][j].base, NodeSize(i), k, k');
    } else if k' < k {
      NodeGap(p.chains[i][j].base, NodeSize(i), k', k);
    }
  }

  /** A live area is aligned, lies in its block, and shares no byte with its own head, with the
      header of any block, or with any other node of any block: live, free or spare. */
  lemma LiveAreasDisjoint(p: Pool, i: nat, j: nat, k: nat, i': nat, j': nat, k': nat, a: int)
    requires Inv(p) && Legal(p, FreeOp(i, j, k)) && IsNode(p, i', j', k')
    ensures DataAddr(p.chains[i][j].base, NodeSize(i), k) % 16 == 0
    ensures InData(p.chains[i][j].base, i, k, a) ==>
              && p.chains[i][j].base <= a < p.chains[i][j].base + MIB * p.n
              && !InHeader(p.chains[i'][j'].base, a)
              && !InHead(p.chains[i'][j'].base, i', k', a)
              && (InNode(p.chains[i'][j'].base, i', k', a) ==> (i, j, k) == (i', j', k'))
  {
    assert ClassOk(p, i) && p.chains[i][j] in p.chains[i];
    DataAligned(p.chains[i][j].base, i, k);
    if InData(p.chains[i][j].base, i, k, a) {
      NodeWithin(p, i, j, k, a);
      NodesDisjoint(p, i, j, k, i', j', k', a);
    }
  }

  /** What a malloc returns, and the block it may add, share no byte with any live node. */
  lemma MallocSpares(p: Pool, memorySize: nat, os: int, i: nat, j: nat, k: nat, a: int)
    requires Inv(p) && Legal(p, MallocOp(memorySize, os)) && Legal(p, FreeOp(i, j, k))
    requires InNode(p.chains[i][j].base, i, k, a)
    ensures !(os <= a < os + MIB * p.n)
    ensures var r := Allocated(p, memorySize, os);
      !(r - HEAD <= a < r + Capacity(ClassOf(memorySize)))
  {
    ClassFits(memorySize);
    var c := ClassOf(memorySize);
    assert ClassOk(p, c) && ClassOk(p, i) && FreshTo(p, i, os) && p.chains[i][j] in p.chains[i];
    NodeWithin(p, i, j, k, a);
    var N, f := p.counts[c], FirstFit(p.chains[c]);
    GrownWf(p.chains[c], N, os);
    PopSlab(Grown(p.chains[c], N, os)[f], N);
    var node := Taken(p.chains[c], N, os).1;
    if f < |p.chains[c]| {
      if (i, j) == (c, f) {
        assert k != node;
      }
      NodesDisjoint(p, i, j, k, c, f, node, a);
    } else {
      NodeInBlock(os, p.n, c, node);
    }
  }

  // ---------- live counts ----------

  lemma {:induction false} LiveCountSet(c: Chain, N: nat, i: nat, s: Slab)
    requires i < |c|
    ensures LiveCount(c[i := s], N) == LiveCount(c, N) + Count(c[i]) - Count(s)
  {
    if i > 0 {
      LiveCountSet(c[1..], N, i - 1, s);
      assert c[i := s][1..] == c[1..][i - 1 := s];
    } else {
      assert c[i := s][1..] == c[1..];
    }
  }

  lemma {:induction false} LiveCountGrow(c: Chain, N: nat, s: Slab)
    ensures LiveCount(c + [s], N) == LiveCount(c, N) + N - Count(s)
  {
    if c == [] {
      assert [s][1..] == [];
    } else {
      LiveCountGrow(c[1..], N, s);
      assert (c + [s])[1..] == c[1..] + [s];
    }
  }

  lemma {:induction false} LiveCountFull(c: Chain, N: nat)
    requires forall i | 0 <= i < |c| :: Count(c[i]) == 0
    ensures LiveCount(c, N) == |c| * N
  {
    if c == [] {
    } else {
      LiveCountFull(c[1..], N);
      assert |c| * N == N + (|c| - 1) * N;
    }
  }

  /** A malloc adds one live node; when it has to add a block, all the others were full. */
  lemma MallocCounts(c: Chain, N: nat, os: int)
    requires WfChain(c, N) && N >= 1
    ensures LiveCount(Malloc(c, N, os), N) == LiveCount(c, N) + 1
    ensures |Malloc(c, N, os)| == |c| || (|Malloc(c, N, os)| == |c| + 1 && LiveCount(c, N) == |c| * N)
  {
    FirstFitExact(c);
    GrownWf(c, N, os);
    var g, f := Grown(c, N, os), FirstFit(c);
    LiveCountSet(g, N, f, Pop(g[f]));
    if f == |c| {
      LiveCountGrow(c, N, Slab(os, Carved(N)));
      LiveCountFull(c, N);
    }
  }

  // ---------- every step keeps the invariant ----------

  /** Where the blocks of a chain that replaces the one of class `i` may be. */
  predicate OldOrFresh(p: Pool, i: nat, c: Chain, os: int)
    requires Shape(p) && i < CLASSES
  {
    forall s | s in c :: (exists t | t in p.chains[i] :: t.base == s.base) || (s.base == os && FreshBlock(p, os))
  }

  lemma Origin(p: Pool, i: nat, c: Chain, os: int, j: nat, a: Slab)
    requires Shape(p) && i < CLASSES && OldOrFresh(p, i, c, os) && j < CLASSES
    requires a in SetChain(p, i, c).chains[j]
    ensures (exists t | t in p.chains[j] :: t.base == a.base) || (i == j && a.base == os && FreshBlock(p, os))
  {
  }

  lemma SetChainPairs(p: Pool, i: nat, c: Chain, os: int, i1: nat, i2: nat)
    requires Shape(p) && i < CLASSES && OldOrFresh(p, i, c, os) && i1 < CLASSES && i2 < CLASSES
    requires PairOk(p, i1, i2)
    ensures PairOk(SetChain(p, i, c), i1, i2)
  {
    var q := SetChain(p, i, c);
    forall a, b | a in q.chains[i1] && b in q.chains[i2] && (i1 != i2 || a.base != b.base)
      ensures Apart(q.n, a.base, b.base)
    {
      Origin(p, i, c, os, i1, a);
      Origin(p, i, c, os, i2, b);
      if !(exists t | t in p.chains[i1] :: t.base == a.base) {
        assert FreshTo(p, i2, os);
      } else if !(exists t | t in p.chains[i2] :: t.base == b.base) {
        assert FreshTo(p, i1, os);
      }
    }
  }

  /** A chain may replace that of class `i` when it keeps the class invariant and stays in place. */
  lemma SetChainInv(p: Pool, i: nat, c: Chain, os: int)
    requires Inv(p) && i < CLASSES && OldOrFresh(p, i, c, os)
    requires WfChain(c, p.counts[i]) && DistinctBases(c)
    requires SpaceBound(|c|, LiveCount(c, p.counts[i]), p.counts[i], Max(p.peak[i], LiveCount(c, p.counts[i])))
    ensures Inv(SetChain(p, i, c))
  {
    var q := SetChain(p, i, c);
    forall j | 0 <= j < CLASSES ensures ClassOk(q, j) {
      assert ClassOk(p, j);
    }
    forall i1, i2 | 0 <= i1 < CLASSES && 0 <= i2 < CLASSES ensures PairOk(q, i1, i2) {
      SetChainPairs(p, i, c, os, i1, i2);
    }
  }

  /** A malloc keeps the space bound: a block is added only when all the others are full. */
  lemma SpaceGrows(before: nat, after: nat, N: nat, live: int, peak: int)
    requires SpaceBound(before, live, N, peak)
    requires after == before || (after == before + 1 && live == before * N)
    ensures SpaceBound(after, live + 1, N, Max(peak, live + 1))
  {
  }

  lemma SpaceShrinks(before: nat, after: nat, N: nat, live: int, peak: int)
    requires SpaceBound(before, live, N, peak) && after <= before
    ensures SpaceBound(after, live, N, Max(peak, live))
  {
    assert (before - 1) * N == (after - 1) * N + (before - after) * N;
  }

  lemma MallocKeepsInv(p: Pool, memorySize: nat, os: int)
    requires Inv(p) && Legal(p, MallocOp(memorySize, os))
    ensures Inv(Step(p, MallocOp(memorySize, os)))
  {
    ClassFits(memorySize);
    var i := ClassOf(memorySize);
    assert ClassOk(p, i) && FreshTo(p, i, os);
    var c, N := p.chains[i], p.counts[i];
    MallocStays(c, N, os);
    MallocExact(c, N, os);
    MallocCounts(c, N, os);
    SpaceGrows(|c|, |Malloc(c, N, os)|, N, LiveCount(c, N), p.peak[i]);
    SetChainInv(p, i, Malloc(c, N, os), os);
  }

  lemma FreeKeepsInv(p: Pool, i: nat, j: nat, k: nat)
    requires Inv(p) && Legal(p, FreeOp(i, j, k))
    ensures Inv(Step(p, FreeOp(i, j, k)))
  {
    assert ClassOk(p, i);
    var c, d := p.chains[i], Free(p.chains[i], j, k);
    FreeExact(c, p.counts[i], j, k);
    LiveCountSet(c, p.counts[i], j, d[j]);
    SameBases(c, d);
    SetChainInv(p, i, d, 0);
  }

  lemma TrimChain(p: Pool, i: nat)
    requires Inv(p) && i < CLASSES && p.chains[i] != []
    ensures Inv(SetChain(p, i, Trim(p.chains[i], p.counts[i])))
  {
    assert ClassOk(p, i);
    var c, N := p.chains[i], p.counts[i];
    TrimExact(c, N);
    TrimDistinct(c, N);
    SpaceShrinks(|c|, |Trim(c, N)|, N, LiveCount(c, N), p.peak[i]);
    SetChainInv(p, i, Trim(c, N), 0);
  }

  lemma {:induction false} TrimKeepsInv(p: Pool, upTo: nat)
    requires Inv(p) && upTo <= CLASSES && forall i | 0 <= i < CLASSES :: p.chains[i] != []
    ensures Inv(TrimAll(p, upTo))
  {
    if upTo == 0 {
    } else {
      TrimKeepsInv(p, upTo - 1);
      TrimChain(TrimAll(p, upTo - 1), upTo - 1);
    }
  }

  lemma StepKeepsInv(p: Pool, op: Op)
    requires Inv(p) && Legal(p, op)
    ensures Inv(Step(p, op))
  {
    match op
    case MallocOp(memorySize, os) => MallocKeepsInv(p, memorySize, os);
    case FreeOp(i, j, k) => FreeKeepsInv(p, i, j, k);
    case TrimOp => NonEmpty(p); TrimKeepsInv(p, CLASSES);
  }

  // ---------- whole runs ----------

  predicate LegalRun(p: Pool, ops: seq<Op>)
    requires Inv(p)
    decreases |ops|
  {
    ops == [] || (Legal(p, ops[0]) && (StepKeepsInv(p, ops[0]); LegalRun(Step(p, ops[0]), ops[1..])))
  }

  function Run(p: Pool, ops: seq<Op>): Pool
    requires Inv(p) && LegalRun(p, ops)
    decreases |ops|
  {
    if ops == [] then p else StepKeepsInv(p, ops[0]); Run(Step(p, ops[0]), ops[1..])
  }

  /** The pool the constructor builds, given where its four blocks were allocated. */
  function Init(n: nat, bases: seq<int>): Pool
    requires 1 <= n && |bases| == CLASSES
  {
    BlocksHaveRoom(n, 0); BlocksHaveRoom(n, 1); BlocksHaveRoom(n, 2); BlocksHaveRoom(n, 3);
    var counts: seq<nat> := [NodeCount(n, 0), NodeCount(n, 1), NodeCount(n, 2), NodeCount(n, 3)];
    Pool(n, counts, seq(CLASSES, i requires 0 <= i < CLASSES => [Slab(bases[i], Carved(counts[i]))]), [0, 0, 0, 0])
  }

  lemma InitInv(n: nat, bases: seq<int>)
    requires 1 <= n <= 557056 && |bases| == CLASSES
    requires forall i | 0 <= i < CLASSES :: bases[i] % 16 == 0
    requires forall i, j | 0 <= i < j < CLASSES :: Apart(n, bases[i], bases[j])
    ensures Inv(Init(n, bases))
  {
    var p := Init(n, bases);
    forall i | 0 <= i < CLASSES ensures ClassOk(p, i) {
      BlocksHaveRoom(n, i);
      var s := Slab(bases[i], Carved(p.counts[i]));
      assert p.chains[i] == [s];
      CarvedSlab(bases[i], p.counts[i]);
      assert LiveCount([s], p.counts[i]) == 0 + LiveCount([], p.counts[i]);
    }
    forall i, j | 0 <= i < CLASSES && 0 <= j < CLASSES ensures PairOk(p, i, j) {
      assert p.chains[i] == [Slab(bases[i], Carved(p.counts[i]))];
      assert p.chains[j] == [Slab(bases[j], Carved(p.counts[j]))];
    }
  }

  /** Over every interleaving of mallocs, frees and trims: the representation invariant holds,
      and a class never has k >= 2 blocks of N nodes unless (k-1)*N+1 nodes were live at once. */
  lemma {:induction false} RunKeepsInv(p: Pool, ops: seq<Op>, i: nat)
    requires Inv(p) && LegalRun(p, ops) && i < CLASSES
    ensures var r := Run(p, ops);
      && Inv(r)
      && (|r.chains[i]| >= 2 ==> r.peak[i] >= (|r.chains[i]| - 1) * r.counts[i] + 1)
    decreases |ops|
  {
    if ops != [] {
      StepKeepsInv(p, ops[0]);
      RunKeepsInv(Step(p, ops[0]), ops[1..], i);
    } else {
      assert ClassOk(p, i);
    }
  }

  /** `peak` is no more than what was live before, or is live now. */
  lemma StepPeak(p: Pool, op: Op, i: nat)
    requires Inv(p) && Legal(p, op) && i < CLASSES
    ensures var q := Step(p, op);
      Shape(q) && q.counts == p.counts && q.peak[i] <= Max(p.peak[i], LiveCount(q.chains[i], p.counts[i]))
  {
    if op == TrimOp {
      NonEmpty(p);
      TrimPeak(p, CLASSES, i);
    }
  }

  lemma {:induction false} TrimPeak(p: Pool, upTo: nat, i: nat)
    requires Inv(p) && upTo <= CLASSES && i < CLASSES && forall h | 0 <= h < CLASSES :: p.chains[h] != []
    ensures TrimAll(p, upTo).peak[i] <= Max(p.peak[i], LiveCount(TrimAll(p, upTo).chains[i], p.counts[i]))
  {
    if upTo == 0 {
    } else {
      TrimPeak(p, upTo - 1, i);
      if i == upTo - 1 {
        var q := TrimAll(p, i);
        assert ClassOk(p, i) && q.chains[i] == p.chains[i];
        TrimExact(p.chains[i], p.counts[i]);
      }
    }
  }

  /** Some part of the run left at least `bound` nodes of class `i` live together. */
  ghost predicate OnceLive(p: Pool, ops: seq<Op>, i: nat, bound: int)
    requires Inv(p) && i < CLASSES
  {
    exists m: nat :: m <= |ops| && LiveAfter(p, ops[..m], i, bound)
  }

  predicate LiveAfter(p: Pool, ops: seq<Op>, i: nat, bound: int)
    requires Inv(p) && i < CLASSES
  {
    LegalRun(p, ops) &&
    var q := Run(p, ops);
    Shape(q) && LiveCount(q.chains[i], p.counts[i]) >= bound
  }

  /** One operation more in front. */
  lemma LiveLater(p: Pool, ops: seq<Op>, i: nat, bound: int)
    requires Inv(p) && ops != [] && Legal(p, ops[0]) && i < CLASSES
    requires Inv(Step(p, ops[0])) && Step(p, ops[0]).counts == p.counts
    requires OnceLive(Step(p, ops[0]), ops[1..], i, bound)
    ensures OnceLive(p, ops, i, bound)
  {
    var m: nat :| m <= |ops[1..]| && LiveAfter(Step(p, ops[0]), ops[1..][..m], i, bound);
    assert ops[..m + 1][1..] == ops[1..][..m];
    assert LiveAfter(p, ops[..m + 1], i, bound);
  }

  lemma LiveNow(p: Pool, ops: seq<Op>, i: nat, bound: int)
    requires Inv(p) && i < CLASSES && LiveCount(p.chains[i], p.counts[i]) >= bound
    ensures OnceLive(p, ops, i, bound)
  {
    assert ops[..0] == [];
    assert LiveAfter(p, ops[..0], i, bound);
  }

  lemma {:induction false} PeakReached(p: Pool, ops: seq<Op>, i: nat)
    requires Inv(p) && LegalRun(p, ops) && i < CLASSES
    ensures var r := Run(p, ops);
      && Shape(r) && r.counts == p.counts
      && (r.peak[i] <= p.peak[i] || OnceLive(p, ops, i, r.peak[i]))
    decreases |ops|
  {
    if ops == [] {
      assert Run(p, ops) == p;
    } else {
      StepKeepsInv(p, ops[0]);
      StepPeak(p, ops[0], i);
      var q, r := Step(p, ops[0]), Run(p, ops);
      PeakReached(q, ops[1..], i);
      if r.peak[i] > p.peak[i] {
        if r.peak[i] <= q.peak[i] {
          LiveNow(q, ops[1..], i, r.peak[i]);
        }
        LiveLater(p, ops, i, r.peak[i]);
      }
    }
  }

  lemma AtLeast(p: Pool, ops: seq<Op>, i: nat, bound: int, peak: int)
    requires Inv(p) && i < CLASSES && p.peak[i] < bound <= peak
    requires peak <= p.peak[i] || OnceLive(p, ops, i, peak)
    ensures OnceLive(p, ops, i, bound)
  {
    var m: nat :| m <= |ops| && LiveAfter(p, ops[..m], i, peak);
    assert LiveAfter(p, ops[..m], i, bound);
  }

  lemma BoundPositive(blocks: nat, N: nat)
    requires blocks >= 2
    ensures (blocks - 1) * N + 1 > 0
  {
  }

  lemma GrowthPaid(p: Pool, ops: seq<Op>, i: nat, blocks: nat)
    requires Inv(p) && LegalRun(p, ops) && i < CLASSES && p.peak[i] == 0
    requires Shape(Run(p, ops)) && blocks == |Run(p, ops).chains[i]| >= 2
    ensures OnceLive(p, ops, i, (blocks - 1) * p.counts[i] + 1)
  {
    RunKeepsInv(p, ops, i);
    PeakReached(p, ops, i);
    BoundPositive(blocks, p.counts[i]);
    AtLeast(p, ops, i, (blocks - 1) * p.counts[i] + 1, Run(p, ops).peak[i]);
  }

  /** Blocks are never added without need: a class that has k >= 2 blocks of N nodes had
      (k-1)*N+1 nodes live together after some part of the run. */
  lemma SpaceWasNeeded(n: nat, bases: seq<int>, ops: seq<Op>, i: nat)
    requires 1 <= n && |bases| == CLASSES && i < CLASSES
    requires Inv(Init(n, bases)) && LegalRun(Init(n, bases), ops)
    ensures var p := Init(n, bases); var r := Run(p, ops);
      && Shape(r)
      && (|r.chains[i]| >= 2 ==> OnceLive(p, ops, i, (|r.chains[i]| - 1) * p.counts[i] + 1))
  {
    var p := Init(n, bases);
    PeakReached(p, ops, i);
    if |Run(p, ops).chains[i]| >= 2 {
      GrowthPaid(p, ops, i, |Run(p, ops).chains[i]|);
    }
  }
}
