/** The pool in memory: blocks carved into nodes whose first word is the next free node while
    the node is free and the owning block while it is live. */
module PoolMemory {
  import opened Sequences
  import opened SizeClasses
  import opened SlabSpec
  import opened PoolSpec

  /** `nodePointLinker`, the header of a block. */
  class Linker {
    const start: int             // where the block begins
    ghost const cls: nat         // the size class it was carved for
    var currentNodeNumber: int
    var nextNodePoint: int       // first node of the free list
    var nextPoint: Linker?

    constructor (start: int, numberOfNode: int, ghost cls: nat)
      ensures this.start == start && this.cls == cls && currentNodeNumber == numberOfNode
      ensures nextNodePoint == start + LINKER && nextPoint == null
    {
      this.start, this.cls, currentNodeNumber := start, cls, numberOfNode;
      nextNodePoint, nextPoint := start + LINKER, null;
    }
  }

  /** A word of memory. A node's first word is one of the first three, by what it is used for. */
  datatype Word = Link(next: int) | End | Owner(linker: Linker) | Data(value: int)

  type Memory = map<int, Word>

  predicate Holds(w: Memory, a: int, x: Word) {
    a in w && w[a] == x
  }

  /** The free list is linked through the first words of its nodes and ends in null. */
  predicate FreeLinks(w: Memory, base: int, size: nat, free: seq<nat>) {
    free == [] ||
    (&& Holds(w, NodeAddr(base, size, free[0]), if |free| == 1 then End else Link(NodeAddr(base, size, free[1])))
     && FreeLinks(w, base, size, free[1..]))
  }

  /** The first word of every live node is its block. */
  predicate Owners(w: Memory, l: Linker, s: Slab, N: nat, size: nat) {
    forall k: nat | k < N && k !in s.free :: Holds(w, NodeAddr(s.base, size, k), Owner(l))
  }

  predicate Words(w: Memory, l: Linker, s: Slab, N: nat, size: nat) {
    FreeLinks(w, s.base, size, s.free) && Owners(w, l, s, N, size)
  }

  predicate Agree(w: Memory, w': Memory, a: int) {
    (a in w <==> a in w') && (a in w ==> w[a] == w'[a])
  }

  lemma {:induction false} FreeLinksFrame(w: Memory, w': Memory, base: int, size: nat, free: seq<nat>)
    requires FreeLinks(w, base, size, free)
    requires forall k | k in free :: Agree(w, w', NodeAddr(base, size, k))
    ensures FreeLinks(w', base, size, free)
  {
    if free == [] {
    } else {
      assert free == [free[0]] + free[1..];
      FreeLinksFrame(w, w', base, size, free[1..]);
    }
  }

  lemma WordsFrame(w: Memory, w': Memory, l: Linker, s: Slab, N: nat, size: nat)
    requires WfSlab(s, N) && Words(w, l, s, N, size)
    requires forall k: nat | k <= N :: Agree(w, w', NodeAddr(s.base, size, k))
    ensures Words(w', l, s, N, size)
  {
    FreeLinksFrame(w, w', s.base, size, s.free);
    forall k: nat | k < N && k !in s.free ensures Holds(w', NodeAddr(s.base, size, k), Owner(l)) {
      assert Agree(w, w', NodeAddr(s.base, size, k));
    }
  }

  /** The overlay, word by word: a node's first word is its block exactly while the node is live,
      the link to the next free node exactly while it is free, and null in the spare node only. */
  lemma FirstWordTells(w: Memory, l: Linker, s: Slab, N: nat, size: nat, k: nat)
    requires WfSlab(s, N) && Words(w, l, s, N, size) && k <= N
    ensures var a := NodeAddr(s.base, size, k);
      && a in w
      && (Live(s, N, k) <==> w[a].Owner?) && (w[a].Owner? ==> w[a].linker == l)
      && (k == N <==> w[a] == End)
      && (k in s.free && k != N <==> w[a].Link?)
      && (w[a].Link? ==> exists j | 0 <= j < |s.free| - 1 ::
            s.free[j] == k && w[a].next == NodeAddr(s.base, size, s.free[j + 1]))
  {
    if k in s.free {
      var j :| 0 <= j < |s.free| && s.free[j] == k;
      FreeWord(w, s.base, size, s.free, j);
      if k == N {
        LastOnce(s.free, j);
      }
    } else {
      assert s.free[|s.free| - 1] == N;
      assert Holds(w, NodeAddr(s.base, size, k), Owner(l));
    }
  }

  lemma {:induction false} FreeWord(w: Memory, base: int, size: nat, free: seq<nat>, j: nat)
    requires FreeLinks(w, base, size, free) && j < |free|
    ensures Holds(w, NodeAddr(base, size, free[j]),
              if j + 1 < |free| then Link(NodeAddr(base, size, free[j + 1])) else End)
  {
    if j == 0 {
    } else {
      var rest := free[1..];
      FreeWord(w, base, size, rest, j - 1);
      assert rest[j - 1] == free[j];
      assert j + 1 < |free| ==> rest[j] == free[j + 1];
    }
  }

  lemma {:induction false} LastOnce(free: seq<nat>, j: nat)
    requires NoDup(free) && j < |free| && free[j] == free[|free| - 1]
    ensures j == |free| - 1
  {
    if j == 0 {
    } else {
      LastOnce(free[1..], j - 1);
    }
  }

  lemma NodesDiffer(base: int, size: nat, j: nat, k: nat)
    requires size > 0 && j != k
    ensures NodeAddr(base, size, j) != NodeAddr(base, size, k)
  {
    if j < k { NodeGap(base, size, j, k); } else { NodeGap(base, size, k, j); }
  }

  /** Handing out the first free node: its link word becomes its owner word. */
  lemma TakeWords(w: Memory, l: Linker, s: Slab, N: nat, size: nat)
    requires WfSlab(s, N) && Count(s) != 0 && Words(w, l, s, N, size) && size > 0
    ensures Words(w[NodeAddr(s.base, size, s.free[0]) := Owner(l)], l, Pop(s), N, size)
    ensures Holds(w, NodeAddr(s.base, size, s.free[0]), Link(NodeAddr(s.base, size, s.free[1])))
  {
    var x := s.free[0];
    var w' := w[NodeAddr(s.base, size, x) := Owner(l)];
    assert s.free == [x] + s.free[1..];
    forall k: nat | k != x ensures Agree(w, w', NodeAddr(s.base, size, k)) {
      NodesDiffer(s.base, size, k, x);
    }
    FreeLinksFrame(w, w', s.base, size, s.free[1..]);
    forall k: nat | k < N && k !in s.free[1..] ensures Holds(w', NodeAddr(s.base, size, k), Owner(l)) {
      assert k != x ==> Agree(w, w', NodeAddr(s.base, size, k));
    }
  }

  /** Giving a node back: its owner word becomes a link to the previous first free node. */
  lemma GiveWords(w: Memory, l: Linker, s: Slab, N: nat, size: nat, k: nat)
    requires WfSlab(s, N) && Live(s, N, k) && Words(w, l, s, N, size) && size > 0
    ensures var s' := s.(free := [k] + s.free);
      Words(w[NodeAddr(s.base, size, k) := Link(NodeAddr(s.base, size, s.free[0]))], l, s', N, size)
  {
    var w' := w[NodeAddr(s.base, size, k) := Link(NodeAddr(s.base, size, s.free[0]))];
    var s' := s.(free := [k] + s.free);
    forall j: nat | j != k ensures Agree(w, w', NodeAddr(s.base, size, j)) {
      NodesDiffer(s.base, size, j, k);
    }
    FreeLinksFrame(w, w', s.base, size, s.free);
    assert s'.free[1..] == s.free;
    forall j: nat | j < N && j !in s'.free ensures Holds(w', NodeAddr(s.base, size, j), Owner(l)) {
      assert j != k && j !in s.free;
      assert Agree(w, w', NodeAddr(s.base, size, j));
    }
  }

  lemma {:induction false} CarvedLinks(w: Memory, base: int, size: nat, N: nat, m: nat)
    requires m <= N
    requires forall k: nat | k < N :: Holds(w, NodeAddr(base, size, k), Link(NodeAddr(base, size, k + 1)))
    requires Holds(w, NodeAddr(base, size, N), End)
    ensures FreeLinks(w, base, size, Carved(N)[m..])
    decreases N - m
  {
    var free := Carved(N)[m..];
    if m == N {
    } else {
      CarvedLinks(w, base, size, N, m + 1);
      assert free[1..] == Carved(N)[m + 1..] && free[0] == m && free[1] == m + 1;
    }
  }

  /** A carved block has no live node, so its links are all there is to say about it. */
  lemma CarvedWords(w: Memory, l: Linker, base: int, N: nat, size: nat)
    requires FreeLinks(w, base, size, Carved(N))
    ensures Words(w, l, Slab(base, Carved(N)), N, size)
  {
    forall k: nat | k < N ensures k in Carved(N) {
      assert Carved(N)[k] == k;
    }
  }

  /** The carving loop of `nodePointLinker`. */
  method Carve(w: Memory, base: int, N: nat, size: nat) returns (w': Memory)
    requires size > 0
    ensures FreeLinks(w', base, size, Carved(N))
    ensures forall a :: Agree(w, w', a) || base + LINKER <= a <= NodeAddr(base, size, N)
  {
    w' := w;
    var assist := base + LINKER;
    for n := 0 to N
      invariant assist == NodeAddr(base, size, n) >= base + LINKER
      invariant forall k: nat | k < n :: Holds(w', NodeAddr(base, size, k), Link(NodeAddr(base, size, k + 1)))
      invariant forall a :: Agree(w, w', a) || base + LINKER <= a < NodeAddr(base, size, n)
    {
      forall k: nat | k < n ensures NodeAddr(base, size, k) < NodeAddr(base, size, n) {
        NodeGap(base, size, k, n);
      }
      NodeGap(base, size, n, n + 1);
      assert NodeAddr(base, size, n + 1) == assist + size;
      ghost var before := w';
      w' := w'[assist := Link(assist + size)];
      assist := assist + size;
      forall a | !(base + LINKER <= a < NodeAddr(base, size, n + 1)) ensures Agree(w, w', a) {
        assert Agree(w, before, a);
      }
    }
    forall k: nat | k < N ensures NodeAddr(base, size, k) < NodeAddr(base, size, N) {
      NodeGap(base, size, k, N);
    }
    ghost var before := w';
    w' := w'[assist := End];
    forall a | !(base + LINKER <= a <= NodeAddr(base, size, N)) ensures Agree(w, w', a) {
      assert Agree(w, before, a);
    }
    CarvedLinks(w', base, size, N, 0);
    assert Carved(N)[0..] == Carved(N);
  }
}

/** One size class: `nodePointLinkerHead` and the chain of blocks behind it. */
module SlabClasses {
  import opened SizeClasses
  import opened SlabSpec
  import opened PoolSpec
  import opened PoolMemory

  /** What the pool guarantees of a chain as a value: well formed, distinct, disjoint blocks. */
  predicate Blocks(n: nat, i: nat, c: Chain) {
    && 1 <= n && i < CLASSES && NodeCount(n, i) >= 1
    && WfChain(c, NodeCount(n, i)) && DistinctBases(c)
    && (forall j, k | 0 <= j < k < |c| :: ApartAt(n, c, j, k))
  }

  predicate ApartAt(n: nat, c: Chain, j: nat, k: nat)
    requires j < |c| && k < |c|
  {
    Apart(n, c[j].base, c[k].base)
  }

  lemma NodesApart(n: nat, i: nat, base: int, j: nat, base': int, k: nat, m: nat)
    requires n >= 1 && i < CLASSES && j < CLASSES && Apart(n, base, base')
    requires k <= NodeCount(n, i) && m <= NodeCount(n, j)
    ensures NodeAddr(base, NodeSize(i), k) != NodeAddr(base', NodeSize(j), m)
  {
    NodeInBlock(base, n, i, k);
    NodeInBlock(base', n, j, m);
  }

  lemma SetBlock(n: nat, i: nat, c: Chain, j: nat, s: Slab)
    requires Blocks(n, i, c) && j < |c| && s.base == c[j].base && WfSlab(s, NodeCount(n, i))
    ensures Blocks(n, i, c[j := s])
  {
    var d := c[j := s];
    SameBases(c, d);
    forall h, k | 0 <= h < k < |d| ensures ApartAt(n, d, h, k) {
      assert ApartAt(n, c, h, k);
    }
  }

  lemma FreeBlocks(n: nat, i: nat, c: Chain, j: nat, k: nat)
    requires Blocks(n, i, c) && j < |c| && Live(c[j], NodeCount(n, i), k)
    ensures Blocks(n, i, Free(c, j, k))
  {
    FreeExact(c, NodeCount(n, i), j, k);
    SetBlock(n, i, c, j, c[j].(free := [k] + c[j].free));
  }

  /** Writing a node of block `j` leaves the words of the other blocks alone. */
  lemma OtherWords(n: nat, i: nat, c: Chain, j: nat, k: nat, m: nat, w: Memory, x: Word, l: Linker)
    requires Blocks(n, i, c) && j < |c| && m < |c| && m != j && k <= NodeCount(n, i)
    requires Words(w, l, c[m], NodeCount(n, i), NodeSize(i))
    ensures Words(w[NodeAddr(c[j].base, NodeSize(i), k) := x], l, c[m], NodeCount(n, i), NodeSize(i))
  {
    var w' := w[NodeAddr(c[j].base, NodeSize(i), k) := x];
    assert if j < m then ApartAt(n, c, j, m) else ApartAt(n, c, m, j);
    forall h: nat | h <= NodeCount(n, i) ensures Agree(w, w', NodeAddr(c[m].base, NodeSize(i), h)) {
      NodesApart(n, i, c[m].base, i, c[j].base, h, k);
    }
    WordsFrame(w, w', l, c[m], NodeCount(n, i), NodeSize(i));
  }

  lemma GrowBlocks(n: nat, i: nat, c: Chain, os: int)
    requires Blocks(n, i, c) && forall s | s in c :: s.base != os && Apart(n, s.base, os)
    ensures Blocks(n, i, c + [Slab(os, Carved(NodeCount(n, i)))])
  {
    CarvedSlab(os, NodeCount(n, i));
    var d := c + [Slab(os, Carved(NodeCount(n, i)))];
    assert forall j | 0 <= j < |c| :: d[j] == c[j] && c[j] in c;
    forall j, k | 0 <= j < k < |d| ensures ApartAt(n, d, j, k) {
      assert k < |c| ==> ApartAt(n, c, j, k);
    }
  }

  /** Writing inside a block at `os` leaves the words of the blocks of this chain alone. */
  lemma OutsideWords(n: nat, i: nat, c: Chain, m: nat, os: int, w: Memory, w': Memory, l: Linker)
    requires Blocks(n, i, c) && m < |c| && Apart(n, c[m].base, os)
    requires Words(w, l, c[m], NodeCount(n, i), NodeSize(i))
    requires forall a :: Agree(w, w', a) || os <= a < os + MIB * n
    ensures Words(w', l, c[m], NodeCount(n, i), NodeSize(i))
  {
    forall h: nat | h <= NodeCount(n, i) ensures Agree(w, w', NodeAddr(c[m].base, NodeSize(i), h)) {
      NodeInBlock(c[m].base, n, i, h);
    }
    WordsFrame(w, w', l, c[m], NodeCount(n, i), NodeSize(i));
  }

  lemma DropBlock(n: nat, i: nat, c: Chain, j: nat)
    requires Blocks(n, i, c) && 1 <= j < |c|
    ensures Blocks(n, i, c[..j] + c[j + 1..])
  {
    var d := c[..j] + c[j + 1..];
    forall h, k | 0 <= h < k < |d| ensures ApartAt(n, d, h, k) && d[h].base != d[k].base {
      var h', k' := if h < j then h else h + 1, if k < j then k else k + 1;
      assert ApartAt(n, c, h', k') && c[h'].base != c[k'].base;
    }
  }

  lemma Moved<T>(xs: seq<T>, ys: seq<T>, j: nat)
    requires j < |xs| && ys == xs[..j] + xs[j + 1..]
    ensures |ys| == |xs| - 1
    ensures forall m | 0 <= m < |ys| :: ys[m] == if m < j then xs[m] else xs[m + 1]
  {
  }

  /** The trim loop has dealt with the first `j` blocks of what is now `d`. */
  predicate Pending(c: Chain, d: Chain, j: nat, N: nat) {
    && c != [] && j <= |d|
    && d[..j] + Survivors(d[j..], N) == Trim(c, N)
    && forall s | s in d :: s in c
  }

  /** Releasing a block without live nodes is a step of the trim loop. */
  lemma DropStep(c: Chain, d: Chain, j: nat, N: nat)
    requires Pending(c, d, j, N) && j < |d| && Count(d[j]) == N
    ensures Pending(c, d[..j] + d[j + 1..], j, N) && d[j] in c
  {
    var e := d[..j] + d[j + 1..];
    assert d[j..][1..] == d[j + 1..] && e[..j] == d[..j] && e[j..] == d[j + 1..];
  }

  /** So is walking past a block with a live node. */
  lemma KeepStep(c: Chain, d: Chain, j: nat, N: nat)
    requires Pending(c, d, j, N) && j < |d| && Count(d[j]) != N
    ensures Pending(c, d, j + 1, N)
  {
    assert d[j..][1..] == d[j + 1..];
    assert d[..j] + [d[j]] == d[..j + 1];
  }

  lemma NonePending(c: Chain, d: Chain, N: nat)
    requires Pending(c, d, |d|, N)
    ensures d == Trim(c, N)
  {
    assert d[..|d|] + [] == d;
  }

  /** Address `a` is in a block without live nodes. */
  predicate Released(n: nat, N: nat, c: Chain, a: int) {
    exists s | s in c :: Count(s) == N && s.base <= a < s.base + MIB * n
  }

  /** `w'` is `w` without some blocks of `c` that had no live node. */
  predicate Shrunk(n: nat, N: nat, c: Chain, w: Memory, w': Memory) {
    && (forall a | a in w' :: a in w && w'[a] == w[a])
    && (forall a | a in w && a !in w' :: Released(n, N, c, a))
  }

  lemma ShrunkStep(n: nat, N: nat, c: Chain, s: Slab, w: Memory, w1: Memory, w2: Memory)
    requires Shrunk(n, N, c, w, w1) && s in c && Count(s) == N
    requires w2 == map a | a in w1 && !(s.base <= a < s.base + MIB * n) :: w1[a]
    ensures Shrunk(n, N, c, w, w2)
  {
    forall a | a in w && a !in w2 ensures Released(n, N, c, a) {
      if a in w1 {
        assert s.base <= a < s.base + MIB * n;
      }
    }
  }

  class SlabClass {
    const n: nat                  // block size in MiB
    const i: nat                  // which class
    const numberOfNode: nat
    const nodeSize: nat
    const point: Linker           // the first block, never released
    ghost var chain: seq<Linker>
    ghost var model: Chain
    ghost var Repr: set<Linker>

    /** A class with one carved block. */
    constructor (n: nat, i: nat, point: Linker, ghost w: Memory)
      requires 1 <= n && i < CLASSES && NodeCount(n, i) >= 1 && point.cls == i
      requires point.currentNodeNumber == NodeCount(n, i) && point.nextPoint == null
      requires point.nextNodePoint == NodeAddr(point.start, NodeSize(i), 0)
      requires FreeLinks(w, point.start, NodeSize(i), Carved(NodeCount(n, i)))
      ensures this.n == n && this.i == i && Valid(w)
      ensures Repr == {point} && model == [Slab(point.start, Carved(NodeCount(n, i)))]
    {
      this.n, this.i, this.point := n, i, point;
      numberOfNode, nodeSize := NodeCount(n, i), NodeSize(i);
      chain, Repr := [point], {point};
      model := [Slab(point.start, Carved(NodeCount(n, i)))];
      new;
      CarvedSlab(point.start, numberOfNode);
      CarvedWords(w, point, point.start, numberOfNode, nodeSize);
    }

    ghost function Next(j: nat): Linker?
      reads this
    {
      if j + 1 < |chain| then chain[j + 1] else null
    }

    /** Block `j` is in its place in the chain, and its header is what the model says. */
    ghost predicate InPlace(j: nat)
      requires j < |chain| && j < |model|
      reads this, Repr
    {
      var l, s := chain[j], model[j];
      && l in Repr && l.nextPoint == Next(j)
      && l.start == s.base && l.currentNodeNumber == Count(s)
      && s.free != [] && l.nextNodePoint == NodeAddr(s.base, nodeSize, s.free[0])
    }

    /** The memory of block `j` is what the model says. */
    ghost predicate InMemory(w: Memory, j: nat)
      requires j < |chain| && j < |model|
      reads this
    {
      Words(w, chain[j], model[j], numberOfNode, nodeSize)
    }

    ghost predicate Valid(w: Memory)
      reads this, Repr
    {
      && Blocks(n, i, model) && numberOfNode == NodeCount(n, i) && nodeSize == NodeSize(i)
      && |chain| == |model| && chain[0] == point
      && (forall l | l in Repr :: l.cls == i)
      && (forall j | 0 <= j < |chain| :: InPlace(j))
      && (forall j | 0 <= j < |chain| :: InMemory(w, j))
    }

    /** A change of memory outside the nodes of this class does not concern it. */
    lemma Kept(w: Memory, w': Memory)
      requires Valid(w)
      requires forall j, k: nat | 0 <= j < |model| && k <= numberOfNode ::
                 Agree(w, w', NodeAddr(model[j].base, nodeSize, k))
      ensures Valid(w')
    {
      forall j | 0 <= j < |chain| ensures InMemory(w', j) {
        assert InMemory(w, j);
        WordsFrame(w, w', chain[j], model[j], numberOfNode, nodeSize);
      }
    }

    lemma StartsDiffer(w: Memory, j: nat, k: nat)
      requires Valid(w) && j < |chain| && k < |chain| && j != k
      ensures chain[j] != chain[k]
    {
      assert InPlace(j) && InPlace(k);
      assert model[j].base != model[k].base;
    }

    /** Writing a node of block `j` leaves the memory of block `m` alone. */
    lemma WriteKeeps(w: Memory, j: nat, k: nat, x: Word, m: nat)
      requires Valid(w) && j < |chain| && m < |chain| && m != j && k <= numberOfNode
      ensures chain[m] != chain[j]
      ensures InMemory(w[NodeAddr(model[j].base, nodeSize, k) := x], m)
    {
      StartsDiffer(w, j, m);
      assert InMemory(w, m);
      OtherWords(n, i, model, j, k, m, w, x, chain[m]);
    }

    /** Take the first free node of block `j`, which has one. */
    method TakeNode(l: Linker, ghost j: nat, w: Memory) returns (p: int, w': Memory)
      requires Valid(w) && j < |chain| && chain[j] == l && Count(model[j]) != 0
      modifies this`model, l
      ensures model == old(model)[j := Pop(old(model)[j])] && Valid(w')
      ensures p == DataAddr(old(model)[j].base, nodeSize, old(model)[j].free[0])
      ensures w' == w[p - HEAD := Owner(l)]
    {
      ghost var s := model[j];
      assert InPlace(j) && InMemory(w, j);
      TakeWords(w, l, s, numberOfNode, nodeSize);
      PopSlab(s, numberOfNode);
      var ret := l.nextNodePoint;
      p, w' := ret + HEAD, w[ret := Owner(l)];
      forall m | 0 <= m < |chain| && m != j ensures chain[m] != l && InMemory(w', m) {
        WriteKeeps(w, j, s.free[0], Owner(l), m);
      }
      l.currentNodeNumber := l.currentNodeNumber - 1;
      l.nextNodePoint := w[ret].next;
      SetBlock(n, i, model, j, Pop(s));
      model := model[j := Pop(s)];
      forall m | 0 <= m < |chain| ensures InPlace(m) {
        assert old(InPlace(m));
      }
    }
  
    /** Hook a carved block on after the last one. */
    method AppendBlock(last: Linker, l: Linker, ghost w: Memory)
      requires Valid(w) && last == chain[|chain| - 1] && l !in Repr
      requires forall s | s in model :: s.base != l.start && Apart(n, s.base, l.start)
      requires l.currentNodeNumber == numberOfNode && l.nextPoint == null && l.cls == i
      requires l.nextNodePoint == NodeAddr(l.start, nodeSize, 0)
      requires Words(w, l, Slab(l.start, Carved(numberOfNode)), numberOfNode, nodeSize)
      modifies this`chain, this`model, this`Repr, last`nextPoint
      ensures Valid(w) && model == old(model) + [Slab(l.start, Carved(numberOfNode))]
      ensures chain == old(chain) + [l] && Repr == old(Repr) + {l}
    {
      GrowBlocks(n, i, model, l.start);
      ghost var c := chain;
      forall m | 0 <= m < |c| ensures InMemory(w, m) && (m < |c| - 1 ==> c[m] != last) {
        if m < |c| - 1 {
          StartsDiffer(w, m, |c| - 1);
        }
      }
      assert InPlace(|c| - 1);
      last.nextPoint := l;
      chain, model, Repr := chain + [l], model + [Slab(l.start, Carved(numberOfNode))], Repr + {l};
      forall m | 0 <= m < |chain| ensures InPlace(m) && InMemory(w, m) {
        if m < |c| {
          assert old(InPlace(m)) && old(InMemory(w, m));
        }
      }
    }

    /** `getNewMemoryBlock`: carve a block at `os` and append it after the last one. */
    method GetNewMemoryBlock(last: Linker, os: int, w: Memory) returns (l: Linker, w': Memory)
      requires Valid(w) && last == chain[|chain| - 1]
      requires forall s | s in model :: s.base != os && Apart(n, s.base, os)
      modifies this`chain, this`model, this`Repr, last`nextPoint
      ensures Valid(w') && model == old(model) + [Slab(os, Carved(numberOfNode))]
      ensures chain == old(chain) + [l] && Repr == old(Repr) + {l} && fresh(l)
      ensures forall a :: Agree(w, w', a) || os <= a < os + MIB * n
    {
      l := new Linker(os, numberOfNode, i);
      w' := Carve(w, os, numberOfNode, nodeSize);
      NodeInBlock(os, n, i, numberOfNode);
      CarvedWords(w', l, os, numberOfNode, nodeSize);
      forall m, k: nat | 0 <= m < |model| && k <= numberOfNode
        ensures Agree(w, w', NodeAddr(model[m].base, nodeSize, k))
      {
        assert model[m] in model;
        NodeInBlock(model[m].base, n, i, k);
      }
      Kept(w, w');
      AppendBlock(last, l, w');
    }

    /** The search of `mallocMemory`: the first block with a node to hand out, growing the chain
        when there is none. `os` is the address `aligned_alloc` would return. */
    method FindBlock(w: Memory, os: int) returns (l: Linker, ghost j: nat, w': Memory)
      requires Valid(w) && forall s | s in model :: s.base != os && Apart(n, s.base, os)
      modifies this, Repr
      ensures Valid(w') && model == Grown(old(model), numberOfNode, os)
      ensures j == FirstFit(old(model)) < |chain| && l == chain[j] && Count(model[j]) != 0
      ensures old(Repr) <= Repr && fresh(Repr - old(Repr))
      ensures forall a :: Agree(w, w', a) || (|model| > |old(model)| && os <= a < os + MIB * n)
    {
      var assist: Linker? := point;
      var prev := point;
      ghost var grown, c := false, model;
      j, w' := 0, w;
      while true
        invariant Valid(w') && j <= |chain|
        invariant assist == (if j < |chain| then chain[j] else null)
        invariant prev == chain[if j == 0 then 0 else j - 1]
        invariant forall m | 0 <= m < |c| && (m < j || grown) :: Count(c[m]) == 0
        invariant !grown ==> w' == w && model == c && Repr == old(Repr)
        invariant grown ==> model == c + [Slab(os, Carved(numberOfNode))] && |c| - 1 <= j <= |c|
        invariant old(Repr) <= Repr && fresh(Repr - old(Repr))
        invariant forall a :: Agree(w, w', a) || (grown && os <= a < os + MIB * n)
        decreases if grown then 0 else 1, |chain| - j
      {
        if assist == null {
          assert InPlace(j - 1);
          var _, w1 := GetNewMemoryBlock(prev, os, w');
          w' := w1;
          assist := prev;
          j, grown := j - 1, true;
        }
        assert InPlace(j);
        if assist.currentNodeNumber != 0 {
          break;
        }
        prev := assist;
        assist := assist.nextPoint;
        j := j + 1;
      }
      l := assist;
      FirstFitIs(c, j);
    }

    /** `mallocMemory` within a class. */
    method Malloc(w: Memory, os: int) returns (p: int, w': Memory)
      requires Valid(w) && forall s | s in model :: s.base != os && Apart(n, s.base, os)
      modifies this, Repr
      ensures Valid(w') && model == SlabSpec.Malloc(old(model), numberOfNode, os)
      ensures p == DataAddr(Taken(old(model), numberOfNode, os).0, nodeSize, Taken(old(model), numberOfNode, os).1)
      ensures old(Repr) <= Repr && fresh(Repr - old(Repr))
      ensures p - HEAD in w' && w'[p - HEAD].Owner?
      ensures forall a :: Agree(w, w', a) || a == p - HEAD || (|model| > |old(model)| && os <= a < os + MIB * n)
    {
      var l, j, w1 := FindBlock(w, os);
      assert InPlace(j);
      p, w' := TakeNode(l, j, w1);
      assert forall a :: Agree(w1, w', a) || a == p - HEAD;
      assert forall a | Agree(w, w1, a) && Agree(w1, w', a) :: Agree(w, w', a);
    }
  
    /** Without the memory of block `j` the words of the others are what they were. */
    lemma OthersKeepWords(w: Memory, w': Memory, j: nat, m: nat)
      requires Valid(w) && j < |chain| && m < |chain| && m != j
      requires forall a :: Agree(w, w', a) || model[j].base <= a < model[j].base + MIB * n
      ensures Words(w', chain[m], model[m], numberOfNode, nodeSize)
    {
      assert InMemory(w, m);
      assert if j < m then ApartAt(n, model, j, m) else ApartAt(n, model, m, j);
      OutsideWords(n, i, model, m, model[j].base, w, w', chain[m]);
    }

    /** Unhook block `j`, whose predecessor is `before`. */
    method Splice(before: Linker, p: Linker, ghost j: nat, ghost w: Memory, ghost w': Memory)
      requires Valid(w) && 1 <= j < |chain| && before == chain[j - 1] && p == chain[j]
      requires forall m | 0 <= m < |chain| && m != j :: Words(w', chain[m], model[m], numberOfNode, nodeSize)
      modifies this`chain, this`model, before`nextPoint
      ensures Valid(w') && before.nextPoint == old(p.nextPoint)
      ensures chain == old(chain)[..j] + old(chain)[j + 1..] && model == old(model)[..j] + old(model)[j + 1..]
    {
      ghost var c, d := chain, model;
      DropBlock(n, i, d, j);
      forall m | 0 <= m < |c| && m != j - 1 ensures c[m] != before {
        StartsDiffer(w, m, j - 1);
      }
      assert InPlace(j) && InPlace(j - 1);
      before.nextPoint := p.nextPoint;
      chain, model := c[..j] + c[j + 1..], d[..j] + d[j + 1..];
      Moved(c, chain, j);
      Moved(d, model, j);
      forall m | 0 <= m < |chain| ensures InPlace(m) && InMemory(w', m) {
        if m < j {
          assert old(InPlace(m));
        } else {
          assert old(InPlace(m + 1));
        }
      }
    }

    /** Take block `j` out of the chain and give its memory back. */
    method Release(before: Linker, p: Linker, ghost j: nat, w: Memory) returns (w': Memory)
      requires Valid(w) && 1 <= j < |chain| && before == chain[j - 1] && p == chain[j]
      modifies this`chain, this`model, before`nextPoint
      ensures Valid(w') && before.nextPoint == old(p.nextPoint)
      ensures chain == old(chain)[..j] + old(chain)[j + 1..] && model == old(model)[..j] + old(model)[j + 1..]
      ensures w' == map a | a in w && !(old(model)[j].base <= a < old(model)[j].base + MIB * n) :: w[a]
    {
      assert InPlace(j);
      w' := map a | a in w && !(p.start <= a < p.start + MIB * n) :: w[a];
      forall m | 0 <= m < |chain| && m != j ensures Words(w', chain[m], model[m], numberOfNode, nodeSize) {
        OthersKeepWords(w, w', j, m);
      }
      Splice(before, p, j, w, w');
    }

    /** `freeOldMemoryBlock` within a class. */
    method Trim(w: Memory) returns (w': Memory)
      requires Valid(w)
      modifies this, Repr
      ensures Valid(w') && model == SlabSpec.Trim(old(model), numberOfNode) && Repr == old(Repr)
      ensures Shrunk(n, numberOfNode, old(model), w, w')
    {
      ghost var c, j := model, 1;
      assert InPlace(0) && model[..1] == [model[0]];
      var assist := point;
      var p := assist.nextPoint;
      w' := w;
      while p != null
        invariant Valid(w') && 1 <= j <= |chain| && Repr == old(Repr)
        invariant assist == chain[j - 1] && p == (if j < |chain| then chain[j] else null)
        invariant Pending(c, model, j, numberOfNode)
        invariant Shrunk(n, numberOfNode, c, w, w')
        decreases |chain| - j
      {
        assert InPlace(j) && InPlace(j - 1);
        if p.currentNodeNumber == numberOfNode {
          DropStep(c, model, j, numberOfNode);
          ghost var s, w1 := model[j], w';
          w' := Release(assist, p, j, w');
          ShrunkStep(n, numberOfNode, c, s, w, w1, w');
          p := assist.nextPoint;
          assert InPlace(j - 1);
        } else {
          KeepStep(c, model, j, numberOfNode);
          p := p.nextPoint;
          assist := assist.nextPoint;
          j := j + 1;
        }
      }
      NonePending(c, model, numberOfNode);
    }

    /** The body of `freeMemory`, given the block the owner word names. */
    static method FreeNode(ghost c: SlabClass, ghost j: nat, ghost k: nat, l: Linker, a: int, w: Memory)
      returns (w': Memory)
      requires c.Valid(w) && j < |c.chain| && l == c.chain[j] && Live(c.model[j], c.numberOfNode, k)
      requires a == NodeAddr(c.model[j].base, c.nodeSize, k)
      modifies c`model, l
      ensures c.Valid(w') && c.model == SlabSpec.Free(old(c.model), j, k)
      ensures forall b :: Agree(w, w', b) || b == a
    {
      ghost var d := c.model;
      assert c.InPlace(j) && c.InMemory(w, j);
      var point := l.nextNodePoint;
      w' := w[a := Link(point)];
      GiveWords(w, l, d[j], c.numberOfNode, c.nodeSize, k);
      forall m | 0 <= m < |c.chain| && m != j ensures c.chain[m] != l && c.InMemory(w', m) {
        c.WriteKeeps(w, j, k, Link(point), m);
      }
      FreeBlocks(c.n, c.i, d, j, k);
      l.currentNodeNumber := l.currentNodeNumber + 1;
      l.nextNodePoint := a;
      c.model := SlabSpec.Free(d, j, k);
      forall m | 0 <= m < |c.chain| ensures c.InPlace(m) {
        assert old(c.InPlace(m));
      }
    }
  }
}

/** The pool: four size classes over one memory. */
module MemoryPools {
  import opened SizeClasses
  import opened SlabSpec
  import opened PoolSpec
  import opened PoolMemory
  import opened SlabClasses
  import opened PoolData

  ghost predicate NewClass(c: SlabClass, n: nat, i: nat, base: int, w: Memory)
    reads c, c.Repr
  {
    c.n == n && c.i == i && c.Valid(w) && c.model == [Slab(base, Carved(c.numberOfNode))]
  }

  /** The loop of the constructor. */
  method NewClasses(n: nat, bases: seq<int>) returns (cs: seq<SlabClass>, w: Memory, ghost repr: set<object>)
    requires 1 <= n && |bases| == CLASSES
    requires forall i, j | 0 <= i < j < CLASSES :: Apart(n, bases[i], bases[j])
    ensures |cs| == CLASSES
    ensures fresh(repr)
    ensures forall i | 0 <= i < CLASSES :: cs[i] in repr && cs[i].Repr <= repr && NewClass(cs[i], n, i, bases[i], w)
  {
    cs, w, repr := [], map[], {};
    for i := 0 to CLASSES
      invariant |cs| == i
      invariant fresh(repr)
      invariant forall j | 0 <= j < i :: cs[j] in repr && cs[j].Repr <= repr && NewClass(cs[j], n, j, bases[j], w)
    {
      BlocksHaveRoom(n, i);
      var w' := Carve(w, bases[i], NodeCount(n, i), NodeSize(i));
      NodeInBlock(bases[i], n, i, NodeCount(n, i));
      var l := new Linker(bases[i], NodeCount(n, i), i);
      var c := new SlabClass(n, i, l, w');
      forall j | 0 <= j < i ensures NewClass(cs[j], n, j, bases[j], w') {
        assert NewClass(cs[j], n, j, bases[j], w);
        assert cs[j].model[0] == Slab(bases[j], Carved(cs[j].numberOfNode));
        forall h, m: nat | 0 <= h < |cs[j].model| && m <= cs[j].numberOfNode
          ensures Agree(w, w', NodeAddr(cs[j].model[h].base, cs[j].nodeSize, m))
        {
          NodeInBlock(bases[j], n, j, m);
        }
        cs[j].Kept(w, w');
      }
      cs, w, repr := cs + [c], w', repr + {c} + c.Repr;
    }
  }

  class MemoryPool {
    const n: nat                        // memoryBlockSize in MiB
    const classes: seq<SlabClass>       // nodePointHeadLinkerHead
    var words: Memory
    ghost var state: Pool
    ghost var Repr: set<object>

    /** Four classes of one carved block each, at the addresses `aligned_alloc` returned. */
    constructor (n: nat, bases: seq<int>)
      requires 1 <= n <= 557056 && |bases| == CLASSES
      requires forall i | 0 <= i < CLASSES :: bases[i] % 16 == 0
      requires forall i, j | 0 <= i < j < CLASSES :: Apart(n, bases[i], bases[j])
      ensures Valid() && fresh(Repr) && this.n == n && state == Init(n, bases)
    {
      var cs, w, repr := NewClasses(n, bases);
      this.n, classes, words, state, Repr := n, cs, w, Init(n, bases), repr;
      new;
      InitInv(n, bases);
      forall i | 0 <= i < CLASSES ensures ClassIn(i) {
        assert NewClass(cs[i], n, i, bases[i], w);
      }
    }

    ghost predicate ClassIn(i: nat)
      requires i < |classes| && i < |state.chains|
      reads this, Repr
    {
      var c := classes[i];
      && c in Repr && c.Repr <= Repr && c.n == n && c.i == i
      && c.model == state.chains[i] && c.Valid(words)
    }

    ghost predicate Valid()
      reads this, Repr
    {
      && Inv(state) && state.n == n && |classes| == CLASSES && this !in Repr
      && (forall i | 0 <= i < CLASSES :: ClassIn(i))
    }

    /** Where a malloc of class `i` writes is nowhere near the nodes of class `j`. */
    lemma MallocApart(i: nat, os: int, j: nat, s: Slab, m: nat)
      requires Inv(state) && FreshBlock(state, os) && i < CLASSES && j < CLASSES && i != j
      requires s in state.chains[j] && m <= state.counts[j]
      ensures WfChain(state.chains[i], state.counts[i])
      ensures var t := Taken(state.chains[i], state.counts[i], os);
        NodeAddr(s.base, NodeSize(j), m) != NodeAddr(t.0, NodeSize(i), t.1)
      ensures !(os <= NodeAddr(s.base, NodeSize(j), m) < os + MIB * state.n)
    {
      assert ClassOk(state, i) && ClassOk(state, j) && FreshTo(state, j, os) && PairOk(state, j, i);
      var c, N := state.chains[i], state.counts[i];
      GrownWf(c, N, os);
      var g := Grown(c, N, os)[FirstFit(c)];
      PopSlab(g, N);
      assert g in c || g.base == os;
      NodesApart(state.n, j, s.base, i, g.base, m, g.free[0]);
      NodeInBlock(s.base, state.n, j, m);
    }

    /** After a malloc of class `i` the memory of class `j` is what it was. */
    lemma KeptByMalloc(i: nat, os: int, j: nat, w: Memory)
      requires Inv(state) && state.n == n && FreshBlock(state, os)
      requires i < CLASSES && j < CLASSES == |classes| && i != j && ClassIn(j)
      requires WfChain(state.chains[i], state.counts[i])
      requires var t := Taken(state.chains[i], state.counts[i], os);
        forall a :: Agree(words, w, a) || a == NodeAddr(t.0, NodeSize(i), t.1) || os <= a < os + MIB * n
      ensures classes[j].Valid(w)
    {
      var c := classes[j];
      assert ClassOk(state, j);
      forall h, m: nat | 0 <= h < |c.model| && m <= c.numberOfNode
        ensures Agree(words, w, NodeAddr(c.model[h].base, c.nodeSize, m))
      {
        MallocApart(i, os, j, c.model[h], m);
      }
      c.Kept(words, w);
    }

    /** Bring the pool's own fields in line with class `i`, the only one that changed. */
    method Commit(ghost i: nat, w: Memory, ghost t: Pool)
      requires Inv(t) && t.n == n && i < CLASSES == |classes| == |state.chains| && this !in Repr
      requires var c := classes[i]; c.model == t.chains[i] && c.Valid(w) && c.n == n && c.i == i && c in Repr
      requires t.chains == state.chains[i := t.chains[i]]
      requires forall j | 0 <= j < CLASSES && j != i :: ClassIn(j) && classes[j].Valid(w)
      modifies this
      ensures Valid() && words == w && state == t && Repr == old(Repr) + classes[i].Repr
    {
      words, state, Repr := w, t, Repr + classes[i].Repr;
      forall j | 0 <= j < CLASSES ensures ClassIn(j) {
        assert j != i ==> old(ClassIn(j));
      }
    }

    /** The part of `mallocMemory` after the class is known; the pool's own fields follow later. */
    method MallocIn(i: nat, os: int) returns (p: int, w: Memory)
      requires Valid() && i < CLASSES && FreshBlock(state, os)
      modifies Repr
      ensures WfChain(state.chains[i], state.counts[i]) && state.counts[i] >= 1
      ensures var t := Taken(state.chains[i], state.counts[i], os); p == DataAddr(t.0, NodeSize(i), t.1)
      ensures forall a :: Agree(words, w, a) || a == p - HEAD
                || (|classes[i].model| > |state.chains[i]| && os <= a < os + MIB * n)
      ensures var c := classes[i];
        && c.model == SlabSpec.Malloc(state.chains[i], state.counts[i], os) && c.Valid(w)
        && c in Repr && c.n == n && c.i == i && fresh(c.Repr - Repr)
      ensures forall j | 0 <= j < CLASSES && j != i :: ClassIn(j) && classes[j].Valid(w)
    {
      assert ClassIn(i) && FreshTo(state, i, os) && ClassOk(state, i);
      p, w := classes[i].Malloc(words, os);
      forall j | 0 <= j < CLASSES && j != i ensures ClassIn(j) && classes[j].Valid(w) {
        assert old(ClassIn(j));
        KeptByMalloc(i, os, j, w);
      }
    }

    /** `mallocMemory`; `os` is the address `aligned_alloc` would return for a new block. */
    method MallocMemory(memorySize: nat, os: int) returns (p: int)
      requires Valid() && memorySize <= MAX_REQUEST && FreshBlock(state, os)
      modifies this, Repr
      ensures Valid() && fresh(Repr - old(Repr))
      ensures state == Step(old(state), MallocOp(memorySize, os))
      ensures p == Allocated(old(state), memorySize, os)
      ensures Effect(old(state), MallocOp(memorySize, os), old(words), words)
    {
      ClassFits(memorySize);
      var i := ClassOf(memorySize);
      var w;
      p, w := MallocIn(i, os);
      MallocKeepsInv(state, memorySize, os);
      Commit(i, w, Step(state, MallocOp(memorySize, os)));
    }

    /** Memory changed in blocks of class `i` only is as it was for class `j`. */
    lemma KeptElsewhere(i: nat, j: nat, w: Memory)
      requires Inv(state) && state.n == n
      requires i < CLASSES && j < CLASSES == |classes| && i != j && ClassIn(j)
      requires forall a :: Agree(words, w, a) || exists b | b in state.chains[i] :: b.base <= a < b.base + MIB * n
      ensures classes[j].Valid(w)
    {
      var c := classes[j];
      assert ClassOk(state, j) && PairOk(state, j, i);
      forall h, m: nat | 0 <= h < |c.model| && m <= c.numberOfNode
        ensures Agree(words, w, NodeAddr(c.model[h].base, c.nodeSize, m))
      {
        assert c.model[h] in state.chains[j];
        NodeInBlock(c.model[h].base, n, j, m);
      }
      c.Kept(words, w);
    }

    /** The part of `freeMemory` in class `i`; the pool's own fields follow later. */
    method FreeIn(a: int, ghost i: nat, ghost j: nat, ghost k: nat) returns (w: Memory)
      requires Valid() && Legal(state, FreeOp(i, j, k))
      requires a == NodeAddr(state.chains[i][j].base, NodeSize(i), k)
      modifies Repr
      ensures var c := classes[i];
        && c.model == SlabSpec.Free(state.chains[i], j, k) && c.Valid(w)
        && c in Repr && c.n == n && c.i == i && c.Repr <= Repr
      ensures forall h | 0 <= h < CLASSES && h != i :: ClassIn(h) && classes[h].Valid(w)
      ensures forall b :: Agree(words, w, b) || b == a
    {
      ghost var c := classes[i];
      assert ClassIn(i) && ClassOk(state, i);
      assert c.InPlace(j) && c.InMemory(words, j);
      assert Holds(words, a, Owner(c.chain[j]));
      w := SlabClass.FreeNode(c, j, k, words[a].linker, a, words);
      ghost var b := state.chains[i][j];
      NodeInBlock(b.base, n, i, k);
      assert b in state.chains[i] && b.base <= a < b.base + MIB * n;
      forall h | 0 <= h < CLASSES && h != i ensures ClassIn(h) && classes[h].Valid(w) {
        assert old(ClassIn(h));
        KeptElsewhere(i, h, w);
      }
    }

    /** `freeMemory` of a live area: node `k` of block `j` of class `i`. */
    method FreeMemory(p: int, ghost i: nat, ghost j: nat, ghost k: nat)
      requires Valid() && Legal(state, FreeOp(i, j, k))
      requires p == DataAddr(state.chains[i][j].base, NodeSize(i), k)
      modifies this, Repr
      ensures Valid() && Repr == old(Repr)
      ensures state == Step(old(state), FreeOp(i, j, k))
      ensures Effect(old(state), FreeOp(i, j, k), old(words), words)
    {
      var w := FreeIn(p - HEAD, i, j, k);
      FreeKeepsInv(state, i, j, k);
      Commit(i, w, Step(state, FreeOp(i, j, k)));
    }

    /** A write by the owner of a live area does not disturb the pool. */
    method Store(ghost i: nat, ghost j: nat, ghost k: nat, a: int, value: int)
      requires Valid() && Legal(state, FreeOp(i, j, k))
      requires InData(state.chains[i][j].base, i, k, a)
      modifies this`words
      ensures Valid() && words == old(words)[a := Data(value)]
    {
      var w := words[a := Data(value)];
      forall h | 0 <= h < CLASSES ensures classes[h].Valid(w) {
        assert ClassIn(h) && ClassOk(state, h);
        var c := classes[h];
        forall s, m: nat | 0 <= s < |c.model| && m <= c.numberOfNode
          ensures Agree(words, w, NodeAddr(c.model[s].base, c.nodeSize, m))
        {
          NodesDisjoint(state, i, j, k, h, s, m, a);
        }
        c.Kept(words, w);
      }
      words := w;
      forall h | 0 <= h < CLASSES ensures ClassIn(h) {
        assert old(ClassIn(h));
      }
    }

    /** One class of `freeOldMemoryBlock`. */
    method TrimIn(i: nat)
      requires Valid() && i < CLASSES && state.chains[i] != []
      modifies this, Repr
      ensures Valid() && Repr == old(Repr)
      ensures state == SetChain(old(state), i, Trim(old(state).chains[i], old(state).counts[i]))
      ensures Shrunk(n, old(state).counts[i], old(state).chains[i], old(words), words)
    {
      assert ClassIn(i) && ClassOk(state, i);
      var w := classes[i].Trim(words);
      forall j | 0 <= j < CLASSES && j != i ensures ClassIn(j) && classes[j].Valid(w) {
        assert old(ClassIn(j));
        KeptElsewhere(i, j, w);
      }
      TrimChain(state, i);
      Commit(i, w, SetChain(state, i, Trim(state.chains[i], state.counts[i])));
    }

    /** `freeOldMemoryBlock`: only blocks without a live node go. */
    method FreeOldMemoryBlock()
      requires Valid()
      modifies this, Repr
      ensures Valid() && Repr == old(Repr)
      ensures state == Step(old(state), TrimOp)
      ensures Effect(old(state), TrimOp, old(words), words)
    {
      NonEmpty(state);
      for i := 0 to CLASSES
        invariant Valid() && Repr == old(Repr)
        invariant forall h | 0 <= h < CLASSES :: old(state).chains[h] != []
        invariant state == TrimAll(old(state), i)
        invariant forall a | a in words :: a in old(words) && words[a] == old(words)[a]
        invariant forall a | a in old(words) && a !in words ::
                    exists h | 0 <= h < i :: Released(n, old(state).counts[h], old(state).chains[h], a)
      {
        TrimIn(i);
      }
    }
  }
}
