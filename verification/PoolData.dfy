/** What the pool is for: a client reads back what it wrote, whatever happens to other memory. */
module PoolData {
  import opened SizeClasses
  import opened SlabSpec
  import opened PoolSpec
  import opened PoolMemory
  import opened SlabClasses

  /** The words an operation may change: the first word of the node it hands out or takes back,
      the block a malloc adds, the blocks without a live node that a trim releases. */
  ghost predicate Effect(p: Pool, op: Op, w: Memory, w': Memory)
    requires Inv(p) && Legal(p, op)
  {
    match op
    case MallocOp(memorySize, os) =>
      forall a :: Agree(w, w', a) || a == Allocated(p, memorySize, os) - HEAD
                  || (Grows(p, memorySize, os) && os <= a < os + MIB * p.n)
    case FreeOp(i, j, k) =>
      forall a :: Agree(w, w', a) || a == NodeAddr(p.chains[i][j].base, NodeSize(i), k)
    case TrimOp =>
      forall a :: Agree(w, w', a) || (a !in w' && InReleased(p, a))
  }

  predicate Grows(p: Pool, memorySize: nat, os: int)
    requires Inv(p) && Legal(p, MallocOp(memorySize, os))
  {
    ClassFits(memorySize);
    var i := ClassOf(memorySize);
    |Step(p, MallocOp(memorySize, os)).chains[i]| > |p.chains[i]|
  }

  predicate InReleased(p: Pool, a: int)
    requires Shape(p)
  {
    exists h | 0 <= h < CLASSES :: Released(p.n, p.counts[h], p.chains[h], a)
  }

  /** A node by where it is: its block's index may change when blocks in front are released. */
  predicate LiveNode(p: Pool, i: nat, base: int, k: nat)
    requires Shape(p)
  {
    i < CLASSES && IsLive(p.chains[i], p.counts[i], base, k)
  }

  predicate Frees(p: Pool, op: Op, i: nat, base: int, k: nat)
    requires Inv(p) && Legal(p, op)
  {
    op.FreeOp? && op.i == i && op.k == k && p.chains[i][op.j].base == base
  }

  /** Trimming never takes a byte of a live node, of whatever class. */
  lemma LiveDataStays(p: Pool, i: nat, j: nat, k: nat, a: int)
    requires Inv(p) && Legal(p, FreeOp(i, j, k)) && InNode(p.chains[i][j].base, i, k, a)
    ensures !InReleased(p, a)
  {
    NodeWithin(p, i, j, k, a);
    forall h | 0 <= h < CLASSES ensures !Released(p.n, p.counts[h], p.chains[h], a) {
      forall t | t in p.chains[h] && t.base <= a < t.base + MIB * p.n ensures Count(t) != p.counts[h] {
        var m :| 0 <= m < |p.chains[h]| && p.chains[h][m] == t;
        if (i, j) != (h, m) {
          BlocksApart(p, i, j, h, m);
        }
        assert ClassOk(p, i);
        CountTells(t, p.counts[i]);
      }
    }
  }

  /** No operation changes a word of a live node, its first word included, that it does not free. */
  lemma LiveNodeSpared(p: Pool, op: Op, w: Memory, w': Memory, i: nat, base: int, k: nat, a: int)
    requires Inv(p) && Legal(p, op) && Effect(p, op, w, w')
    requires LiveNode(p, i, base, k) && !Frees(p, op, i, base, k) && InNode(base, i, k, a)
    ensures Agree(w, w', a)
  {
    var j :| 0 <= j < |p.chains[i]| && p.chains[i][j].base == base && Live(p.chains[i][j], p.counts[i], k);
    match op
    case MallocOp(memorySize, os) => MallocSpares(p, memorySize, os, i, j, k, a);
    case FreeOp(i', j', k') => NodesDisjoint(p, i, j, k, i', j', k', a);
    case TrimOp => LiveDataStays(p, i, j, k, a);
  }

  /** A live node stays live until it is freed. */
  lemma StaysLive(p: Pool, op: Op, i: nat, base: int, k: nat)
    requires Inv(p) && Legal(p, op) && LiveNode(p, i, base, k) && !Frees(p, op, i, base, k)
    ensures Inv(Step(p, op)) && LiveNode(Step(p, op), i, base, k)
  {
    StepKeepsInv(p, op);
    assert ClassOk(p, i);
    match op
    case MallocOp(memorySize, os) =>
      ClassFits(memorySize);
      var h := ClassOf(memorySize);
      assert ClassOk(p, h) && FreshTo(p, h, os);
      MallocStays(p.chains[h], p.counts[h], os);
      MallocExact(p.chains[h], p.counts[h], os);
    case FreeOp(i', j', k') =>
      assert ClassOk(p, i');
      FreeExact(p.chains[i'], p.counts[i'], j', k');
    case TrimOp =>
      NonEmpty(p);
      TrimLive(p, CLASSES, i, base, k);
  }

  lemma {:induction false} TrimLive(p: Pool, upTo: nat, i: nat, base: int, k: nat)
    requires Inv(p) && upTo <= CLASSES && forall h | 0 <= h < CLASSES :: p.chains[h] != []
    requires LiveNode(p, i, base, k)
    ensures LiveNode(TrimAll(p, upTo), i, base, k)
  {
    if upTo == 0 {
    } else {
      TrimLive(p, upTo - 1, i, base, k);
      assert ClassOk(p, upTo - 1);
      TrimExact(p.chains[upTo - 1], p.counts[upTo - 1]);
    }
  }

  // ---------- what an operation does to the live nodes ----------

  /** `mallocMemory` of at most 2048 bytes: the address returned is the data area of a node of the least
      class that is larger than the request, or the largest; the node was not live in any class, and
      it is all that becomes live. It is in the first block that has one to hand out; the blocks stay
      where they were, and one is added behind them, at `os`, exactly when all of them are full. */
  lemma MallocGives(p: Pool, memorySize: nat, os: int) returns (i: nat, j: nat, k: nat)
    requires Inv(p) && memorySize <= 2048 && FreshBlock(p, os)
    ensures i < CLASSES && memorySize <= Capacity(i) && (i > 0 ==> Capacity(i - 1) <= memorySize)
    ensures memorySize == Capacity(i) ==> i == 3
    ensures Legal(p, MallocOp(memorySize, os))
    ensures var q := Step(p, MallocOp(memorySize, os)); var c := p.chains[i];
      && Shape(q) && j < |q.chains[i]|
      && var base := q.chains[i][j].base;
      && Allocated(p, memorySize, os) == DataAddr(base, NodeSize(i), k)
      && !LiveNode(p, i, base, k)
      && (forall h: nat, b: int, m: nat :: LiveNode(q, h, b, m) <==> LiveNode(p, h, b, m) || (h, b, m) == (i, base, k))
      && (forall h | 0 <= h < CLASSES && h != i :: q.chains[h] == p.chains[h])
      && (forall h | 0 <= h < j && h < |c| :: Count(c[h]) == 0) && (j < |c| ==> Count(c[j]) != 0) && j <= |c|
      && |q.chains[i]| == (if j == |c| then |c| + 1 else |c|)
      && (forall h | 0 <= h < |c| :: q.chains[i][h].base == c[h].base)
      && (j == |c| ==> base == os)
  {
    ClassFits(memorySize);
    i := ClassOf(memorySize);
    var c, N := p.chains[i], p.counts[i];
    assert ClassOk(p, i) && FreshTo(p, i, os);
    MallocStays(c, N, os);
    MallocExact(c, N, os);
    FirstFitExact(c);
    j, k := FirstFit(c), Taken(c, N, os).1;
  }

  /** `freeMemory`: exactly the given node stops being live, and no block comes or goes. */
  lemma FreeGives(p: Pool, i: nat, j: nat, k: nat)
    requires Inv(p) && Legal(p, FreeOp(i, j, k))
    ensures var q := Step(p, FreeOp(i, j, k));
      && Shape(q)
      && (forall h: nat, b: int, m: nat ::
            LiveNode(q, h, b, m) <==> LiveNode(p, h, b, m) && (h, b, m) != (i, p.chains[i][j].base, k))
      && (forall h | 0 <= h < CLASSES :: |q.chains[h]| == |p.chains[h]|)
  {
    assert ClassOk(p, i);
    FreeExact(p.chains[i], p.counts[i], j, k);
  }

  /** `freeOldMemoryBlock`: no node stops or starts being live, and every class is left with its first
      block and the others that have a live node, so with at most one block more than live nodes. */
  lemma TrimGives(p: Pool, i: nat)
    requires Inv(p) && i < CLASSES
    ensures var q := Step(p, TrimOp);
      && Shape(q)
      && p.chains[i] != [] && q.chains[i] != [] && q.chains[i][0] == p.chains[i][0]
      && (forall s | s in q.chains[i][1..] :: s in p.chains[i][1..] && exists k: nat :: Live(s, p.counts[i], k))
      && (forall base: int, k: nat :: LiveNode(q, i, base, k) <==> LiveNode(p, i, base, k))
      && |q.chains[i]| <= 1 + LiveCount(p.chains[i], p.counts[i])
  {
    NonEmpty(p);
    TrimEach(p, CLASSES, i);
    assert ClassOk(p, i);
    var c, N := p.chains[i], p.counts[i];
    TrimExact(c, N);
    SurvivorsExact(c[1..], N);
    var t := Trim(c, N);
    assert t[1..] == Survivors(c[1..], N);
    forall s | s in t[1..] ensures s in c[1..] && exists k: nat :: Live(s, N, k) {
      var j :| 0 <= j < |c[1..]| && c[1..][j] == s;
      assert c[j + 1] == s;
      CountTells(s, N);
    }
  }

  lemma {:induction false} TrimEach(p: Pool, upTo: nat, i: nat)
    requires Inv(p) && upTo <= CLASSES && i < CLASSES && forall h | 0 <= h < CLASSES :: p.chains[h] != []
    ensures TrimAll(p, upTo).chains[i] == if i < upTo then Trim(p.chains[i], p.counts[i]) else p.chains[i]
  {
    if upTo == 0 {
    } else {
      TrimEach(p, upTo - 1, i);
    }
  }

  // ---------- whole runs, with the clients' writes ----------

  /** An operation of the pool, or a write by the owner of node `k` of block `j` of class `i`. */
  datatype Action = Use(op: Op) | Write(i: nat, j: nat, k: nat, a: int, value: int)

  predicate Allowed(p: Pool, act: Action)
    requires Inv(p)
  {
    match act
    case Use(op) => Legal(p, op)
    case Write(i, j, k, a, _) => Legal(p, FreeOp(i, j, k)) && InData(p.chains[i][j].base, i, k, a)
  }

  function After(p: Pool, act: Action): Pool
    requires Inv(p) && Allowed(p, act)
  {
    if act.Use? then Step(p, act.op) else p
  }

  ghost predicate Changes(p: Pool, act: Action, w: Memory, w': Memory)
    requires Inv(p) && Allowed(p, act)
  {
    match act
    case Use(op) => Effect(p, op, w, w')
    case Write(_, _, _, a, value) => w' == w[a := Data(value)]
  }

  /** A run of actions through the memories `ws`, in which node `k` in the block at `base` of
      class `i` is not freed. */
  ghost predicate Keeping(p: Pool, w: Memory, acts: seq<Action>, ws: seq<Memory>, i: nat, base: int, k: nat)
    requires Inv(p)
    decreases |acts|
  {
    |ws| == |acts| &&
    (acts == [] ||
     (&& Allowed(p, acts[0]) && Changes(p, acts[0], w, ws[0])
      && (acts[0].Use? ==> !Frees(p, acts[0].op, i, base, k))
      && Inv(After(p, acts[0]))
      && Keeping(After(p, acts[0]), ws[0], acts[1..], ws[1..], i, base, k)))
  }

  /** Memory as the clients see it: their writes, and nothing else. */
  function Wrote(w: Memory, act: Action): Memory {
    if act.Write? then w[act.a := Data(act.value)] else w
  }

  function Written(w: Memory, acts: seq<Action>): Memory
    decreases |acts|
  {
    if acts == [] then w else Written(Wrote(w, acts[0]), acts[1..])
  }

  lemma {:induction false} WrittenAt(w: Memory, w': Memory, acts: seq<Action>, a: int)
    requires Agree(w, w', a)
    ensures Agree(Written(w, acts), Written(w', acts), a)
    decreases |acts|
  {
    if acts == [] {
      assert Written(w, acts) == w && Written(w', acts) == w';
    } else {
      WrittenAt(Wrote(w, acts[0]), Wrote(w', acts[0]), acts[1..], a);
    }
  }

  lemma ActionSpares(p: Pool, act: Action, w: Memory, w': Memory, i: nat, base: int, k: nat, a: int)
    requires Inv(p) && Allowed(p, act) && Changes(p, act, w, w')
    requires LiveNode(p, i, base, k) && (act.Use? ==> !Frees(p, act.op, i, base, k)) && InNode(base, i, k, a)
    ensures Inv(After(p, act)) && LiveNode(After(p, act), i, base, k)
    ensures Agree(Wrote(w, act), w', a)
    ensures act.Write? ==> act.a != NodeAddr(base, NodeSize(i), k)
  {
    if act.Use? {
      StaysLive(p, act.op, i, base, k);
      LiveNodeSpared(p, act.op, w, w', i, base, k, a);
    } else {
      var j :| 0 <= j < |p.chains[i]| && p.chains[i][j].base == base && Live(p.chains[i][j], p.counts[i], k);
      if act.a == NodeAddr(base, NodeSize(i), k) {
        LiveAreasDisjoint(p, act.i, act.j, act.k, i, j, k, act.a);
      }
    }
  }

  /** Over every interleaving of mallocs, frees, trims and writes, a node that stays allocated
      holds what its clients wrote, as if the pool did nothing; its first word nobody writes. */
  lemma {:induction false} ReadsBack(p: Pool, w: Memory, acts: seq<Action>, ws: seq<Memory>,
                                     i: nat, base: int, k: nat, a: int)
    requires Inv(p) && LiveNode(p, i, base, k) && Keeping(p, w, acts, ws, i, base, k)
    requires InNode(base, i, k, a)
    ensures var last := if ws == [] then w else ws[|ws| - 1];
      && Agree(Written(w, acts), last, a)
      && (a == NodeAddr(base, NodeSize(i), k) ==> Agree(w, last, a))
    decreases |acts|
  {
    if acts == [] {
      assert ws == [] && Written(w, acts) == w;
    } else {
      ActionSpares(p, acts[0], w, ws[0], i, base, k, a);
      ReadsBack(After(p, acts[0]), ws[0], acts[1..], ws[1..], i, base, k, a);
      WrittenAt(Wrote(w, acts[0]), ws[0], acts[1..], a);
      assert |ws| > 1 ==> ws[1..][|ws| - 2] == ws[|ws| - 1];
    }
  }
}
