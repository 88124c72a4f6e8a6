/** Sizes, counts and addresses of the slab allocator (memoryPool.h, memoryPool.cpp). */
module SizeClasses {
  const CLASSES := 4
  const MIB := 1024 * 1024        // BlockSize
  const LINKER := 48              // alignedLinker: 40 bytes of block header, rounded up to 16
  const HEAD := 16                // headPointAndData::head: owner pointer and padding
  const MAX_REQUEST := 2048

  function Pow2(n: nat): (r: nat)
    ensures r >= 1
  {
    if n == 0 then 1 else 2 * Pow2(n - 1)
  }

  function Capacity(i: nat): nat {
    256 * Pow2(i)
  }

  function NodeSize(i: nat): nat {
    Capacity(i) + HEAD
  }

  /** Nodes counted in a block of `n` MiB; one more is carved and never handed out. */
  function NodeCount(n: nat, i: nat): int {
    (MIB * n - LINKER) / NodeSize(i) - 1
  }

  /** `(0x3FFA4 >> ((memorySize >> 8) * 2)) & 3`: nine 2-bit entries packed in one constant. */
  function ClassOf(memorySize: nat): nat {
    0x3FFA4 / Pow2(memorySize / 256 * 2) % 4
  }

  lemma Pow2Table()
    ensures Pow2(0) == 1 && Pow2(1) == 2 && Pow2(2) == 4 && Pow2(3) == 8 && Pow2(4) == 16 && Pow2(6) == 64
    ensures Pow2(8) == 256 && Pow2(10) == 1024 && Pow2(12) == 4096 && Pow2(14) == 16384 && Pow2(16) == 65536
    ensures Pow2(18) == 262144
  {
    assert Pow2(4) == 2 * Pow2(3) && Pow2(5) == 2 * Pow2(4) && Pow2(6) == 2 * Pow2(5) && Pow2(7) == 2 * Pow2(6);
    assert Pow2(9) == 2 * Pow2(8) && Pow2(11) == 2 * Pow2(10) && Pow2(13) == 2 * Pow2(12);
    assert Pow2(15) == 2 * Pow2(14) && Pow2(17) == 2 * Pow2(16);
  }

  lemma {:induction false} Pow2Grows(m: nat, n: nat)
    requires m <= n
    ensures Pow2(m) <= Pow2(n)
  {
    if m == n {
    } else {
      Pow2Grows(m, n - 1);
    }
  }

  lemma ClassTable(memorySize: nat)
    ensures ClassOf(memorySize) ==
            match memorySize / 256
            case 0 => 0 case 1 => 1 case 2 => 2 case 3 => 2
            case q => if q <= 8 then 3 else 0
  {
    Pow2Table();
    if memorySize / 256 >= 9 {
      Pow2Grows(18, memorySize / 256 * 2);
    }
  }

  /** The table serves a request exactly when it is at most 2048 bytes; what it then picks is
      the least class that is strictly larger than the request, or the largest one. */
  lemma ClassFits(memorySize: nat)
    ensures memorySize <= Capacity(ClassOf(memorySize)) <==> memorySize <= MAX_REQUEST
    ensures memorySize <= MAX_REQUEST ==>
              var i := ClassOf(memorySize);
              && i < CLASSES
              && (i > 0 ==> Capacity(i - 1) <= memorySize)
              && (memorySize < Capacity(i) || (i == 3 && memorySize == MAX_REQUEST))
  {
    Pow2Table();
    ClassTable(memorySize);
  }

  lemma NodeSizes()
    ensures NodeSize(0) == 272 && NodeSize(1) == 528 && NodeSize(2) == 1040 && NodeSize(3) == 2064
  {
    Pow2Table();
  }

  /** Every class of every pool of at least one MiB has a node to hand out, and all of its
      nodes, the spare one included, fit the block behind its header. */
  lemma BlocksHaveRoom(n: nat, i: nat)
    requires n >= 1 && i < CLASSES
    ensures NodeCount(n, i) >= 1
    ensures LINKER + (NodeCount(n, i) + 1) * NodeSize(i) <= MIB * n
  {
    NodeSizes();
    var size := NodeSize(i);
    assert size == 272 || size == 528 || size == 1040 || size == 2064;
    assert (MIB * n - LINKER) / 272 >= 3854;
    assert MIB * n - LINKER >= 2 * 2064;
    assert (MIB * n - LINKER) / size >= 2;
    assert (MIB * n - LINKER) / size * size <= MIB * n - LINKER;
  }

  /** No block has room to spare for another node: one is carved that is never handed out, and the
      rest behind the 48 bytes of header is less than a node. */
  lemma NodeCountLargest(n: nat, i: nat)
    requires n >= 1 && i < CLASSES
    ensures 48 + (NodeCount(n, i) + 1) * NodeSize(i) <= 1024 * 1024 * n
    ensures 48 + (NodeCount(n, i) + 2) * NodeSize(i) > 1024 * 1024 * n
    ensures NodeSize(i) == match i case 0 => 272 case 1 => 528 case 2 => 1040 case _ => 2064
    ensures Capacity(i) == match i case 0 => 256 case 1 => 512 case 2 => 1024 case _ => 2048
  {
    NodeSizes();
    Pow2Table();
    BlocksHaveRoom(n, i);
    var room := MIB * n - LINKER;
    assert room == room / NodeSize(i) * NodeSize(i) + room % NodeSize(i);
  }

  /** Where things are: the first node behind the 48 bytes of header, a node every node size, and its
      data behind the 16 bytes of its head, up to the next node. */
  lemma Layout(base: int, i: nat, k: nat)
    ensures NodeAddr(base, NodeSize(i), 0) == base + 48
    ensures NodeAddr(base, NodeSize(i), k + 1) == NodeAddr(base, NodeSize(i), k) + NodeSize(i)
    ensures DataAddr(base, NodeSize(i), k) == NodeAddr(base, NodeSize(i), k) + 16
    ensures DataAddr(base, NodeSize(i), k) + Capacity(i) == NodeAddr(base, NodeSize(i), k + 1)
  {
    assert (k + 1) * NodeSize(i) == k * NodeSize(i) + NodeSize(i);
  }

  /** The narrowing to `int` in the constructor keeps every count exactly when n <= 557056. */
  lemma CountsFitInt(n: nat)
    requires n >= 1
    ensures (forall i | 0 <= i < CLASSES :: NodeCount(n, i) < 0x8000_0000) <==> n <= 557056
  {
    NodeSizes();
    assert NodeCount(n, 0) < 0x8000_0000 <==> n <= 557056;
    forall i | 0 <= i < CLASSES && n <= 557056 ensures NodeCount(n, i) < 0x8000_0000 {
      assert NodeSize(i) == 272 || NodeSize(i) == 528 || NodeSize(i) == 1040 || NodeSize(i) == 2064;
    }
  }

  // ---------- addresses ----------

  function NodeAddr(base: int, size: nat, k: nat): int {
    base + LINKER + k * size
  }

  function DataAddr(base: int, size: nat, k: nat): int {
    NodeAddr(base, size, k) + HEAD
  }

  lemma NodeGap(base: int, size: nat, j: nat, k: nat)
    requires j < k
    ensures NodeAddr(base, size, j) + size <= NodeAddr(base, size, k)
  {
    assert k * size == (j + 1) * size + (k - (j + 1)) * size;
  }

  lemma NodeInBlock(base: int, n: nat, i: nat, k: nat)
    requires n >= 1 && i < CLASSES && k <= NodeCount(n, i)
    ensures base + LINKER <= NodeAddr(base, NodeSize(i), k)
    ensures NodeAddr(base, NodeSize(i), k) + NodeSize(i) <= base + MIB * n
  {
    BlocksHaveRoom(n, i);
    var count := NodeCount(n, i);
    assert (count + 1) * NodeSize(i) == (k + 1) * NodeSize(i) + (count - k) * NodeSize(i);
  }

  lemma DataAligned(base: int, i: nat, k: nat)
    requires base % 16 == 0
    ensures DataAddr(base, NodeSize(i), k) % 16 == 0
  {
    assert Capacity(i) == 16 * (16 * Pow2(i));
    assert k * NodeSize(i) == 16 * (k * (16 * Pow2(i) + 1));
  }
}
