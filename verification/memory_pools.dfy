/** The fixed-block pool, the typed object pool on top of it and the arena allocator
    (`examples/memory_pools/memory_pools_demo.cpp`). Memory is modelled by byte offsets:
    a pool pointer is its offset from the start of the pool, an arena pointer is a block
    index and an offset into that block. */
module MemoryPools {
  import opened Wrappers
  import opened Arith

  datatype AllocError = BadAlloc

  // ------------------------------------------------------------------ MemoryPool

  /** `MemoryPool`: `blockCount` blocks of `blockSize` bytes; `freeList` holds the offsets
      of the free blocks, head first (the source threads the list through the blocks). */
  datatype MemoryPool = MemoryPool(blockSize: nat, blockCount: nat, freeList: seq<int>)

  /** The bytes the pool owns: `[pool, pool + blockSize * blockCount)`. */
  predicate InPool(p: MemoryPool, offset: int)
  {
    0 <= offset < p.blockSize * p.blockCount
  }

  /** Every free block lies inside the pool. */
  predicate PoolOk(p: MemoryPool)
  {
    forall i :: 0 <= i < |p.freeList| ==> InPool(p, p.freeList[i])
  }

  /** The free list the constructor builds: blocks `0 .. n-1` pushed in order, so block
      `n - 1` is at the head. */
  function InitialFreeList(blockSize: nat, n: nat): (r: seq<int>)
    ensures |r| == n
    ensures forall i :: 0 <= i < n ==> r[i] == (n - 1 - i) * blockSize
  {
    if n == 0 then [] else [(n - 1) * blockSize] + InitialFreeList(blockSize, n - 1)
  }

  /** `MemoryPool(blockSize, blockCount)`: every block starts free. The source stores the
      free-list link inside each block, so a block must hold a pointer. */
  function NewMemoryPool(blockSize: nat, blockCount: nat): (p: MemoryPool)
    requires blockSize >= PointerSize
    ensures p.blockSize == blockSize && p.blockCount == blockCount
    ensures |p.freeList| == blockCount
    ensures blockCount > 0 ==> p.freeList[0] == (blockCount - 1) * blockSize
    ensures PoolOk(p)
  {
    var p := MemoryPool(blockSize, blockCount, InitialFreeList(blockSize, blockCount));
    forall i | 0 <= i < blockCount
      ensures InPool(p, p.freeList[i])
    {
      MulLeft(blockSize, blockCount - 1 - i, blockCount - 1);
    }
    p
  }

  /** `sizeof(Block*)` on the 64-bit targets the demo is built for. */
  const PointerSize: nat := 8

  /** The construction lists every block exactly once. */
  lemma NewPoolBlocksDistinct(blockSize: nat, blockCount: nat)
    requires blockSize >= PointerSize
    ensures var p := NewMemoryPool(blockSize, blockCount);
      forall a, b :: 0 <= a < b < blockCount ==> p.freeList[a] != p.freeList[b]
  {
    var p := NewMemoryPool(blockSize, blockCount);
    forall a, b | 0 <= a < b < blockCount
      ensures p.freeList[a] != p.freeList[b]
    {
      MulLeft(blockSize, blockCount - b, blockCount - 1 - a);
    }
  }

  /** `allocate()`: `bad_alloc` on an empty free list (the pool is left as it was);
      otherwise the head block, which leaves the free list. */
  function Allocate(p: MemoryPool): (r: Result<(MemoryPool, int), AllocError>)
    ensures r.Err? <==> |p.freeList| == 0
    ensures r.Ok? ==> r.value.0.blockSize == p.blockSize && r.value.0.blockCount == p.blockCount
    ensures r.Ok? ==> [r.value.1] + r.value.0.freeList == p.freeList
    ensures r.Ok? && PoolOk(p) ==> PoolOk(r.value.0) && InPool(p, r.value.1)
  {
    if |p.freeList| == 0 then Err(BadAlloc)
    else Ok((p.(freeList := p.freeList[1..]), p.freeList[0]))
  }

  /** `deallocate(ptr)`: a null pointer or one outside the pool is ignored; any other
      pointer is pushed on the head of the free list. */
  function Deallocate(p: MemoryPool, ptr: Option<int>): (r: MemoryPool)
    ensures r.blockSize == p.blockSize && r.blockCount == p.blockCount
    ensures ptr.None? ==> r == p
    ensures ptr.Some? && !InPool(p, ptr.value) ==> r == p
    ensures ptr.Some? && InPool(p, ptr.value) ==> r.freeList == [ptr.value] + p.freeList
    ensures PoolOk(p) ==> PoolOk(r)
  {
    match ptr
    case None => p
    case Some(offset) =>
      if offset < 0 || offset >= p.blockSize * p.blockCount then p
      else p.(freeList := [offset] + p.freeList)
  }

  /** `offset` is the start of a block of the pool. */
  predicate IsBlock(p: MemoryPool, offset: int)
  {
    p.blockSize > 0 && InPool(p, offset) && offset % p.blockSize == 0
  }

  /** LIFO reuse: a handed-out block, once freed, is the next one handed out, and handing
      it out restores the pool. */
  lemma DeallocateThenAllocate(p: MemoryPool, offset: int)
    requires IsBlock(p, offset) && offset !in p.freeList
    ensures Allocate(Deallocate(p, Some(offset))) == Ok((p, offset))
  {
  }

  /** Freeing a block just handed out restores the pool. */
  lemma AllocateThenDeallocate(p: MemoryPool)
    requires PoolOk(p) && |p.freeList| > 0
    ensures Allocate(p).Ok?
    ensures Deallocate(Allocate(p).value.0, Some(Allocate(p).value.1)) == p
  {
    assert [p.freeList[0]] + p.freeList[1..] == p.freeList;
  }

  /** The allocation loop of the demo, which stops at the first `bad_alloc`: the
      allocated offsets are the first `min(n, free)` blocks of the free list. */
  function AllocateMany(p: MemoryPool, n: nat): (r: (MemoryPool, seq<int>))
    ensures |r.1| == if n <= |p.freeList| then n else |p.freeList|
    ensures r.1 == p.freeList[..|r.1|] && r.0.freeList == p.freeList[|r.1|..]
    ensures r.0.blockSize == p.blockSize && r.0.blockCount == p.blockCount
    decreases n
  {
    if n == 0 then (p, [])
    else match Allocate(p)
      case Err(_) => (p, [])
      case Ok((p', b)) =>
        var rest := AllocateMany(p', n - 1);
        (rest.0, [b] + rest.1)
  }

  /** The demo's `for (i = 0; i < allocations.size(); i += 2) deallocate(allocations[i])`. */
  function DeallocateEveryOther(p: MemoryPool, ptrs: seq<int>, i: nat): (r: MemoryPool)
    ensures r.blockSize == p.blockSize && r.blockCount == p.blockCount
    decreases |ptrs| - i
  {
    if i >= |ptrs| then p else DeallocateEveryOther(Deallocate(p, Some(ptrs[i])), ptrs, i + 2)
  }

  /** The memory-pool demo: from 10 blocks of 64 bytes, allocate 5, free the 1st, 3rd and
      5th, and allocate again: the block returned is the 5th one freed last, at byte 320. */
  lemma MemoryPoolDemo()
    ensures var r := AllocateMany(NewMemoryPool(64, 10), 5);
      var again := Allocate(DeallocateEveryOther(r.0, r.1, 0));
      |r.1| == 5 && again.Ok? && again.value.1 == r.1[4] == 320
  {
    var p := NewMemoryPool(64, 10);
    var r := AllocateMany(p, 5);
    assert r.1 == [576, 512, 448, 384, 320];
    var p0 := r.0;
    var p1 := Deallocate(p0, Some(576));
    var p2 := Deallocate(p1, Some(448));
    var p3 := Deallocate(p2, Some(320));
    assert DeallocateEveryOther(p3, r.1, 6) == p3;
    assert DeallocateEveryOther(p2, r.1, 4) == p3;
    assert DeallocateEveryOther(p1, r.1, 2) == p3;
    assert DeallocateEveryOther(p0, r.1, 0) == p3;
  }

  // ------------------------------------------------------------------ The links

  /** The source's own representation of the free list: the head pointer, and for each
      block whose link has been written the `next` pointer stored in its first bytes. */
  datatype LinkedPool = LinkedPool(blockSize: nat, blockCount: nat, head: Option<int>,
                                   next: map<int, Option<int>>)

  /** Following the links from `head` visits exactly the blocks of `fl`, in order, and
      then reaches null. */
  predicate Threads(next: map<int, Option<int>>, head: Option<int>, fl: seq<int>)
    decreases |fl|
  {
    if |fl| == 0 then head.None?
    else head == Some(fl[0]) && fl[0] in next && Threads(next, next[fl[0]], fl[1..])
  }

  /** The constructor's loop: `block->next = freeList; freeList = block` for the blocks
      `0 .. n-1` in turn; the head pointer and the links written. */
  function LinkedInit(blockSize: nat, n: nat): (Option<int>, map<int, Option<int>>)
  {
    if n == 0 then (None, map[])
    else
      var prev := LinkedInit(blockSize, n - 1);
      (Some((n - 1) * blockSize), prev.1[(n - 1) * blockSize := prev.0])
  }

  /** `MemoryPool(blockSize, blockCount)` with its links: they thread the free list of
      the sequence view. */
  function NewLinkedPool(blockSize: nat, blockCount: nat): (lp: LinkedPool)
    requires blockSize >= PointerSize
    ensures lp.blockSize == blockSize && lp.blockCount == blockCount
    ensures Threads(lp.next, lp.head, NewMemoryPool(blockSize, blockCount).freeList)
  {
    var r := LinkedInit(blockSize, blockCount);
    LinkedInitThreads(blockSize, blockCount);
    LinkedPool(blockSize, blockCount, r.0, r.1)
  }

  /** Writing the link of a block that is not on the list leaves the list as it was. */
  lemma {:induction false} ThreadsSkip(next: map<int, Option<int>>, head: Option<int>, fl: seq<int>,
                                       b: int, v: Option<int>)
    requires Threads(next, head, fl) && b !in fl
    ensures Threads(next[b := v], head, fl)
    decreases |fl|
  {
    if |fl| > 0 {
      assert b !in fl[1..];
      ThreadsSkip(next, next[fl[0]], fl[1..], b, v);
    }
  }

  lemma {:induction false} LinkedInitThreads(blockSize: nat, n: nat)
    requires blockSize > 0
    ensures Threads(LinkedInit(blockSize, n).1, LinkedInit(blockSize, n).0, InitialFreeList(blockSize, n))
  {
    if n > 0 {
      var prev := LinkedInit(blockSize, n - 1);
      var b := (n - 1) * blockSize;
      var fl := InitialFreeList(blockSize, n - 1);
      LinkedInitThreads(blockSize, n - 1);
      forall i | 0 <= i < |fl|
        ensures fl[i] < b
      {
        MulLeft(blockSize, n - 2 - i, n - 2);
      }
      ThreadsSkip(prev.1, prev.0, fl, b, prev.0);
      assert InitialFreeList(blockSize, n)[1..] == fl;
    }
  }

  /** `allocate()` on the links: the head block is handed out and the head moves to the
      link stored in it. A block whose link was never written is on no list `Threads`
      describes, so its link is read as null. */
  function LinkedAllocate(lp: LinkedPool): (r: Result<(LinkedPool, int), AllocError>)
    ensures r.Err? <==> lp.head.None?
    ensures r.Ok? ==> lp.head == Some(r.value.1) && r.value.0.next == lp.next
  {
    match lp.head
    case None => Err(BadAlloc)
    case Some(b) => Ok((lp.(head := if b in lp.next then lp.next[b] else None), b))
  }

  /** `deallocate(ptr)` on the links: `block->next = freeList; freeList = block` for a
      pointer inside the pool. */
  function LinkedDeallocate(lp: LinkedPool, ptr: Option<int>): (r: LinkedPool)
    ensures r.blockSize == lp.blockSize && r.blockCount == lp.blockCount
    ensures ptr.None? ==> r == lp
  {
    match ptr
    case None => lp
    case Some(b) =>
      if b < 0 || b >= lp.blockSize * lp.blockCount then lp
      else lp.(head := Some(b), next := lp.next[b := lp.head])
  }

  /** The sequence view is faithful for `allocate`: the same outcome, the same block, and
      the links still thread the remaining free list. */
  lemma LinkedAllocateAgrees(lp: LinkedPool, p: MemoryPool)
    requires Threads(lp.next, lp.head, p.freeList)
    ensures LinkedAllocate(lp).Err? <==> Allocate(p).Err?
    ensures LinkedAllocate(lp).Ok? ==>
      && LinkedAllocate(lp).value.1 == Allocate(p).value.1
      && Threads(LinkedAllocate(lp).value.0.next, LinkedAllocate(lp).value.0.head, Allocate(p).value.0.freeList)
  {
  }

  /** The sequence view is faithful for `deallocate` of null, of a foreign pointer, and of
      any pointer that is not already on the free list. */
  lemma LinkedDeallocateAgrees(lp: LinkedPool, p: MemoryPool, ptr: Option<int>)
    requires lp.blockSize == p.blockSize && lp.blockCount == p.blockCount
    requires Threads(lp.next, lp.head, p.freeList)
    requires ptr.Some? ==> ptr.value !in p.freeList
    ensures Threads(LinkedDeallocate(lp, ptr).next, LinkedDeallocate(lp, ptr).head, Deallocate(p, ptr).freeList)
  {
    if ptr.Some? && InPool(p, ptr.value) {
      var b := ptr.value;
      ThreadsSkip(lp.next, lp.head, p.freeList, b, lp.head);
      assert ([b] + p.freeList)[1..] == p.freeList;
    }
  }

  /** Freeing the head block a second time stores a link from the block to itself:
      from then on `allocate` hands out that same block and leaves the pool as it was,
      so it never throws `bad_alloc` again. */
  lemma DoubleFreeLoops(lp: LinkedPool, b: int)
    requires lp.head == Some(b) && 0 <= b < lp.blockSize * lp.blockCount
    ensures var q := LinkedDeallocate(lp, Some(b)); LinkedAllocate(q) == Ok((q, b))
  {
  }

  /** Where the two views part: freeing block 64 of a fresh two-block pool, which is
      already free, lists it twice in the sequence view, but makes it its own successor
      on the links. */
  lemma DoubleFreeDiverges()
    ensures Deallocate(NewMemoryPool(64, 2), Some(64)).freeList == [64, 64, 0]
    ensures var q := LinkedDeallocate(NewLinkedPool(64, 2), Some(64));
      q.head == Some(64) && q.next[64] == Some(64)
  {
  }

  // ------------------------------------------------------------------ ObjectPool

  /** `ObjectPool<T>(count)`: a `MemoryPool` of `count` blocks of `sizeof(T)` bytes.
      Constructing and destroying the `T` in the block is not modelled. */
  datatype ObjectPool = ObjectPool(pool: MemoryPool, objectSize: nat)

  function NewObjectPool(objectSize: nat, count: nat): (op: ObjectPool)
    requires objectSize >= PointerSize
    ensures op.pool == NewMemoryPool(objectSize, count) && op.objectSize == objectSize
  {
    ObjectPool(NewMemoryPool(objectSize, count), objectSize)
  }

  function Capacity(op: ObjectPool): nat
  {
    op.pool.blockCount
  }

  function ObjectAllocate(op: ObjectPool): (r: Result<(ObjectPool, int), AllocError>)
    ensures r.Err? <==> |op.pool.freeList| == 0
    ensures r.Ok? ==> Capacity(r.value.0) == Capacity(op)
  {
    match Allocate(op.pool)
    case Err(e) => Err(e)
    case Ok((pool', b)) => Ok((op.(pool := pool'), b))
  }

  /** `deallocate(obj)`: null is ignored, anything else is handed to the pool. */
  function ObjectDeallocate(op: ObjectPool, obj: Option<int>): (r: ObjectPool)
    ensures Capacity(r) == Capacity(op)
    ensures obj.None? ==> r == op
  {
    match obj
    case None => op
    case Some(_) => op.(pool := Deallocate(op.pool, obj))
  }

  /** `capacity()` is the count the pool was built with, however many objects are out. */
  lemma CapacityIsCount(objectSize: nat, count: nat, ops: seq<Option<Option<int>>>)
    requires objectSize >= PointerSize
    ensures Capacity(RunObjectPool(NewObjectPool(objectSize, count), ops)) == count
  {
    CapacityPreserved(NewObjectPool(objectSize, count), ops);
  }

  /** Runs a sequence of requests: `None` allocates, `Some(obj)` deallocates `obj`; an
      allocation that throws leaves the pool as it was. */
  function RunObjectPool(op: ObjectPool, ops: seq<Option<Option<int>>>): ObjectPool
    decreases |ops|
  {
    if |ops| == 0 then op
    else
      var op' := match ops[0]
        case None => (match ObjectAllocate(op) case Ok((q, _)) => q case Err(_) => op)
        case Some(obj) => ObjectDeallocate(op, obj);
      RunObjectPool(op', ops[1..])
  }

  lemma {:induction false} CapacityPreserved(op: ObjectPool, ops: seq<Option<Option<int>>>)
    ensures Capacity(RunObjectPool(op, ops)) == Capacity(op)
    decreases |ops|
  {
    if |ops| > 0 {
      var op' := match ops[0]
        case None => (match ObjectAllocate(op) case Ok((q, _)) => q case Err(_) => op)
        case Some(obj) => ObjectDeallocate(op, obj);
      CapacityPreserved(op', ops[1..]);
    }
  }

  // ------------------------------------------------------------------ ArenaAllocator

  /** `size_t` arithmetic wraps modulo 2^64. */
  const WordModulus: nat := 0x1_0000_0000_0000_0000

  function Wrap(x: int): (r: nat)
    ensures r < WordModulus
  {
    x % WordModulus
  }

  lemma WrapSmall(x: int)
    requires 0 <= x < WordModulus
    ensures Wrap(x) == x
  {
  }

  /** `(off + alignment - 1) & ~(alignment - 1)` on `size_t`. */
  function AlignUp(off: nat, alignment: nat): nat
  {
    BitAnd(Wrap(off + alignment - 1), WordModulus - 1 - Wrap(alignment - 1))
  }

  predicate IsPowerOfTwo(a: nat)
  {
    exists k: nat :: k < 64 && a == Pow2(k)
  }

  lemma WordIsPow2()
    ensures Pow2(64) == WordModulus
  {
    assert Pow2(8) == 0x100;
    Pow2Add(8, 8);
    assert Pow2(16) == 0x1_0000;
    Pow2Add(16, 16);
    assert Pow2(32) == 0x1_0000_0000;
    Pow2Add(32, 32);
  }

  /** Without wrap-around, the mask clears the low `k` bits of `off + 2^k - 1`. */
  lemma AlignUpClearsLowBits(off: nat, k: nat)
    requires k < 64 && off + Pow2(k) - 1 < WordModulus
    ensures AlignUp(off, Pow2(k)) == ClearLow(off + Pow2(k) - 1, k)
  {
    var a := Pow2(k);
    var v := off + a - 1;
    WordIsPow2();
    WrapSmall(v);
    WrapSmall(a - 1);
    assert WordModulus - 1 - Wrap(a - 1) == Pow2(64) - Pow2(k);
    HighMask(v, 64, k);
  }

  /** For a power-of-two alignment and no wrap-around, `AlignUp` is the least multiple
      of `alignment` that is at least `off`. */
  lemma AlignUpIsNextMultiple(off: nat, alignment: nat)
    requires IsPowerOfTwo(alignment) && off + alignment - 1 < WordModulus
    ensures AlignUp(off, alignment) % alignment == 0
    ensures off <= AlignUp(off, alignment) < off + alignment
  {
    var k: nat :| k < 64 && alignment == Pow2(k);
    AlignUpClearsLowBits(off, k);
    ClearLowRoundsDown(off + alignment - 1, k);
  }

  /** `ArenaAllocator`: `blockCount` blocks of `blockSize` bytes (`blocks`), the index
      of `currentBlock` and `currentOffset` into it. */
  datatype Arena = Arena(blockSize: nat, blockCount: nat, current: nat, offset: nat)

  /** Where an allocation lands: a block index and a byte offset into that block. */
  datatype Place = Place(block: nat, offset: nat)

  /** `alignof(max_align_t)` on the x86-64 targets the demo is built for. */
  const DefaultAlignment: nat := 16

  /** Sizes beyond which the model does not claim anything about wrap-around. */
  const MaxBlockSize: nat := 0x4000_0000_0000_0000

  /** The state every constructed arena is in: at least one block, the current one among
      them, and `size_t` fields. */
  predicate ArenaOk(a: Arena)
  {
    0 < a.blockCount && a.current < a.blockCount && a.offset < WordModulus && a.blockSize < WordModulus
  }

  /** `ArenaAllocator(blockSize)`: one block, allocated by `allocateNewBlock`. */
  function NewArena(blockSize: nat): (a: Arena)
    requires blockSize < WordModulus
    ensures ArenaOk(a) && a.offset == 0 && a.current == 0
    ensures TotalAllocated(a) == blockSize
  {
    Arena(blockSize, 1, 0, 0)
  }

  /** `totalAllocated()`: every block counts in full. */
  function TotalAllocated(a: Arena): nat
  {
    a.blockCount * a.blockSize
  }

  /** The test `alignedOffset + size > blockSize` of `allocate`, in `size_t`. */
  predicate NeedsNewBlock(a: Arena, size: nat, alignment: nat)
  {
    Wrap(AlignUp(a.offset, alignment) + size) > a.blockSize
  }

  /** `allocate(size, alignment)` as the source writes it: when the aligned request does
      not fit, a new block is appended and the request placed at its start, whatever its
      size. */
  function ArenaAllocate(a: Arena, size: nat, alignment: nat): (r: (Arena, Place))
    requires size < WordModulus
    ensures r.0.blockSize == a.blockSize && r.1.block == r.0.current
    ensures NeedsNewBlock(a, size, alignment) ==>
      r.0.blockCount == a.blockCount + 1 && r.1 == Place(a.blockCount, 0) && r.0.offset == size
    ensures !NeedsNewBlock(a, size, alignment) ==>
      && r.0.blockCount == a.blockCount && r.0.current == a.current
      && r.1.offset == AlignUp(a.offset, alignment) && r.0.offset == Wrap(r.1.offset + size) <= a.blockSize
    ensures ArenaOk(a) ==> ArenaOk(r.0)
  {
    var aligned := AlignUp(a.offset, alignment);
    if Wrap(aligned + size) > a.blockSize then
      (Arena(a.blockSize, a.blockCount + 1, a.blockCount, Wrap(0 + size)), Place(a.blockCount, 0))
    else
      (a.(offset := Wrap(aligned + size)), Place(a.current, aligned))
  }

  /** `totalAllocated()` grows by one block exactly when the request does not fit. */
  lemma TotalAllocatedGrowth(a: Arena, size: nat, alignment: nat)
    requires size < WordModulus
    ensures var r := ArenaAllocate(a, size, alignment).0;
      TotalAllocated(r) == TotalAllocated(a) + (if NeedsNewBlock(a, size, alignment) then a.blockSize else 0)
  {
  }

  /** `reset()`: back to the start of the first block; every block is kept. */
  function Reset(a: Arena): (r: Arena)
    ensures r.offset == 0 && r.blockCount == a.blockCount && r.blockSize == a.blockSize
    ensures a.blockCount > 0 ==> r.current == 0
    ensures TotalAllocated(r) == TotalAllocated(a)
    ensures ArenaOk(a) ==> ArenaOk(r)
  {
    if a.blockCount > 0 then Arena(a.blockSize, a.blockCount, 0, 0) else a.(offset := 0)
  }

  /** The corrected `allocate`: a request larger than a block cannot be placed in one, so
      it fails with `bad_alloc`; every other request behaves as in the source. */
  function ArenaAllocateChecked(a: Arena, size: nat, alignment: nat): (r: Result<(Arena, Place), AllocError>)
    requires size < WordModulus
    ensures r.Err? <==> size > a.blockSize
    ensures r.Ok? ==> r.value == ArenaAllocate(a, size, alignment)
  {
    if size > a.blockSize then Err(BadAlloc) else Ok(ArenaAllocate(a, size, alignment))
  }

  /** The offset never passes the end of the current block when no request exceeds a block. */
  predicate WithinBlock(a: Arena)
  {
    ArenaOk(a) && a.offset <= a.blockSize <= MaxBlockSize
  }

  /** Every allocation the corrected `allocate` hands out lies inside its block, at an
      offset that is a multiple of the (power-of-two) alignment, and the arena stays
      within its block. */
  lemma CheckedAllocationFits(a: Arena, size: nat, alignment: nat)
    requires WithinBlock(a) && size < WordModulus
    requires IsPowerOfTwo(alignment) && alignment <= MaxBlockSize
    ensures var r := ArenaAllocateChecked(a, size, alignment);
      r.Ok? ==> && r.value.1.offset + size <= a.blockSize
                && r.value.1.offset % alignment == 0
                && r.value.1.block < r.value.0.blockCount
                && WithinBlock(r.value.0)
  {
    if size <= a.blockSize {
      AlignUpIsNextMultiple(a.offset, alignment);
      var aligned := AlignUp(a.offset, alignment);
      WrapSmall(aligned + size);
      var r := ArenaAllocate(a, size, alignment);
      if NeedsNewBlock(a, size, alignment) {
        assert r.1.offset == 0;
        SmallMod(0, alignment);
      } else {
        assert r.1.offset == aligned;
      }
    }
  }

  /** The source's `allocate`, handed a request larger than a block, places it at the start
      of a fresh block that it overruns. */
  lemma ArenaAllocationOverruns(a: Arena, size: nat, alignment: nat)
    requires WithinBlock(a) && a.blockSize < size <= MaxBlockSize
    requires IsPowerOfTwo(alignment) && alignment <= MaxBlockSize
    ensures var r := ArenaAllocate(a, size, alignment);
      r.1 == Place(a.blockCount, 0) && r.1.offset + size > a.blockSize
  {
    AlignUpIsNextMultiple(a.offset, alignment);
    var aligned := AlignUp(a.offset, alignment);
    WrapSmall(aligned + size);
    assert NeedsNewBlock(a, size, alignment);
  }

  /** The overrun on concrete numbers: 2000 bytes from a fresh arena of 1 KiB blocks. */
  lemma ArenaOverrunExample()
    ensures ArenaAllocate(NewArena(1024), 2000, DefaultAlignment).1 == Place(1, 0)
    ensures ArenaAllocateChecked(NewArena(1024), 2000, DefaultAlignment) == Err(BadAlloc)
  {
    assert IsPowerOfTwo(DefaultAlignment) by { assert Pow2(4) == 16; }
    ArenaAllocationOverruns(NewArena(1024), 2000, DefaultAlignment);
  }

  /** After `reset()`, a request that fits a block lands at the start of the first block. */
  lemma ResetThenAllocate(a: Arena, size: nat, alignment: nat)
    requires ArenaOk(a) && size <= a.blockSize
    requires IsPowerOfTwo(alignment)
    ensures ArenaAllocate(Reset(a), size, alignment).1 == Place(0, 0)
  {
    AlignUpZero(alignment);
    assert Wrap(0 + size) == size;
  }

  /** Offset 0 is aligned for every power of two. */
  lemma AlignUpZero(alignment: nat)
    requires IsPowerOfTwo(alignment)
    ensures AlignUp(0, alignment) == 0
  {
    var k: nat :| k < 64 && alignment == Pow2(k);
    AlignUpZeroPow2(k);
  }

  lemma AlignUpZeroPow2(k: nat)
    requires k < 64
    ensures AlignUp(0, Pow2(k)) == 0
  {
    Pow2BelowWord(k);
    AlignUpClearsLowBits(0, k);
    ClearLowOfSmall(Pow2(k) - 1, k);
  }

  lemma Pow2BelowWord(k: nat)
    requires k < 64
    ensures Pow2(k) < WordModulus
  {
    WordIsPow2();
    Pow2Monotone(k, 63);
    assert Pow2(64) == 2 * Pow2(63);
  }
}
