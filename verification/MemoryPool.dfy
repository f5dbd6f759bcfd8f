/**
 The block pool: a bitmap of taken blocks, a count of used bytes, blocks zeroed when given back.
 Pointers are offsets into the pool memory.
 */
module MemoryPool {
  import opened Bytes
  import opened Wrappers

  // ---------------------------------------------------------------- the pool as a set of blocks

  /** What the pool means: which blocks are taken and what every byte holds. */
  datatype Pool = Pool(blockSize: nat, live: set<nat>, memory: seq<byte>) {
    function Blocks(): nat
      requires blockSize > 0
    {
      |memory| / blockSize
    }
  }

  /** The lowest block from `k` on that is not taken. */
  function LowestFree(live: set<nat>, k: nat, n: nat): (r: Option<nat>)
    decreases n - k
  {
    if k >= n then None else if k !in live then Some(k) else LowestFree(live, k + 1, n)
  }

  /** Zeroing one block. */
  function Zeroed(memory: seq<byte>, from: nat, len: nat): (r: seq<byte>)
    requires from + len <= |memory|
    ensures |r| == |memory|
  {
    memory[..from] + Zeros(len) + memory[from + len..]
  }

  datatype Op = Alloc | Free(ptr: int) | Reset | Write(at: nat, value: byte)

  /** The block a pointer frees, if it is the start of a taken one. */
  function FreedBlock(p: Pool, ptr: int): Option<nat>
    requires p.blockSize > 0
  {
    if 0 <= ptr < |p.memory| && ptr % p.blockSize == 0 && ptr / p.blockSize in p.live
    then Some(ptr / p.blockSize) else None
  }

  ghost predicate Inv(p: Pool) {
    && p.blockSize > 0
    && (forall b <- p.live :: b < p.Blocks())
    && (forall x :: 0 <= x < |p.memory| && x / p.blockSize !in p.live ==> p.memory[x] == 0)
  }

  /** Clients write only inside blocks they hold. */
  ghost predicate Allowed(p: Pool, op: Op)
    requires p.blockSize > 0
  {
    op.Write? ==> op.at < |p.memory| && op.at / p.blockSize in p.live
  }

  /** One operation: the pool afterwards and, for an allocation, the block it returned. */
  function Step(p: Pool, op: Op): (Pool, Option<nat>)
    requires p.blockSize > 0 && (forall b <- p.live :: b < p.Blocks())
  {
    match op
    case Alloc =>
      var b := LowestFree(p.live, 0, p.Blocks());
      (if b.Some? then p.(live := p.live + {b.value}) else p, b)
    case Free(ptr) =>
      var b := FreedBlock(p, ptr);
      if b == None then (p, None) else
        assert b.value in p.live && b.value < p.Blocks();
        BlockInside(b.value, p.blockSize, |p.memory|);
        (p.(live := p.live - {b.value}, memory := Zeroed(p.memory, b.value * p.blockSize, p.blockSize)), None)
    case Reset => (p.(live := {}, memory := Zeros(|p.memory|)), None)
    case Write(at, value) => (if at < |p.memory| then p.(memory := p.memory[at := value]) else p, None)
  }

  /** Every whole block lies inside the memory. */
  lemma BlockInside(b: nat, size: nat, total: nat)
    requires size > 0 && b < total / size
    ensures b * size + size <= total
  {
    MulMonotonic(size, b + 1, total / size);
    MulDistributes(size, b, 1);
  }

  /** The bytes of block `b` are those whose quotient by the block size is `b`. */
  lemma QuotientInBlock(x: nat, b: nat, size: nat)
    requires size > 0
    ensures x / size == b <==> b * size <= x < b * size + size
  {
    if b * size <= x < b * size + size {
      DivModUnique(x, size, b, x - b * size);
    }
  }

  lemma {:induction false} LowestFreeIsLowest(live: set<nat>, k: nat, n: nat)
    ensures match LowestFree(live, k, n)
            case None => forall i :: k <= i < n ==> i in live
            case Some(b) => k <= b < n && b !in live && forall i :: k <= i < b ==> i in live
    decreases n - k
  {
    if k < n && k in live {
      LowestFreeIsLowest(live, k + 1, n);
    }
  }

  // ---------------------------------------------------------------- every run

  lemma FreeKeepsInv(p: Pool, b: nat)
    requires Inv(p) && b in p.live && b * p.blockSize + p.blockSize <= |p.memory|
    ensures Inv(p.(live := p.live - {b}, memory := Zeroed(p.memory, b * p.blockSize, p.blockSize)))
  {
    var q := p.(live := p.live - {b}, memory := Zeroed(p.memory, b * p.blockSize, p.blockSize));
    forall x | 0 <= x < |q.memory| && x / q.blockSize !in q.live
      ensures q.memory[x] == 0
    {
      QuotientInBlock(x, b, p.blockSize);
    }
  }

  lemma StepKeepsInv(p: Pool, op: Op)
    requires Inv(p) && Allowed(p, op)
    ensures Inv(Step(p, op).0) && |Step(p, op).0.memory| == |p.memory| && Step(p, op).0.blockSize == p.blockSize
  {
    match op
    case Alloc =>
      LowestFreeIsLowest(p.live, 0, p.Blocks());
    case Free(ptr) =>
      var b := FreedBlock(p, ptr);
      if b.Some? {
        assert b.value in p.live;
        BlockInside(b.value, p.blockSize, |p.memory|);
        FreeKeepsInv(p, b.value);
      }
    case Reset =>
    case Write(at, value) =>
  }

  ghost predicate AllowedRun(p: Pool, ops: seq<Op>)
    requires Inv(p)
    decreases |ops|
  {
    ops == [] || (Allowed(p, ops[0]) && (StepKeepsInv(p, ops[0]); AllowedRun(Step(p, ops[0]).0, ops[1..])))
  }

  ghost function RunPool(p: Pool, ops: seq<Op>): Pool
    requires Inv(p) && AllowedRun(p, ops)
    decreases |ops|
  {
    if ops == [] then p else
      StepKeepsInv(p, ops[0]);
      RunPool(Step(p, ops[0]).0, ops[1..])
  }

  /** In every run in which clients write only inside blocks they hold, free blocks are all zero. */
  lemma {:induction false} EveryRunKeepsInv(p: Pool, ops: seq<Op>)
    requires Inv(p) && AllowedRun(p, ops)
    ensures Inv(RunPool(p, ops))
    ensures |RunPool(p, ops).memory| == |p.memory| && RunPool(p, ops).blockSize == p.blockSize
    decreases |ops|
  {
    if ops != [] {
      StepKeepsInv(p, ops[0]);
      EveryRunKeepsInv(Step(p, ops[0]).0, ops[1..]);
    }
  }

  /**
   After any such run an allocation fails exactly when every block is taken; otherwise it returns
   the lowest free block, which is inside the memory, taken by nobody and all zero.
   */
  lemma AllocAfterAnyRun(start: Pool, ops: seq<Op>)
    requires Inv(start) && AllowedRun(start, ops)
    ensures Inv(RunPool(start, ops))
    ensures var p := RunPool(start, ops);
            match Step(p, Alloc).1
            case None => forall b :: 0 <= b < p.Blocks() ==> b in p.live
            case Some(b) =>
              && b < p.Blocks() && b !in p.live && (forall i :: 0 <= i < b ==> i in p.live)
              && b * p.blockSize + p.blockSize <= |p.memory|
              && p.memory[b * p.blockSize..b * p.blockSize + p.blockSize] == Zeros(p.blockSize)
              && Step(p, Alloc).0 == p.(live := p.live + {b})
  {
    EveryRunKeepsInv(start, ops);
    var p := RunPool(start, ops);
    hide RunPool, AllowedRun;
    LowestFreeIsLowest(p.live, 0, p.Blocks());
    var b := LowestFree(p.live, 0, p.Blocks());
    if b.Some? {
      BlockInside(b.value, p.blockSize, |p.memory|);
      FreeBlockIsZero(p, b.value);
    }
  }

  lemma FreeBlockIsZero(p: Pool, b: nat)
    requires Inv(p) && b !in p.live && b * p.blockSize + p.blockSize <= |p.memory|
    ensures p.memory[b * p.blockSize..b * p.blockSize + p.blockSize] == Zeros(p.blockSize)
  {
    var lo := b * p.blockSize;
    forall x | lo <= x < lo + p.blockSize
      ensures p.memory[x] == 0
    {
      QuotientInBlock(x, b, p.blockSize);
    }
  }

  /**
   A pointer to the start of a taken block gives that block back with all its bytes zero and nothing
   else changed; any other pointer changes nothing. A reset leaves no block taken and only zeros.
   */
  lemma FreeReleases(p: Pool, ptr: int)
    requires Inv(p)
    ensures var q := Step(p, Free(ptr)).0;
            if 0 <= ptr < |p.memory| && ptr % p.blockSize == 0 && ptr / p.blockSize in p.live
            then q.live == p.live - {ptr / p.blockSize} && q.blockSize == p.blockSize && |q.memory| == |p.memory|
                 && forall x :: 0 <= x < |p.memory| ==> q.memory[x] == if ptr <= x < ptr + p.blockSize then 0 else p.memory[x]
            else q == p
    ensures Step(p, Reset).0 == Pool(p.blockSize, {}, Zeros(|p.memory|))
  {
    if 0 <= ptr < |p.memory| && ptr % p.blockSize == 0 {
      FreeAtBlock(p, ptr, ptr / p.blockSize);
      hide Step;
    }
  }

  /** Freeing the same pointer again changes nothing. */
  lemma FreeTwice(p: Pool, ptr: int)
    requires Inv(p)
    ensures var q := Step(p, Free(ptr)).0; Inv(q) && Step(q, Free(ptr)).0 == q
  {
    StepKeepsInv(p, Free(ptr));
  }

  /** Freeing what was just allocated undoes the allocation. */
  lemma FreeUndoesAlloc(p: Pool)
    requires Inv(p) && Step(p, Alloc).1.Some?
    ensures var b := Step(p, Alloc).1.value;
            var q := Step(p, Alloc).0;
            Inv(q) && Step(q, Free(b * p.blockSize)).0 == p
  {
    var b := Step(p, Alloc).1.value;
    LowestFreeIsLowest(p.live, 0, p.Blocks());
    StepKeepsInv(p, Alloc);
    BlockInside(b, p.blockSize, |p.memory|);
    DivModUnique(b * p.blockSize, p.blockSize, b, 0);
    FreeBlockIsZero(p, b);
    assert Zeroed(p.memory, b * p.blockSize, p.blockSize) == p.memory;
    assert p.live + {b} - {b} == p.live;
  }

  // ---------------------------------------------------------------- the bitmap

  function Mask(k: nat): bv8
    requires k < 8
  {
    1 << k
  }

  predicate HasBit(b: bv8, k: nat)
    requires k < 8
  {
    b & Mask(k) != 0
  }

  function WithBit(b: bv8, k: nat): bv8
    requires k < 8
  {
    b | Mask(k)
  }

  function WithoutBit(b: bv8, k: nat): bv8
    requires k < 8
  {
    b & !Mask(k)
  }

  lemma MaskIs(k: nat)
    requires k < 8
    ensures Mask(k) == if k == 0 then 1 else if k == 1 then 2 else if k == 2 then 4 else if k == 3 then 8
                       else if k == 4 then 16 else if k == 5 then 32 else if k == 6 then 64 else 128
  {
    assert k == 0 || k == 1 || k == 2 || k == 3 || k == 4 || k == 5 || k == 6 || k == 7;
  }

  lemma MasksApart(j: nat, k: nat)
    requires j < 8 && k < 8
    ensures Mask(k) != 0
    ensures j != k ==> Mask(j) & Mask(k) == 0
  {
    MaskIs(j);
    MaskIs(k);
    hide Mask;
  }

  lemma ByteUpdates(b: bv8, m: bv8, n: bv8)
    ensures m != 0 ==> (b | m) & m != 0 && (b & !m) & m == 0
    ensures n & m == 0 ==> (b | m) & n == b & n && (b & !m) & n == b & n
  {
  }

  /** Setting or clearing one bit of a byte leaves the others. */
  lemma BitUpdates(b: bv8, j: nat, k: nat)
    requires j < 8 && k < 8
    ensures HasBit(WithBit(b, k), j) <==> (j == k || HasBit(b, j))
    ensures HasBit(WithoutBit(b, k), j) <==> (j != k && HasBit(b, j))
  {
    MasksApart(j, k);
    var m, n := Mask(k), Mask(j);
    hide Mask;
    ByteUpdates(b, m, n);
  }

  /** Whether block `i` is marked as taken. */
  predicate Marked(bits: seq<bv8>, i: nat)
    requires i / 8 < |bits|
  {
    HasBit(bits[i / 8], i % 8)
  }

  function Mark(bits: seq<bv8>, i: nat): (r: seq<bv8>)
    requires i / 8 < |bits|
    ensures |r| == |bits|
  {
    bits[i / 8 := WithBit(bits[i / 8], i % 8)]
  }

  function Unmark(bits: seq<bv8>, i: nat): (r: seq<bv8>)
    requires i / 8 < |bits|
    ensures |r| == |bits|
  {
    bits[i / 8 := WithoutBit(bits[i / 8], i % 8)]
  }

  lemma MarkOne(bits: seq<bv8>, i: nat, j: nat)
    requires i / 8 < |bits| && j / 8 < |bits|
    ensures Marked(Mark(bits, i), j) <==> (j == i || Marked(bits, j))
    ensures Marked(Unmark(bits, i), j) <==> (j != i && Marked(bits, j))
  {
    hide HasBit, WithBit, WithoutBit;
    BitUpdates(bits[i / 8], j % 8, i % 8);
  }

  /** The blocks a bitmap marks. */
  ghost function Live(bits: seq<bv8>, n: nat): set<nat>
    requires n <= 8 * |bits|
  {
    set i: nat | i < n && Marked(bits, i)
  }

  /** No bit is set beyond the last block. */
  ghost predicate Clean(bits: seq<bv8>, n: nat) {
    forall i: nat :: n <= i < 8 * |bits| ==> !Marked(bits, i)
  }

  lemma MarkBlock(bits: seq<bv8>, i: nat, n: nat)
    requires i < n <= 8 * |bits| && Clean(bits, n)
    ensures Live(Mark(bits, i), n) == Live(bits, n) + {i} && Clean(Mark(bits, i), n)
    ensures Live(Unmark(bits, i), n) == Live(bits, n) - {i} && Clean(Unmark(bits, i), n)
  {
    hide Marked, Mark, Unmark;
    forall j: nat | j < 8 * |bits|
      ensures Marked(Mark(bits, i), j) <==> (j == i || Marked(bits, j))
    {
      MarkOne(bits, i, j);
    }
    forall j: nat | j < 8 * |bits|
      ensures Marked(Unmark(bits, i), j) <==> (j != i && Marked(bits, j))
    {
      MarkOne(bits, i, j);
    }
  }

  lemma NoneMarked(bits: seq<bv8>, n: nat)
    requires n <= 8 * |bits| && forall k :: 0 <= k < |bits| ==> bits[k] == 0
    ensures Live(bits, n) == {} && Clean(bits, n)
  {
    hide Mask;
  }

  /** A set of block numbers below `n` has at most `n` members, and `n` only when it has them all. */
  lemma {:induction false} AtMostAll(live: set<nat>, n: nat)
    requires forall b <- live :: b < n
    ensures |live| <= n
    ensures |live| == n <==> forall b: nat :: b < n ==> b in live
    decreases n
  {
    if n == 0 {
      assert live == {};
    } else {
      AtMostAll(live - {n - 1}, n - 1);
      assert n - 1 !in live ==> live - {n - 1} == live;
      assert forall b: nat :: b < n - 1 && b in live - {n - 1} ==> b in live;
    }
  }

  /** Bytes in use reach the size of the memory only when every block is taken. */
  lemma FullMeansAllTaken(live: set<nat>, blockSize: nat, total: nat)
    requires blockSize > 0 && (forall b <- live :: b < total / blockSize)
    ensures blockSize * |live| <= total
    ensures blockSize * |live| >= total ==> forall b: nat :: b < total / blockSize ==> b in live
    ensures total - blockSize * |live| < blockSize <==> forall b: nat :: b < total / blockSize ==> b in live
  {
    AtMostAll(live, total / blockSize);
    MulMonotonic(blockSize, |live|, total / blockSize);
    if |live| < total / blockSize {
      MulMonotonic(blockSize, |live| + 1, total / blockSize);
      MulDistributes(blockSize, |live|, 1);
    }
  }

  /** When the bytes in use reach the size of the memory there is nothing left to allocate. */
  lemma FullPool(p: Pool)
    requires p.blockSize > 0 && (forall b <- p.live :: b < p.Blocks())
    requires p.blockSize * |p.live| >= |p.memory|
    ensures Step(p, Alloc) == (p, None)
  {
    FullMeansAllTaken(p.live, p.blockSize, |p.memory|);
    LowestFreeIsLowest(p.live, 0, p.Blocks());
  }

  /** What freeing a pointer to the start of block `b` does. */
  lemma FreeAtBlock(p: Pool, ptr: nat, b: nat)
    requires p.blockSize > 0 && (forall b <- p.live :: b < p.Blocks())
    requires ptr < |p.memory| && ptr % p.blockSize == 0 && b == ptr / p.blockSize
    ensures b !in p.live ==> Step(p, Free(ptr)).0 == p
    ensures b in p.live ==>
              && ptr + p.blockSize <= |p.memory|
              && Step(p, Free(ptr)).0 == p.(live := p.live - {b}, memory := Zeroed(p.memory, ptr, p.blockSize))
  {
    if b in p.live {
      assert b < p.Blocks();
      BlockInside(b, p.blockSize, |p.memory|);
      assert ptr == b * p.blockSize;
    }
  }

  /** Whether the bitmap has a byte for the block a pointer names. */
  predicate BitmapCovers(total: nat, size: nat, ptr: nat)
    requires size > 0
  {
    ptr % size == 0 ==> ptr / size / 8 < (total / size + 7) / 8
  }

  /** Freeing stays inside the bitmap for every pointer exactly when no incomplete block starts a new byte of it. */
  lemma FreeStaysInBitmap(total: nat, size: nat)
    requires size > 0
    ensures (forall ptr: nat :: ptr < total ==> BitmapCovers(total, size, ptr))
       <==> (total % size == 0 || total / size % 8 != 0)
  {
    var blocks := total / size;
    assert total == blocks * size + total % size;
    if total % size != 0 && blocks % 8 == 0 {
      DivModUnique(blocks * size, size, blocks, 0);
      assert !BitmapCovers(total, size, blocks * size);
    } else {
      forall ptr: nat | ptr < total && ptr % size == 0
        ensures BitmapCovers(total, size, ptr)
      {
        var b := ptr / size;
        assert ptr == b * size;
        if b > blocks {
          MulMonotonic(size, blocks + 1, b);
          MulDistributes(size, blocks, 1);
          assert false;
        }
        if b == blocks {
          assert total % size != 0;
        }
      }
    }
  }

  // ---------------------------------------------------------------- the pool as it is stored

  class BlockPool {
    var memory: array?<byte>
    var bitmap: array?<bv8>
    var totalSize: nat
    var blockSize: nat
    var used: nat

    ghost predicate Valid()
      reads this, memory, bitmap
    {
      && memory != null && bitmap != null && (memory as object) != (bitmap as object)
      && blockSize > 0 && memory.Length == totalSize
      && bitmap.Length == (totalSize / blockSize + 7) / 8
      && Clean(bitmap[..], totalSize / blockSize)
      && used == blockSize * |Live(bitmap[..], totalSize / blockSize)|
    }

    /** The pool this state stands for. */
    ghost function View(): (p: Pool)
      requires Valid()
      reads this, memory, bitmap
      ensures p.blockSize > 0 && forall b <- p.live :: b < p.Blocks()
    {
      Pool(blockSize, Live(bitmap[..], totalSize / blockSize), memory[..])
    }

    /** memory_pool_init; the two flags say which allocations the system refuses. */
    method Init(size: nat, block: nat, refuseMemory: bool, refuseBitmap: bool) returns (ok: bool)
      modifies this
      ensures ok <==> 0 < block <= size && !refuseMemory && !refuseBitmap
      ensures ok ==> Valid() && fresh(memory) && fresh(bitmap) && View() == Pool(block, {}, Zeros(size)) && used == 0
      ensures size == 0 || block == 0 ==> unchanged(this)
      ensures size > 0 && block > 0 ==> totalSize == size && blockSize == block && used == 0
      ensures size > 0 && block > 0 && refuseMemory ==> memory == null && bitmap == old(bitmap)
      ensures size > 0 && block > 0 && !refuseMemory && !ok ==> bitmap == null
    {
      if size == 0 || block == 0 {
        return false;
      }
      totalSize, blockSize, used := size, block, 0;
      if refuseMemory {
        memory := null;
        return false;
      }
      memory := new byte[size](_ => 0);
      var numBlocks := size / block;
      var bitmapSize := (numBlocks + 7) / 8;
      if bitmapSize == 0 || refuseBitmap {
        bitmap := null;
        return false;
      }
      hide HasBit, Live, Clean, Marked;
      bitmap := new bv8[bitmapSize](_ => 0);
      NoneMarked(bitmap[..], numBlocks);
      assert memory[..] == Zeros(size);
      assert |Live(bitmap[..], numBlocks)| == 0;
      ok := true;
    }

    /** The first unmarked block. */
    method FirstFree() returns (i: nat)
      requires Valid()
      ensures LowestFree(View().live, 0, View().Blocks()) == if i < View().Blocks() then Some(i) else None
    {
      hide HasBit;
      var numBlocks := totalSize / blockSize;
      i := 0;
      while i < numBlocks
        invariant 0 <= i <= numBlocks
        invariant LowestFree(View().live, 0, numBlocks) == LowestFree(View().live, i, numBlocks)
      {
        if !HasBit(bitmap[i / 8], i % 8) {
          assert !Marked(bitmap[..], i);
          return;
        }
        assert Marked(bitmap[..], i);
        i := i + 1;
      }
    }

    /** Take block `i`. */
    method Take(i: nat)
      requires Valid() && i < View().Blocks() && i !in View().live
      modifies this`used, bitmap
      ensures Valid() && View() == old(View()).(live := old(View()).live + {i})
    {
      hide HasBit, WithBit, WithoutBit, Marked, Clean;
      ghost var before := bitmap[..];
      ghost var n := totalSize / blockSize;
      MarkBlock(before, i, n);
      MulDistributes(blockSize, |Live(before, n)|, 1);
      bitmap[i / 8] := WithBit(bitmap[i / 8], i % 8);
      assert bitmap[..] == Mark(before, i);
      used := used + blockSize;
    }

    /** Give block `i` back. */
    method Release(i: nat)
      requires Valid() && i < View().Blocks() && i in View().live
      modifies this`used, bitmap
      ensures Valid() && View() == old(View()).(live := old(View()).live - {i})
    {
      hide HasBit, WithBit, WithoutBit, Marked, Clean;
      ghost var before := bitmap[..];
      ghost var n := totalSize / blockSize;
      MarkBlock(before, i, n);
      MulDistributes(blockSize, |Live(before, n)| - 1, 1);
      bitmap[i / 8] := WithoutBit(bitmap[i / 8], i % 8);
      assert bitmap[..] == Unmark(before, i);
      used := used - blockSize;
    }

    /** memory_pool_alloc: take the first unmarked block. */
    method Alloc() returns (offset: Option<nat>)
      requires Valid()
      modifies this`used, bitmap
      ensures Valid() && View() == Step(old(View()), Op.Alloc).0
      ensures match Step(old(View()), Op.Alloc).1
              case None => offset == None
              case Some(b) => offset == Some(b * blockSize)
    {
      hide LowestFree, Live, Clean;
      if used >= totalSize {
        FullPool(View());
        return None;
      }
      var i := FirstFree();
      LowestFreeIsLowest(View().live, 0, View().Blocks());
      if i >= totalSize / blockSize {
        return None;
      }
      Take(i);
      offset := Some(i * blockSize);
    }

    /** secure_zero on one block. */
    method ZeroBlock(from: nat)
      requires Valid() && from + blockSize <= totalSize
      modifies memory
      ensures Valid() && View() == old(View()).(memory := Zeroed(old(View()).memory, from, blockSize))
    {
      hide Live, Clean;
      ghost var before := memory[..];
      var i := 0;
      while i < blockSize
        invariant 0 <= i <= blockSize
        invariant memory[..] == Zeroed(before, from, i)
      {
        memory[from + i] := 0;
        i := i + 1;
      }
    }

    /**
     memory_pool_free of the pointer `ptr` bytes after the start of the memory.  The bitmap is read
     before anything else is known of the block, so its byte must exist (FreeStaysInBitmap).
     */
    method Free(ptr: int)
      requires Valid()
      requires 0 <= ptr < totalSize ==> BitmapCovers(totalSize, blockSize, ptr)
      modifies this`used, bitmap, memory
      ensures Valid() && View() == Step(old(View()), Op.Free(ptr)).0
    {
      if ptr < 0 || ptr >= totalSize {
        return;
      }
      if ptr % blockSize != 0 {
        return;
      }
      var block := ptr / blockSize;
      assert HasBit(bitmap[block / 8], block % 8) == Marked(bitmap[..], block);
      hide HasBit;
      assert Marked(bitmap[..], block) <==> block in View().live;
      hide Marked, Live, Clean;
      FreeAtBlock(View(), ptr, block);
      hide Step, Zeroed;
      if HasBit(bitmap[block / 8], block % 8) {
        Release(block);
        ZeroBlock(ptr);
      }
    }

    /** memory_pool_reset. */
    method Reset()
      requires Valid()
      modifies this`used, bitmap, memory
      ensures Valid() && View() == Step(old(View()), Op.Reset).0 == Pool(blockSize, {}, Zeros(totalSize)) && used == 0
    {
      ghost var n := totalSize / blockSize;
      hide HasBit, Marked, Live, Clean;
      forall i | 0 <= i < bitmap.Length {
        bitmap[i] := 0;
      }
      NoneMarked(bitmap[..], n);
      forall i | 0 <= i < memory.Length {
        memory[i] := 0;
      }
      used := 0;
      assert memory[..] == Zeros(totalSize);
    }

    /** A client writes a byte of a block it holds. */
    method Write(at: nat, value: byte)
      requires Valid() && at < totalSize
      modifies memory
      ensures Valid() && View() == Step(old(View()), Op.Write(at, value)).0
      ensures View() == Pool(blockSize, old(View()).live, old(memory[..])[at := value])
    {
      memory[at] := value;
    }

    /** memory_pool_used: what the taken blocks add up to. */
    function Used(): (bytes: nat)
      requires Valid()
      reads this, memory, bitmap
      ensures bytes == blockSize * |View().live|
    {
      used
    }

    /** memory_pool_available: what is left, enough for one block exactly when an allocation succeeds. */
    function Available(): (bytes: nat)
      requires Valid()
      reads this, memory, bitmap
      ensures bytes == totalSize - blockSize * |View().live|
      ensures bytes >= blockSize <==> Step(View(), Op.Alloc).1.Some?
    {
      FullMeansAllTaken(View().live, blockSize, totalSize);
      LowestFreeIsLowest(View().live, 0, View().Blocks());
      totalSize - used
    }
  }
}
