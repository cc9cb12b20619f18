/**
 * The TLSF heap object of memory/heap.cpp. Its physical block list is the
 * value of heap_blocks.dfy, held in a field that every operation replaces;
 * the counters the heap keeps beside it are fields too. Allocations are
 * named by their index in the block list, the position of the block the
 * source hands out.
 */
module Heaps {
  import opened Status
  import opened Ranges
  import opened HeapBlocks
  import Tlsf

  /** `TlsfHeapStats`, without the block pool's statistics. */
  datatype HeapStats = HeapStats(freeListSize: nat, usedMemory: nat, freeMemory: nat, blockCount: nat, mallocCount: nat, freeCount: nat)

  /** Unsigned 64-bit wrap-around of a difference, as `size_t` arithmetic computes it. */
  function Wrap64(x: int): (r: nat)
    ensures r < Tlsf.SizeLimit
    ensures 0 <= x < Tlsf.SizeLimit ==> r == x
  {
    x % Tlsf.SizeLimit
  }

  /** The number of free lists `create` allocates for a heap of `size` bytes. */
  function FreeListCountFor(size: nat): nat
    requires size < Tlsf.SizeLimit
  {
    var memoryClass := Tlsf.SizeToMemoryClass(size);
    if memoryClass == 0 then 0 else Tlsf.GetFreeListSize(memoryClass, Tlsf.SizeToSecondIndex(size, memoryClass))
  }

  /** The bytes of the holes between the first `n + 1` ranges of a sorted list. */
  function HoleBytes(ranges: seq<Range>, n: nat): nat
    requires n < |ranges|
  {
    if n == 0 then 0
    else HoleBytes(ranges, n - 1) + (if ranges[n - 1].back < ranges[n].front then ranges[n].front - ranges[n - 1].back else 0)
  }

  /** The holes of the first `i + 2` ranges: those of the first `i + 1` and the one after range `i`. */
  lemma HoleStep(ranges: seq<Range>, i: nat, total: nat, sum: nat)
    requires i + 1 < |ranges| && total == HoleBytes(ranges, i) && sum == HoleBytes(ranges, i + 1)
    ensures ranges[i].back < ranges[i + 1].front ==> sum == total + Size(Range(ranges[i].back, ranges[i + 1].front))
    ensures ranges[i].back >= ranges[i + 1].front ==> sum == total
  {
  }

  /** The ranges are valid, below 2^64 and sorted by their fronts. */
  predicate SortedRanges(ranges: seq<Range>)
  {
    (forall i :: 0 <= i < |ranges| ==> IsValid(ranges[i]) && ranges[i].back < Tlsf.SizeLimit) &&
    (forall i, j :: 0 <= i < j < |ranges| ==> ranges[i].front <= ranges[j].front)
  }

  class TlsfHeap {
    var blocks: seq<HeapBlock>
    var size: nat
    var reserved: nat
    var mallocCount: nat
    var freeCount: nat
    var freeListCount: nat

    /** The block list is well formed and spans the heap's size. */
    predicate Valid()
      reads this
    {
      WellFormed(blocks) && TotalSize(blocks) == size
    }

    /** `create(range)`: one free null block covering the whole range. */
    constructor Create(range: Range)
      requires IsValid(range) && range.back < Tlsf.SizeLimit
      ensures Valid() && blocks == [HeapBlock(range.front, Size(range), true)] && size == Size(range)
      ensures reserved == 0 && mallocCount == 0 && freeCount == 0 && freeListCount == FreeListCountFor(Size(range))
    {
      blocks := [HeapBlock(range.front, Size(range), true)];
      size := Size(range);
      reserved := 0;
      mallocCount := 0;
      freeCount := 0;
      freeListCount := FreeListCountFor(Size(range));
      SumsSingle(HeapBlock(range.front, Size(range), true));
    }

    /**
     * `create(ranges)`: no ranges is invalid input and one range is
     * `create(range)`; otherwise the heap spans the combined interval and
     * every hole between neighbouring ranges is reserved and counted as
     * reserved memory.
     */
    static method CreateFromRanges(ranges: seq<Range>) returns (status: OsStatus, heap: TlsfHeap?)
      requires SortedRanges(ranges)
      ensures |ranges| == 0 <==> status == InvalidInput
      ensures status == Success <==> heap != null
      ensures heap != null ==> heap.Valid() && heap.size == Size(MergeAll(ranges)) && heap.reserved == HoleBytes(ranges, |ranges| - 1)
    {
      if |ranges| == 0 {
        return InvalidInput, null;
      }
      if |ranges| == 1 {
        heap := new TlsfHeap.Create(ranges[0]);
        assert MergeAll(ranges) == ranges[0];
        return Success, heap;
      }
      var all := CombinedInterval(ranges);
      MergeAllBounds(ranges);
      MergeAllBelow(ranges);
      heap := new TlsfHeap.Create(all);
      var total;
      status, total := ReserveHoles(heap, ranges);
      if status != Success {
        return status, null;
      }
      heap.reserved := total;
    }

    /** The loop of `createFromRanges`: every hole between neighbouring ranges reserved, and the bytes counted. */
    static method ReserveHoles(heap: TlsfHeap, ranges: seq<Range>) returns (status: OsStatus, total: nat)
      requires heap.Valid() && SortedRanges(ranges) && |ranges| > 0
      modifies heap
      ensures heap.Valid() && heap.size == old(heap.size) && status != InvalidInput
      ensures status == Success ==> total == HoleBytes(ranges, |ranges| - 1)
    {
      total := 0;
      var i := 0;
      while i < |ranges| - 1
        invariant 0 <= i <= |ranges| - 1
        invariant heap.Valid() && heap.size == old(heap.size) && total == HoleBytes(ranges, i)
        modifies heap
      {
        var range := ranges[i];
        var next := ranges[i + 1];
        ghost var sum := HoleBytes(ranges, i + 1);
        HoleStep(ranges, i, total, sum);
        if range.back < next.front {
          var hole := Range(range.back, next.front);
          var reserveStatus, index := heap.Reserve(hole);
          if reserveStatus != Success {
            return reserveStatus, 0;
          }
          total := total + Size(hole);
        }
        i := i + 1;
      }
      return Success, total;
    }

    /**
     * `validate`: walks from the null block down and checks that it is free,
     * that every block ends where the one above starts, and that the sizes
     * add up to the heap's size. True exactly for a valid heap.
     */
    method Validate() returns (ok: bool)
      ensures ok <==> Valid()
    {
      if |blocks| == 0 {
        return false;
      }
      var n := |blocks|;
      if !blocks[n - 1].free {
        return false;
      }
      var nextOffset := blocks[n - 1].offset;
      var computedSize := blocks[n - 1].size;
      var i := n - 1;
      assert blocks[i..] == [blocks[i]];
      SumsSingle(blocks[i]);
      while i > 0
        invariant 0 <= i < n
        invariant nextOffset == blocks[i].offset && computedSize == TotalSize(blocks[i..])
        invariant forall k :: i < k < n ==> Abuts(blocks, k)
      {
        if End(blocks[i - 1]) != nextOffset {
          assert !Abuts(blocks, i);
          return false;
        }
        assert blocks[i - 1..][1..] == blocks[i..];
        nextOffset := blocks[i - 1].offset;
        computedSize := computedSize + blocks[i - 1].size;
        i := i - 1;
      }
      assert blocks[0..] == blocks;
      ok := computedSize == size;
    }

    /** `free`: the allocation at `i` is merged with its free neighbours and counted as freed. */
    method Free(i: nat)
      requires Valid() && i < |blocks| && !blocks[i].free
      modifies this
      ensures Valid() && blocks == FreeAt(old(blocks), i)
      ensures FreeMemory(blocks) == old(FreeMemory(blocks)) + old(blocks[i].size)
      ensures old(Coalesced(blocks)) ==> Coalesced(blocks)
      ensures freeCount == old(freeCount) + 1
      ensures size == old(size) && reserved == old(reserved) && mallocCount == old(mallocCount) && freeListCount == old(freeListCount)
    {
      FreeAtFacts(blocks, i);
      var s := blocks;
      var j := i;
      if i > 0 && s[i - 1].free {
        s := MergeBlock(s, i - 1);
        j := i - 1;
      }
      if !s[j + 1].free {
        s := s[j := s[j].(free := true)];
      } else {
        s := MergeBlock(s, j);
      }
      blocks := s;
      freeCount := freeCount + 1;
    }

    /** `split`: the allocation at `i` becomes two at the midpoint, or the heap is left alone with InvalidInput. */
    method Split(i: nat, midpoint: nat) returns (status: OsStatus, lo: nat, hi: nat)
      requires Valid() && i < |blocks| && !blocks[i].free
      modifies this
      ensures var r := HeapBlocks.Split(old(blocks), i, midpoint);
        status == r.status && blocks == r.blocks && lo == i && hi == i + 1
      ensures Valid()
      ensures size == old(size) && reserved == old(reserved) && freeCount == old(freeCount) && mallocCount == old(mallocCount)
      ensures freeListCount == old(freeListCount)
    {
      SplitFacts(blocks, i, midpoint);
      var r := HeapBlocks.Split(blocks, i, midpoint);
      blocks := r.blocks;
      return r.status, i, i + 1;
    }

    /** `grow`: the allocation at `i` takes bytes from its free successor. */
    method Grow(i: nat, newSize: nat) returns (status: OsStatus, index: nat)
      requires Valid() && i < |blocks| && !blocks[i].free && !GrowConsumesNullBlock(blocks, i, newSize)
      modifies this
      ensures var r := HeapBlocks.Grow(old(blocks), i, newSize);
        status == r.status && blocks == r.blocks && index == r.index
      ensures Valid()
      ensures size == old(size) && reserved == old(reserved) && freeCount == old(freeCount) && mallocCount == old(mallocCount)
      ensures freeListCount == old(freeListCount)
    {
      GrowFacts(blocks, i, newSize);
      var r := HeapBlocks.Grow(blocks, i, newSize);
      blocks := r.blocks;
      return r.status, r.index;
    }

    /** `shrink`: the allocation at `i` keeps its first `newSize` bytes and frees the rest. */
    method Shrink(i: nat, newSize: nat) returns (status: OsStatus, index: nat)
      requires Valid() && i < |blocks| && !blocks[i].free
      modifies this
      ensures var r := HeapBlocks.Shrink(old(blocks), i, newSize);
        status == r.status && blocks == r.blocks && index == r.index
      ensures Valid()
      ensures freeCount == old(freeCount) + (if status == Success && newSize < old(blocks[i].size) then 1 else 0)
      ensures size == old(size) && reserved == old(reserved) && mallocCount == old(mallocCount)
      ensures freeListCount == old(freeListCount)
    {
      ShrinkFacts(blocks, i, newSize);
      var r := HeapBlocks.Shrink(blocks, i, newSize);
      if r.status == Success && newSize < blocks[i].size {
        freeCount := freeCount + 1;
      }
      blocks := r.blocks;
      return r.status, r.index;
    }

    /** `resize`: shrink or grow the allocation at `i` to `newSize` bytes. */
    method Resize(i: nat, newSize: nat) returns (status: OsStatus, index: nat)
      requires Valid() && i < |blocks| && !blocks[i].free && !GrowConsumesNullBlock(blocks, i, newSize)
      modifies this
      ensures var r := HeapBlocks.Resize(old(blocks), i, newSize);
        status == r.status && blocks == r.blocks && index == r.index
      ensures Valid()
      ensures freeCount == old(freeCount) + (if status == Success && newSize < old(blocks[i].size) then 1 else 0)
      ensures size == old(size) && reserved == old(reserved) && mallocCount == old(mallocCount)
      ensures freeListCount == old(freeListCount)
    {
      ResizeFacts(blocks, i, newSize);
      var r := HeapBlocks.Resize(blocks, i, newSize);
      if r.status == Success && newSize < blocks[i].size {
        freeCount := freeCount + 1;
      }
      blocks := r.blocks;
      return r.status, r.index;
    }

    /** `compact`: walks from the null block down, merging each free block into a free predecessor. */
    method Compact()
      requires Valid()
      modifies this
      ensures blocks == HeapBlocks.Compact(old(blocks)) && Valid() && Coalesced(blocks)
      ensures FreeMemory(blocks) == old(FreeMemory(blocks))
      ensures size == old(size) && reserved == old(reserved) && freeCount == old(freeCount) && mallocCount == old(mallocCount)
      ensures freeListCount == old(freeListCount)
    {
      CompactFacts(blocks);
      var prefix := blocks[..|blocks| - 1];
      var cur := blocks[|blocks| - 1];
      var done: seq<HeapBlock> := [];
      while |prefix| > 0
        invariant CompactFrom(prefix, cur, done) == HeapBlocks.Compact(old(blocks))
        decreases |prefix|
      {
        var prev := prefix[|prefix| - 1];
        if cur.free && prev.free {
          cur := HeapBlock(prev.offset, prev.size + cur.size, cur.free);
        } else {
          done := [cur] + done;
          cur := prev;
        }
        prefix := prefix[..|prefix| - 1];
      }
      blocks := [cur] + done;
    }

    /**
     * `reserve`: compacts, then allocates exactly `range` out of the highest
     * free block that contains it. NotFound when no block contains it,
     * NotAvailable when that block is allocated; the index names the new
     * allocation on success.
     */
    method Reserve(range: Range) returns (status: OsStatus, index: nat)
      requires Valid() && IsValid(range)
      modifies this
      ensures var r := CompactThenReserve(old(blocks), range);
        status == r.status && blocks == r.blocks && index == r.index
      ensures Valid() && (status == Success || status == NotFound || status == NotAvailable)
      ensures status == Success ==> index < |blocks| && blocks[index] == HeapBlock(range.front, Size(range), false)
      ensures status == Success ==> FreeMemory(blocks) + Size(range) == old(FreeMemory(blocks))
      ensures status != Success ==> FreeMemory(blocks) == old(FreeMemory(blocks))
      ensures size == old(size) && reserved == old(reserved) && freeCount == old(freeCount) && mallocCount == old(mallocCount)
      ensures freeListCount == old(freeListCount)
    {
      Compact();
      ReserveFacts(blocks, range);
      var r := ReserveIn(blocks, range);
      blocks := r.blocks;
      return r.status, r.index;
    }

    /** `allocateAt`: a 16-byte aligned, non-empty request for exactly `[address, address + n)`. */
    method AllocateAt(address: nat, n: nat) returns (allocation: Option<nat>)
      requires Valid()
      modifies this
      ensures address % 16 != 0 || n == 0 ==> allocation.None? && blocks == old(blocks)
      ensures allocation.Some? ==>
        address % 16 == 0 && n > 0 && allocation.value < |blocks| && blocks[allocation.value] == HeapBlock(address, n, false) &&
        FreeMemory(blocks) + n == old(FreeMemory(blocks))
      ensures Valid()
      ensures size == old(size) && reserved == old(reserved) && freeCount == old(freeCount) && mallocCount == old(mallocCount)
      ensures freeListCount == old(freeListCount)
    {
      if address % 16 != 0 || n == 0 {
        return None;
      }
      var status, index := Reserve(Of(address, n));
      if status != Success {
        return None;
      }
      return Some(index);
    }

    /** `findAllocation`: the highest block starting at `address`, searching from the null block down. */
    method FindAllocation(address: nat) returns (status: OsStatus, index: nat)
      ensures status == Success || status == NotFound
      ensures status == NotFound <==> forall k :: 0 <= k < |blocks| ==> blocks[k].offset != address
      ensures status == Success ==>
        index < |blocks| && blocks[index].offset == address &&
        forall k :: index < k < |blocks| ==> blocks[k].offset != address
    {
      var i := |blocks|;
      while i > 0
        invariant 0 <= i <= |blocks|
        invariant forall k :: i <= k < |blocks| ==> blocks[k].offset != address
      {
        if blocks[i - 1].offset == address {
          return Success, i - 1;
        }
        i := i - 1;
      }
      return NotFound, 0;
    }

    /**
     * `stats`: counts the blocks and the free bytes from the null block
     * down. The used memory is the size less the free and reserved bytes,
     * in `size_t` arithmetic.
     */
    method Stats() returns (stats: HeapStats)
      ensures stats.blockCount == |blocks| && stats.freeMemory == FreeMemory(blocks)
      ensures stats.usedMemory == Wrap64(Wrap64(size - FreeMemory(blocks)) - reserved)
      ensures stats.freeListSize == freeListCount && stats.mallocCount == mallocCount && stats.freeCount == freeCount
    {
      var blockCount := 0;
      var freeMemory := 0;
      var i := |blocks|;
      assert blocks[i..] == [];
      while i > 0
        invariant 0 <= i <= |blocks|
        invariant blockCount == |blocks| - i && freeMemory == FreeMemory(blocks[i..])
      {
        assert blocks[i - 1..][1..] == blocks[i..];
        blockCount := blockCount + 1;
        if blocks[i - 1].free {
          freeMemory := freeMemory + blocks[i - 1].size;
        }
        i := i - 1;
      }
      assert blocks[0..] == blocks;
      var usedMemory := Wrap64(size - freeMemory);
      stats := HeapStats(freeListCount, Wrap64(usedMemory - reserved), freeMemory, blockCount, mallocCount, freeCount);
    }
  }

  /** What `reserve` does to the block list: compact it, then carve the range out of it. */
  function CompactThenReserve(s: seq<HeapBlock>, range: Range): HeapResult
    requires WellFormed(s) && IsValid(range)
  {
    CompactFacts(s);
    ReserveIn(Compact(s), range)
  }

  /** The combined interval of ranges below 2^64 ends below 2^64. */
  lemma MergeAllBelow(ranges: seq<Range>)
    requires |ranges| > 0 && SortedRanges(ranges)
    ensures IsValid(MergeAll(ranges)) && MergeAll(ranges).back < Tlsf.SizeLimit
  {
    MergeAllBounds(ranges);
  }

  /** The free bytes never exceed the bytes the blocks span. */
  lemma {:induction false} FreeWithinTotal(s: seq<HeapBlock>)
    ensures FreeMemory(s) <= TotalSize(s)
    decreases |s|
  {
    if |s| > 0 {
      FreeWithinTotal(s[1..]);
    }
  }

  /**
   * Without wrap-around, the used, free and reserved bytes that `stats`
   * reports add up to the heap's size.
   */
  lemma StatsAddUp(s: seq<HeapBlock>, size: nat, reserved: nat)
    requires TotalSize(s) == size < Tlsf.SizeLimit && reserved <= size - FreeMemory(s)
    ensures Wrap64(Wrap64(size - FreeMemory(s)) - reserved) + FreeMemory(s) + reserved == size
  {
    FreeWithinTotal(s);
  }
}
