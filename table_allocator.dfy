/**
 * `PageTableAllocator` of memory/table_allocator.cpp: a free list of
 * control blocks over one memory range, handing out runs of page-table
 * sized blocks. The free list is the sequence of free blocks from the head
 * on; each block records its address and its size in bytes.
 */
module TableAllocators {
  import opened Status
  import opened Seqs
  import opened Ranges
  import Util

  /** A `ControlBlock`: a free run of memory starting at `address`. */
  datatype Block = Block(address: nat, size: nat)

  /** The bytes of all the blocks of a list. */
  function SumSizes(blocks: seq<Block>): nat
  {
    if |blocks| == 0 then 0 else SumSizes(blocks[..|blocks| - 1]) + blocks[|blocks| - 1].size
  }

  /** Adding a block at the head adds its size. */
  lemma {:induction false} SumSizesCons(b: Block, rest: seq<Block>)
    ensures SumSizes([b] + rest) == b.size + SumSizes(rest)
    decreases |rest|
  {
    if |rest| > 0 {
      var n := |rest| - 1;
      assert ([b] + rest)[..n + 1] == [b] + rest[..n];
      SumSizesCons(b, rest[..n]);
    } else {
      assert [b] + rest == [b];
    }
  }

  /** The blocks `stats` counts in a list: each block's size in whole blocks. */
  function FreeBlocks(blocks: seq<Block>, blockSize: nat): nat
    requires blockSize > 0
  {
    if |blocks| == 0 then 0 else FreeBlocks(blocks[..|blocks| - 1], blockSize) + blocks[|blocks| - 1].size / blockSize
  }

  /** The largest block of a list, in whole blocks. */
  function LargestBlock(blocks: seq<Block>, blockSize: nat): nat
    requires blockSize > 0
  {
    if |blocks| == 0 then 0 else Util.Max(LargestBlock(blocks[..|blocks| - 1], blockSize), blocks[|blocks| - 1].size / blockSize)
  }

  /** Every block is a whole, non-zero number of blocks. */
  ghost predicate WholeBlocks(blocks: seq<Block>, blockSize: nat)
  {
    blockSize > 0 && forall i :: 0 <= i < |blocks| ==> blocks[i].size > 0 && blocks[i].size % blockSize == 0
  }

  /** For whole blocks the count `stats` reports is the free memory measured in blocks. */
  lemma {:induction false} FreeBlocksMeasureMemory(blocks: seq<Block>, blockSize: nat)
    requires WholeBlocks(blocks, blockSize)
    ensures FreeBlocks(blocks, blockSize) * blockSize == SumSizes(blocks)
    decreases |blocks|
  {
    if |blocks| > 0 {
      var n := |blocks| - 1;
      var init := blocks[..n];
      assert WholeBlocks(init, blockSize) by {
        assert forall i :: 0 <= i < |init| ==> init[i] == blocks[i];
      }
      FreeBlocksMeasureMemory(init, blockSize);
      var q := blocks[n].size / blockSize;
      Util.DivModUnique(blocks[n].size, blockSize, q, 0);
      assert (FreeBlocks(init, blockSize) + q) * blockSize == FreeBlocks(init, blockSize) * blockSize + q * blockSize;
    }
  }

  /**
   * `SplitBlock`: the block at `i` shrinks by `size` bytes and a new block
   * of `size` bytes, its tail, is linked right after it.
   */
  function SplitBlock(blocks: seq<Block>, i: nat, size: nat): (r: seq<Block>)
    requires i < |blocks| && blocks[i].size > size
    ensures |r| == |blocks| + 1
    ensures r[i] == Block(blocks[i].address, blocks[i].size - size)
    ensures r[i + 1] == Block(r[i].address + r[i].size, size)
    ensures r[..i] == blocks[..i] && r[i + 2..] == blocks[i + 1..]
    ensures SumSizes(r) == SumSizes(blocks)
  {
    var b := blocks[i];
    var head := Block(b.address, b.size - size);
    var tail := Block(b.address + (b.size - size), size);
    var r := blocks[..i] + [head, tail] + blocks[i + 1..];
    SplitKeepsSum(blocks, i, head, tail);
    r
  }

  /** Replacing one block by two whose sizes add up to its own keeps the total. */
  lemma SplitKeepsSum(blocks: seq<Block>, i: nat, head: Block, tail: Block)
    requires i < |blocks| && head.size + tail.size == blocks[i].size
    ensures SumSizes(blocks[..i] + [head, tail] + blocks[i + 1..]) == SumSizes(blocks)
  {
    var r := blocks[..i] + [head, tail] + blocks[i + 1..];
    var prefix := blocks[..i];
    assert blocks == prefix + ([blocks[i]] + blocks[i + 1..]);
    assert r == prefix + ([head] + ([tail] + blocks[i + 1..]));
    SumSizesConcat(prefix, [blocks[i]] + blocks[i + 1..]);
    SumSizesConcat(prefix, [head] + ([tail] + blocks[i + 1..]));
    SumSizesCons(blocks[i], blocks[i + 1..]);
    SumSizesCons(head, [tail] + blocks[i + 1..]);
    SumSizesCons(tail, blocks[i + 1..]);
  }

  /** The total of two lists joined is the sum of their totals. */
  lemma {:induction false} SumSizesConcat(a: seq<Block>, b: seq<Block>)
    ensures SumSizes(a + b) == SumSizes(a) + SumSizes(b)
    decreases |a|
  {
    if |a| > 0 {
      assert a + b == [a[0]] + (a[1..] + b);
      assert a == [a[0]] + a[1..];
      SumSizesConcat(a[1..], b);
      SumSizesCons(a[0], a[1..] + b);
      SumSizesCons(a[0], a[1..]);
    } else {
      assert a + b == b;
    }
  }

  /** `RemoveBlock` right after `SplitBlock`: only the shrunk block is left in the list. */
  lemma SplitThenRemove(blocks: seq<Block>, size: nat)
    requires |blocks| > 0 && blocks[0].size > size
    ensures RemoveAt(SplitBlock(blocks, 0, size), 1) == [Block(blocks[0].address, blocks[0].size - size)] + blocks[1..]
  {
    var r := SplitBlock(blocks, 0, size);
    var t := [Block(blocks[0].address, blocks[0].size - size)] + blocks[1..];
    RemoveAtIs(r, 1, t);
  }

  /**
   * Splitting the head and unlinking its tail: the head keeps its address
   * and shrinks by `size`, the tail starts `size` bytes before its end, and
   * whole blocks stay whole when `size` is a whole number of blocks.
   */
  lemma TakeFromHead(blocks: seq<Block>, size: nat, blockSize: nat)
    requires |blocks| > 0 && blocks[0].size > size
    ensures var t := RemoveAt(SplitBlock(blocks, 0, size), 1);
      t == [Block(blocks[0].address, blocks[0].size - size)] + blocks[1..]
      && SplitBlock(blocks, 0, size)[1].address == blocks[0].address + blocks[0].size - size
      && SumSizes(t) + size == SumSizes(blocks)
      && (WholeBlocks(blocks, blockSize) && size % blockSize == 0 ==> WholeBlocks(t, blockSize))
  {
    var t := RemoveAt(SplitBlock(blocks, 0, size), 1);
    SplitThenRemove(blocks, size);
    assert blocks == [blocks[0]] + blocks[1..];
    SumSizesCons(blocks[0], blocks[1..]);
    SumSizesCons(t[0], blocks[1..]);
    if WholeBlocks(blocks, blockSize) && size % blockSize == 0 {
      ShrunkHeadStaysWhole(blocks, size, blockSize);
    }
  }

  /** A whole head shrunk by whole blocks, followed by the rest of a whole list, is whole. */
  lemma ShrunkHeadStaysWhole(blocks: seq<Block>, size: nat, blockSize: nat)
    requires |blocks| > 0 && blocks[0].size > size
    requires WholeBlocks(blocks, blockSize) && size % blockSize == 0
    ensures WholeBlocks([Block(blocks[0].address, blocks[0].size - size)] + blocks[1..], blockSize)
  {
    var t := [Block(blocks[0].address, blocks[0].size - size)] + blocks[1..];
    ShrunkHeadIsWhole(blocks[0].size, size, blockSize);
    forall i | 0 <= i < |t|
      ensures t[i].size > 0 && t[i].size % blockSize == 0
    {
      if i > 0 {
        assert t[i] == blocks[i];
      }
    }
  }

  /** `VerifyMemoryRange`: a non-zero block size, room for a block, and bounds already aligned to it. */
  predicate VerifyMemoryRange(memory: Range, blockSize: nat)
    requires IsValid(memory)
  {
    blockSize > 0 && Size(memory) >= blockSize && Aligned(memory, blockSize) == memory
  }

  /** A range `create` accepts is a whole, non-zero number of blocks. */
  lemma VerifiedRangeIsWhole(memory: Range, blockSize: nat)
    requires IsValid(memory) && VerifyMemoryRange(memory, blockSize)
    ensures Size(memory) > 0 && Size(memory) % blockSize == 0
  {
    Util.AlignedDifference(memory.front, memory.back, blockSize);
    Util.RemIsMod(Size(memory), blockSize);
  }

  /** `CanAllocateBlocks`: walk the list until the blocks seen cover `size` bytes. */
  method CanAllocateBlocks(blocks: seq<Block>, size: nat) returns (ok: bool)
    ensures ok <==> |blocks| > 0 && SumSizes(blocks) >= size
  {
    var remaining := size;
    var i := 0;
    while i < |blocks|
      invariant i <= |blocks|
      invariant SumSizes(blocks[..i]) + remaining == size
      invariant i > 0 ==> remaining > 0
    {
      assert blocks[..i + 1][..i] == blocks[..i];
      if blocks[i].size >= remaining {
        PrefixSumBelowTotal(blocks, i + 1);
        return true;
      }
      remaining := remaining - blocks[i].size;
      i := i + 1;
    }
    assert blocks[..i] == blocks;
    return false;
  }

  /** A prefix of a list never holds more than the whole list. */
  lemma {:induction false} PrefixSumBelowTotal(blocks: seq<Block>, n: nat)
    requires n <= |blocks|
    ensures SumSizes(blocks[..n]) <= SumSizes(blocks)
    decreases |blocks| - n
  {
    if n < |blocks| {
      PrefixSumBelowTotal(blocks, n + 1);
      assert blocks[..n + 1][..n] == blocks[..n];
    } else {
      assert blocks[..n] == blocks;
    }
  }

  class PageTableAllocator {
    var memory: Range
    var blockSize: nat
    /** The free list from `mHead` on. */
    var free: seq<Block>

    ghost predicate Valid()
      reads this
    {
      WholeBlocks(free, blockSize)
    }

    /** `create`: `InvalidInput` for a range `VerifyMemoryRange` refuses, else one free block spanning the range. */
    method Create(range: Range, size: nat) returns (status: OsStatus)
      requires IsValid(range)
      modifies this
      ensures status == Success <==> VerifyMemoryRange(range, size)
      ensures status == Success ==>
        Valid() && memory == range && blockSize == size && free == [Block(range.front, Size(range))]
        && SumSizes(free) == Size(range)
      ensures status != Success ==> status == InvalidInput && unchanged(this)
    {
      if !VerifyMemoryRange(range, size) {
        return InvalidInput;
      }
      VerifiedRangeIsWhole(range, size);
      memory := range;
      blockSize := size;
      free := [Block(range.front, Size(range))];
      SumSizesCons(free[0], []);
      return Success;
    }

    /**
     * `AllocateBlock`: `size` bytes from the head block. Nothing for a zero
     * size, an empty list or a head smaller than `size`; an exact fit
     * unlinks the head, a larger head is split and its tail handed out.
     */
    method AllocateBlock(size: nat) returns (r: Option<nat>)
      requires Valid()
      modifies this
      ensures memory == old(memory) && blockSize == old(blockSize)
      ensures r.None? <==> size == 0 || |old(free)| == 0 || old(free)[0].size < size
      ensures r.None? ==> free == old(free)
      ensures r.Some? ==>
        var head := old(free)[0];
        r.value == head.address + head.size - size
        && free == (if head.size == size then old(free)[1..] else [Block(head.address, head.size - size)] + old(free)[1..])
        && SumSizes(free) + size == SumSizes(old(free))
      ensures size % blockSize == 0 ==> Valid()
    {
      if size == 0 || |free| == 0 {
        return None;
      }
      var block := free[0];
      assert free == [block] + free[1..];
      SumSizesCons(block, free[1..]);
      if block.size < size {
        return None;
      } else if block.size == size {
        free := free[1..];
        return Some(block.address);
      } else {
        var split := SplitBlock(free, 0, size);
        var next := split[1];
        TakeFromHead(free, size, blockSize);
        free := RemoveAt(split, 1);
        return Some(next.address);
      }
    }

    /** `deallocate`: the `blocks` blocks at `address` become the new head of the free list. */
    method Deallocate(address: nat, blocks: nat)
      requires Valid() && blocks > 0
      modifies this
      ensures Valid() && memory == old(memory) && blockSize == old(blockSize)
      ensures free == [Block(address, blocks * blockSize)] + old(free)
      ensures SumSizes(free) == SumSizes(old(free)) + blocks * blockSize
    {
      Util.DivModUnique(blocks * blockSize, blockSize, blocks, 0);
      free := [Block(address, blocks * blockSize)] + free;
      SumSizesCons(free[0], old(free));
    }

    /** `stats`: the free blocks, the length of the chain and its largest block, walking from the head. */
    method Stats() returns (freeBlocks: nat, chainLength: nat, largestBlock: nat)
      requires Valid()
      ensures freeBlocks == FreeBlocks(free, blockSize) && freeBlocks * blockSize == SumSizes(free)
      ensures chainLength == |free|
      ensures largestBlock == LargestBlock(free, blockSize)
      ensures forall i :: 0 <= i < |free| ==> free[i].size / blockSize <= largestBlock
    {
      freeBlocks, chainLength, largestBlock := 0, 0, 0;
      var i := 0;
      while i < |free|
        invariant i <= |free| && chainLength == i
        invariant freeBlocks == FreeBlocks(free[..i], blockSize)
        invariant largestBlock == LargestBlock(free[..i], blockSize)
        invariant forall k :: 0 <= k < i ==> free[k].size / blockSize <= largestBlock
      {
        assert free[..i + 1][..i] == free[..i];
        var size := free[i].size / blockSize;
        freeBlocks := freeBlocks + size;
        chainLength := chainLength + 1;
        largestBlock := Util.Max(largestBlock, size);
        i := i + 1;
      }
      assert free[..i] == free;
      FreeBlocksMeasureMemory(free, blockSize);
    }

    /** `contains`: the address lies in the allocator's memory range. */
    predicate Contains(address: nat)
      reads this
    {
      ContainsAddr(memory, address)
    }
  }

  /** Taking a whole number of blocks from a larger whole block leaves a whole block. */
  lemma ShrunkHeadIsWhole(size: nat, taken: nat, blockSize: nat)
    requires blockSize > 0 && size > taken && size % blockSize == 0 && taken % blockSize == 0
    ensures (size - taken) > 0 && (size - taken) % blockSize == 0
  {
    var a, b := size / blockSize, taken / blockSize;
    assert size == a * blockSize;
    assert taken == b * blockSize;
    assert a > b by {
      if a <= b {
        if a < b {
          Util.MulGap(a, b, blockSize);
        }
      }
    }
    assert size - taken == (a - b) * blockSize;
    Util.DivModUnique(size - taken, blockSize, a - b, 0);
  }
}
