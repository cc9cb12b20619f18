/**
 * The size-class arithmetic of memory/detail/tlsf.hpp, the two-level
 * segregated-fit scheme of the kernel heap, and its `TlsfBlock` flags and
 * `TlsfBlockList` stack. Sizes are 64-bit (`size_t`); the first level is a
 * power-of-two memory class, the second level splits each class into 32
 * lists.
 */
module Tlsf {
  import opened Status
  import Util

  const SmallBufferSize: nat := 0x100
  const MemoryClassShift: nat := 7
  const SecondLevelIndex: nat := 5
  const MaxMemoryClass: nat := 64 - MemoryClassShift
  const SmallSizeStep: nat := SmallBufferSize / 32
  /** `UINT8_MAX`, the bit scans' answer for an empty mask. */
  const NoBit: nat := 0xFF
  const SizeLimit: nat := 0x1_0000_0000_0000_0000

  function Pow2(n: nat): (p: nat)
    ensures p >= 1
  {
    if n == 0 then 1 else 2 * Pow2(n - 1)
  }

  lemma {:induction false} Pow2Monotone(a: nat, b: nat)
    requires a <= b
    ensures Pow2(a) <= Pow2(b)
    decreases b
  {
    if a < b {
      Pow2Monotone(a, b - 1);
    }
  }

  /** The number of significant bits of `x`: 64 minus `std::countl_zero` for a `size_t`. */
  function BitWidth(x: nat): nat
  {
    if x == 0 then 0 else 1 + BitWidth(x / 2)
  }

  /** The bit width places `x` between two consecutive powers of two. */
  lemma {:induction false} BitWidthBounds(x: nat)
    requires x > 0
    ensures Pow2(BitWidth(x) - 1) <= x < Pow2(BitWidth(x))
    decreases x
  {
    if x > 1 {
      BitWidthBounds(x / 2);
    }
  }

  /** Two powers of two around `x` pin its bit width. */
  lemma {:induction false} BitWidthIs(x: nat, k: nat)
    requires Pow2(k) <= x < Pow2(k + 1)
    ensures BitWidth(x) == k + 1
    decreases k
  {
    if k > 0 {
      BitWidthIs(x / 2, k - 1);
    }
  }

  /** `std::countr_zero`: the number of zero bits below the lowest set bit. */
  function CountTrailingZeros(x: nat): nat
    requires x > 0
  {
    if x % 2 == 1 then 0 else 1 + CountTrailingZeros(x / 2)
  }

  /** A multiple `q * p` doubled is `q` times `2 * p`. */
  lemma DoubledMultiple(h: nat, p: nat, q: nat)
    requires p > 0 && h % p == 0 && q == h / p
    ensures 2 * h == q * (2 * p)
  {
    assert h == q * p;
  }

  /** The lowest set bit is bit `CountTrailingZeros(x)`: `x` is an odd multiple of that power of two. */
  lemma {:induction false} CountTrailingZerosIsLowestBit(x: nat)
    requires x > 0
    ensures var n := CountTrailingZeros(x); x % Pow2(n) == 0 && (x / Pow2(n)) % 2 == 1
    decreases x
  {
    if x % 2 == 0 {
      var h := x / 2;
      CountTrailingZerosIsLowestBit(h);
      var n := CountTrailingZeros(h);
      var p := Pow2(n);
      var q := h / p;
      assert CountTrailingZeros(x) == n + 1;
      assert Pow2(n + 1) == 2 * p;
      DoubledMultiple(h, p, q);
      Util.DivModUnique(x, 2 * p, q, 0);
    }
  }

  /** `BitScanLeading`: the index of the highest set bit, `UINT8_MAX` for zero. */
  function BitScanLeading(mask: nat): (r: nat)
    requires mask < SizeLimit
  {
    if mask == 0 then NoBit else BitWidth(mask) - 1
  }

  /** `BitScanTrailing`: the index of the lowest set bit, `UINT8_MAX` for zero. */
  function BitScanTrailing(mask: nat): (r: nat)
  {
    if mask == 0 then NoBit else CountTrailingZeros(mask)
  }

  /** The leading scan answers the bit index: `2^r <= mask < 2^(r+1)`, below 64. */
  lemma BitScanLeadingIsIndex(mask: nat)
    requires 0 < mask < SizeLimit
    ensures var r := BitScanLeading(mask); r < 64 && Pow2(r) <= mask < Pow2(r + 1)
  {
    BitWidthBounds(mask);
    Pow2MonotoneImplies(64, BitWidth(mask) - 1);
    Pow2Of64();
  }

  lemma Pow2Of64()
    ensures Pow2(64) == SizeLimit
  {
    assert Pow2(4) == 16;
    Pow2Add(4, 4);
    assert Pow2(8) == 256;
    Pow2Add(8, 8);
    assert Pow2(16) == 0x1_0000;
    Pow2Add(16, 16);
    assert Pow2(32) == 0x1_0000_0000;
    Pow2Add(32, 32);
  }

  /** The trailing scan answers the bit index of the lowest set bit. */
  lemma BitScanTrailingIsIndex(mask: nat)
    requires mask > 0
    ensures var r := BitScanTrailing(mask); mask % Pow2(r) == 0 && (mask / Pow2(r)) % 2 == 1
  {
    CountTrailingZerosIsLowestBit(mask);
  }

  /** A mask of at least `2^k` has its highest set bit at `k` or above. */
  lemma BitScanLeadingAtLeast(mask: nat, k: nat)
    requires Pow2(k) <= mask < SizeLimit
    ensures k <= BitScanLeading(mask) < 64
  {
    BitScanLeadingIsIndex(mask);
    Pow2MonotoneImplies(BitScanLeading(mask) + 1, k);
  }

  lemma Pow2MonotoneImplies(a: nat, b: nat)
    ensures a <= b ==> Pow2(a) <= Pow2(b)
  {
    if a <= b {
      Pow2Monotone(a, b);
    }
  }

  /** `SizeToMemoryClass`: the first-level index, 0 for sizes up to the small buffer size. */
  function SizeToMemoryClass(size: nat): nat
    requires size < SizeLimit
  {
    if size > SmallBufferSize then
      BitScanLeadingAtLeast(size, 8);
      BitScanLeading(size) - MemoryClassShift
    else 0
  }

  /** The memory class is 0 exactly for the small sizes, and at most `kMaxMemoryClass` otherwise. */
  lemma MemoryClassIsZeroForSmall(size: nat)
    requires 0 < size < SizeLimit
    ensures SizeToMemoryClass(size) == 0 <==> size <= SmallBufferSize
    ensures SizeToMemoryClass(size) < MaxMemoryClass
    ensures size > SmallBufferSize ==> SizeToMemoryClass(size) == BitScanLeading(size) - MemoryClassShift >= 1
  {
    if size > SmallBufferSize {
      BitScanLeadingAtLeast(size, 8);
    }
  }

  /** `x ^ (1u << kSecondLevelIndex)`: flips bit 5 of `x`. */
  function XorSecondLevelBit(x: nat): nat
  {
    if (x / 32) % 2 == 1 then x - 32 else x + 32
  }

  /** `SizeToSecondIndex`: the second-level index within a memory class, as a `uint16_t`. */
  function SizeToSecondIndex(size: nat, memoryClass: nat): nat
    requires 0 < size
  {
    if memoryClass == 0 then ((size - 1) / 8) % 0x1_0000
    else XorSecondLevelBit(size / Pow2(memoryClass + MemoryClassShift - SecondLevelIndex)) % 0x1_0000
  }

  /** Clearing bit 5 of a value between 32 and 63 subtracts 32. */
  lemma XorClearsTopBit(x: nat)
    requires 32 <= x < 64
    ensures XorSecondLevelBit(x) == x - 32
  {
    assert x / 32 == 1;
  }

  /** For the memory class of its size, a size's second-level index is one of the 32 lists. */
  lemma SecondIndexBelow32(size: nat)
    requires 0 < size < SizeLimit
    ensures SizeToSecondIndex(size, SizeToMemoryClass(size)) < 32
  {
    MemoryClassIsZeroForSmall(size);
    var mc := SizeToMemoryClass(size);
    if mc > 0 {
      var q := LargeQuotient(size, mc);
      XorClearsTopBit(q);
    }
  }

  /** Above the small sizes, the size shifted down to its top six bits lies in 32..63. */
  lemma LargeQuotient(size: nat, mc: nat) returns (q: nat)
    requires 0 < size < SizeLimit && 0 < mc == SizeToMemoryClass(size)
    ensures q == size / Pow2(mc + MemoryClassShift - SecondLevelIndex) && 32 <= q < 64
  {
    var r := BitScanLeading(size);
    BitScanLeadingIsIndex(size);
    var shift := mc + MemoryClassShift - SecondLevelIndex;
    assert shift == r - 5;
    var p := Pow2(shift);
    assert Pow2(r) == p * 32 by { Pow2Add(shift, 5); }
    assert Pow2(r + 1) == p * 64 by { Pow2Add(shift, 6); }
    q := size / p;
    DivBounds(size, p, 32, 64);
  }

  lemma {:induction false} Pow2Add(a: nat, b: nat)
    ensures Pow2(a + b) == Pow2(a) * Pow2(b)
    decreases b
  {
    if b > 0 {
      Pow2Add(a, b - 1);
    } else {
      assert Pow2(0) == 1;
    }
  }

  /** `lo * p <= x < hi * p` puts `x / p` in `[lo, hi)`. */
  lemma DivBounds(x: nat, p: nat, lo: nat, hi: nat)
    requires p > 0 && lo * p <= x < hi * p
    ensures lo <= x / p < hi
  {
    var q := x / p;
    assert x == q * p + x % p;
    MulMonotone(q + 1, lo, p);
    MulMonotone(hi, q, p);
  }

  lemma MulMonotone(a: nat, b: nat, p: nat)
    ensures a <= b ==> a * p <= b * p
  {
  }

  /** `GetFreeListSize`: the number of free lists up to and including this one, 0 for the small class. */
  function GetFreeListSize(memoryClass: nat, secondIndex: nat): nat
  {
    if memoryClass == 0 then 0 else (memoryClass - 1) * 32 + secondIndex + 1 + 32
  }

  /** `GetListIndex(memoryClass, secondIndex)`: the flat index of a free list. */
  function GetListIndex(memoryClass: nat, secondIndex: nat): nat
  {
    if memoryClass == 0 then secondIndex else (memoryClass - 1) * 32 + secondIndex + 32
  }

  /** Above the small class, the free-list count reaches one past the list's index; lists of different classes never share an index. */
  lemma FreeListSizeIsIndexPlusOne(memoryClass: nat, secondIndex: nat)
    requires memoryClass > 0
    ensures GetFreeListSize(memoryClass, secondIndex) == GetListIndex(memoryClass, secondIndex) + 1
  {
  }

  /** Distinct (class, second index) pairs with second indices below 32 have distinct list indices. */
  lemma ListIndexIsInjective(c1: nat, s1: nat, c2: nat, s2: nat)
    requires s1 < 32 && s2 < 32
    requires GetListIndex(c1, s1) == GetListIndex(c2, s2)
    ensures c1 == c2 && s1 == s2
  {
    if c1 > 0 && c2 > 0 {
      DivModPair(c1 - 1, s1, c2 - 1, s2);
    }
  }

  lemma DivModPair(a: nat, s: nat, b: nat, t: nat)
    requires s < 32 && t < 32 && a * 32 + s == b * 32 + t
    ensures a == b && s == t
  {
    MulMonotone(a + 1, b, 32);
    MulMonotone(b + 1, a, 32);
  }

  /** `GetListIndex(size)`: the free list a block of `size` bytes belongs on. */
  function GetListIndexOfSize(size: nat): (index: nat)
    requires 0 < size < SizeLimit
  {
    var memoryClass := SizeToMemoryClass(size);
    GetListIndex(memoryClass, SizeToSecondIndex(size, memoryClass))
  }

  /** Every size has a list among the `(kMaxMemoryClass + 1) * 32` lists. */
  lemma ListIndexInRange(size: nat)
    requires 0 < size < SizeLimit
    ensures GetListIndexOfSize(size) < (MaxMemoryClass + 1) * 32
    ensures size <= SmallBufferSize ==> GetListIndexOfSize(size) < 32
  {
    MemoryClassIsZeroForSmall(size);
    SecondIndexBelow32(size);
  }

  /** `GetNextBlockSize`: the step to the size of the next list. */
  function GetNextBlockSize(size: nat): nat
    requires size < SizeLimit
  {
    if size > SmallBufferSize then
      BitScanLeadingAtLeast(size, 8);
      Pow2(BitScanLeading(size) - SecondLevelIndex)
    else if size > SmallBufferSize - SmallSizeStep then SmallBufferSize + 1
    else size + SmallSizeStep
  }

  /** For the small sizes the next block size is larger; above them it is a 32nd of the size's power of two. */
  lemma NextBlockSizeGrows(size: nat)
    requires size < SizeLimit
    ensures size <= SmallBufferSize ==> GetNextBlockSize(size) > size
    ensures size > SmallBufferSize ==> GetNextBlockSize(size) * 32 <= size
  {
    if size > SmallBufferSize {
      BitScanLeadingAtLeast(size, 8);
      BitScanLeadingIsIndex(size);
      var r := BitScanLeading(size);
      Pow2Add(r - 5, 5);
    }
  }

  /** `TlsfBlock`: a block of the heap; it is in use exactly when `prevFree` points at itself. */
  class TlsfBlock {
    var offset: nat
    var size: nat
    var prevFree: TlsfBlock?

    constructor (offset: nat, size: nat)
      ensures this.offset == offset && this.size == size && IsFree()
    {
      this.offset := offset;
      this.size := size;
      prevFree := null;
    }

    predicate IsFree()
      reads this
    {
      prevFree != this
    }

    predicate IsUsed()
      reads this
    {
      prevFree == this
    }

    /** `markTaken`: the block is in use, and not free. */
    method MarkTaken()
      modifies this
      ensures IsUsed() && !IsFree()
      ensures offset == old(offset) && size == old(size)
    {
      prevFree := this;
    }

    /** `markFree`: the block is free, and not in use. */
    method MarkFree()
      modifies this
      ensures IsFree() && !IsUsed()
      ensures offset == old(offset) && size == old(size)
    {
      prevFree := null;
    }
  }

  /** The blocks of a list in reverse order. */
  function Reverse<T>(s: seq<T>): (r: seq<T>)
    ensures |r| == |s| && forall i :: 0 <= i < |s| ==> r[i] == s[|s| - 1 - i]
  {
    if |s| == 0 then [] else Reverse(s[1..]) + [s[0]]
  }

  /** `TlsfBlockList`: a stack of blocks linked through `next`, the head first. */
  class TlsfBlockList {
    var blocks: seq<TlsfBlock>

    constructor ()
      ensures blocks == []
    {
      blocks := [];
    }

    /** `add`: the block becomes the head. */
    method Add(block: TlsfBlock)
      modifies this
      ensures blocks == [block] + old(blocks)
    {
      blocks := [block] + blocks;
    }

    /** `drain`: the head is unlinked and returned, or null for an empty list. */
    method Drain() returns (block: TlsfBlock?)
      modifies this
      ensures old(blocks) == [] ==> block == null && blocks == []
      ensures old(blocks) != [] ==> block == old(blocks)[0] && blocks == old(blocks)[1..]
    {
      if blocks == [] {
        return null;
      }
      block := blocks[0];
      blocks := blocks[1..];
    }

    /** `next`: `drain` for a list known to be non-empty. */
    method Next() returns (block: TlsfBlock)
      requires blocks != []
      modifies this
      ensures block == old(blocks)[0] && blocks == old(blocks)[1..]
    {
      block := blocks[0];
      blocks := blocks[1..];
    }

    /** `append`: drains `list` block by block onto this one, so its blocks arrive reversed. */
    method Append(list: TlsfBlockList)
      requires list != this
      modifies this, list
      ensures list.blocks == []
      ensures blocks == Reverse(old(list.blocks)) + old(blocks)
    {
      while true
        invariant Reverse(old(list.blocks)) + old(blocks) == Reverse(list.blocks) + blocks
        decreases |list.blocks|
      {
        ghost var rest := list.blocks;
        var block := list.Drain();
        if block == null {
          return;
        }
        Add(block);
        assert rest == [block] + list.blocks;
        assert Reverse(rest) == Reverse(list.blocks) + [block];
      }
    }

    /** `count`: walks the list from its head, one `next` link at a time, counting the blocks it passes. */
    method Count() returns (n: nat)
      ensures n == |blocks|
    {
      n := 0;
      var rest := blocks;
      while rest != []
        invariant n + |rest| == |blocks|
      {
        n := n + 1;
        rest := rest[1..];
      }
    }
  }

  /** Appending a list twice restores its order: reversal is an involution. */
  lemma {:induction false} ReverseTwice<T>(s: seq<T>)
    ensures Reverse(Reverse(s)) == s
  {
    var r := Reverse(s);
    assert forall i :: 0 <= i < |s| ==> Reverse(r)[i] == r[|s| - 1 - i];
  }
}
