/**
 * x86-64 page-table entries (arch/paging.hpp): the flag bits of an entry,
 * the physical-address mask for a given address width, and the encoding
 * of a PAT index into the PWT, PCD and PAT bits of an entry.
 *
 * An entry is a 64-bit word (`bv64`); the flag setters update it in
 * place, so `Entry` is a class whose one field the setters change.
 */
module Paging {

  const PageSize: bv64 := 0x1000

  const PresentBit: bv64 := 1 << 0
  const ReadOnlyBit: bv64 := 1 << 1
  const UserBit: bv64 := 1 << 2
  const WriteThroughBit: bv64 := 1 << 3
  const CacheDisableBit: bv64 := 1 << 4
  const AccessedBit: bv64 := 1 << 5
  const WrittenBit: bv64 := 1 << 6
  /** The large-page bit of a page directory entry, the huge-page bit of a PDPT entry. */
  const PageSizeBit: bv64 := 1 << 7
  const ExecuteDisableBit: bv64 := 1 << 63

  /** A bit position or shift amount within a 64-bit word. */
  type Position = bv7

  /** Bit `i` of `w` is set. */
  predicate Bit(w: bv64, i: Position)
    requires i < 64
  {
    (w >> i) & 1 == 1
  }

  /** `setmask`: the bits of `mask` set when `state` holds, cleared otherwise. */
  function SetMask(value: bv64, mask: bv64, state: bool): bv64
  {
    if state then value | mask else value & !mask
  }

  /** `setmask` sets or clears exactly the bits of `mask`; every other bit is as it was. */
  lemma SetMaskFacts(value: bv64, mask: bv64, state: bool)
    ensures SetMask(value, mask, state) & mask == (if state then mask else 0)
    ensures SetMask(value, mask, state) & !mask == value & !mask
  {
    SetMaskMasked(value, mask, state);
    SetMaskKeeps(value, mask, state);
  }

  lemma SetMaskMasked(value: bv64, mask: bv64, state: bool)
    ensures SetMask(value, mask, state) & mask == (if state then mask else 0)
  {
    if state {
      OrMasked(value, mask);
    } else {
      AndNotMasked(value, mask);
    }
  }

  lemma SetMaskKeeps(value: bv64, mask: bv64, state: bool)
    ensures SetMask(value, mask, state) & !mask == value & !mask
  {
    if state {
      OrKeeps(value, mask);
    } else {
      AndNotKeeps(value, mask);
    }
  }

  lemma OrMasked(value: bv64, mask: bv64)
    ensures (value | mask) & mask == mask
  {
  }

  lemma AndNotMasked(value: bv64, mask: bv64)
    ensures (value & !mask) & mask == 0
  {
  }

  lemma OrKeeps(value: bv64, mask: bv64)
    ensures (value | mask) & !mask == value & !mask
  {
  }

  lemma AndNotKeeps(value: bv64, mask: bv64)
    ensures (value & !mask) & !mask == value & !mask
  {
  }

  /**
   * `addressMask`: the page-aligned physical addresses of a `width`-bit
   * physical address space, as a mask of bits 12 up to `width - 1`.
   * A width of 64 shifts a 64-bit one by 64 bits, which C++ leaves
   * undefined, so it is excluded.
   */
  function AddressMask(width: Position): (r: bv64)
    requires width < 64
    ensures forall i :: 0 <= i < 64 ==> (Bit(r, i) <==> 12 <= i < width)
  {
    ((1 as bv64 << width) - 1) & !(PageSize - 1)
  }

  /** The two masks the kernel checks at compile time: 40- and 48-bit physical addresses. */
  lemma AddressMaskConstants()
    ensures AddressMask(40) == 0x0000_00ff_ffff_f000
    ensures AddressMask(48) == 0x0000_ffff_ffff_f000
  {
    assert AddressMask(40) == ((1 as bv64 << 40) - 1) & !(PageSize - 1);
    assert AddressMask(48) == ((1 as bv64 << 48) - 1) & !(PageSize - 1);
  }

  /** The bits a memory type occupies when the PAT bit of the entry is bit `pat`. */
  function MemoryTypeMask(pat: Position): bv64
    requires 5 <= pat < 64
  {
    WriteThroughBit | CacheDisableBit | (1 as bv64 << pat)
  }

  /**
   * `setMemoryType`: PAT index `index` written as bit 0 into PWT (bit 3),
   * bit 1 into PCD (bit 4) and bit 2 into the entry's PAT bit `pat`; no
   * other bit changes. The PAT bit lies above PCD (bit 7 for a page, 12
   * for a large or huge page).
   */
  function SetMemoryType(entry: bv64, pat: Position, index: bv8): (r: bv64)
    requires 5 <= pat < 64
    ensures GetMemoryType(r, pat) == index & 7
    ensures r & !MemoryTypeMask(pat) == entry & !MemoryTypeMask(pat)
  {
    var t := index as bv64;
    var select := ((t & 1) << 3) | ((t & 2) << 3) | ((t & 4) << (pat - 2));
    (entry & !MemoryTypeMask(pat)) | select
  }

  /** `getMemoryType`: the PAT index stored in an entry, read back from PWT, PCD and the PAT bit. */
  function GetMemoryType(entry: bv64, pat: Position): (r: bv8)
    requires 5 <= pat < 64
    ensures r < 8
    ensures Bit(r as bv64, 0) == Bit(entry, 3) && Bit(r as bv64, 1) == Bit(entry, 4) && Bit(r as bv64, 2) == Bit(entry, pat)
  {
    var w := ((entry & WriteThroughBit) >> 3) | ((entry & CacheDisableBit) >> 3) | ((entry & (1 as bv64 << pat)) >> (pat - 2));
    assert w < 8;
    w as bv8
  }

  /** The level of the paging hierarchy an entry belongs to. */
  datatype Level = Pml4e | Pdpte | Pdte | Pte

  /** `kPageAttributeBit`: the PAT bit is bit 7 of a page entry and bit 12 of a large or huge page entry. */
  function PageAttributeBit(level: Level): (pat: Position)
    requires level != Pml4e
    ensures 5 <= pat < 64
  {
    if level == Pte then 7 else 12
  }

  /** A page-table entry at some level of the hierarchy. */
  class Entry {
    var underlying: bv64
    const level: Level

    constructor (level: Level, underlying: bv64)
      ensures this.level == level && this.underlying == underlying
    {
      this.level := level;
      this.underlying := underlying;
    }

    function Present(): bool reads this { underlying & PresentBit != 0 }
    function Writeable(): bool reads this { underlying & ReadOnlyBit != 0 }
    function WriteThrough(): bool reads this { underlying & WriteThroughBit != 0 }
    function CacheDisable(): bool reads this { underlying & CacheDisableBit != 0 }
    function User(): bool reads this { underlying & UserBit != 0 }
    function Accessed(): bool reads this { underlying & AccessedBit != 0 }
    function Written(): bool reads this { underlying & WrittenBit != 0 }
    function Executable(): bool reads this { underlying & ExecuteDisableBit == 0 }

    /** `is2m` of a page directory entry, `is1g` of a PDPT entry. */
    function LargePage(): bool
      reads this
      requires level == Pdte || level == Pdpte
    {
      underlying & PageSizeBit != 0
    }

    /** The PAT index the entry selects. */
    function MemoryType(): (r: bv8)
      reads this
      requires level != Pml4e
      ensures r < 8
    {
      GetMemoryType(underlying, PageAttributeBit(level))
    }

    method SetPresent(present: bool)
      modifies this
      ensures underlying == SetMask(old(underlying), PresentBit, present)
      ensures Present() == present
    {
      SetMaskFacts(underlying, PresentBit, present);
      underlying := SetMask(underlying, PresentBit, present);
    }

    /** `setWriteable`: the read/write bit, which `paging.hpp` names after its cleared meaning. */
    method SetWriteable(writeable: bool)
      modifies this
      ensures underlying == SetMask(old(underlying), ReadOnlyBit, writeable)
      ensures Writeable() == writeable
    {
      SetMaskFacts(underlying, ReadOnlyBit, writeable);
      underlying := SetMask(underlying, ReadOnlyBit, writeable);
    }

    method SetWriteThrough(writeThrough: bool)
      modifies this
      ensures underlying == SetMask(old(underlying), WriteThroughBit, writeThrough)
      ensures WriteThrough() == writeThrough
    {
      SetMaskFacts(underlying, WriteThroughBit, writeThrough);
      underlying := SetMask(underlying, WriteThroughBit, writeThrough);
    }

    method SetCacheDisable(cacheDisable: bool)
      modifies this
      ensures underlying == SetMask(old(underlying), CacheDisableBit, cacheDisable)
      ensures CacheDisable() == cacheDisable
    {
      SetMaskFacts(underlying, CacheDisableBit, cacheDisable);
      underlying := SetMask(underlying, CacheDisableBit, cacheDisable);
    }

    method SetUser(user: bool)
      modifies this
      ensures underlying == SetMask(old(underlying), UserBit, user)
      ensures User() == user
    {
      SetMaskFacts(underlying, UserBit, user);
      underlying := SetMask(underlying, UserBit, user);
    }

    method SetAccessed(accessed: bool)
      modifies this
      ensures underlying == SetMask(old(underlying), AccessedBit, accessed)
      ensures Accessed() == accessed
    {
      SetMaskFacts(underlying, AccessedBit, accessed);
      underlying := SetMask(underlying, AccessedBit, accessed);
    }

    method SetWritten(written: bool)
      modifies this
      ensures underlying == SetMask(old(underlying), WrittenBit, written)
      ensures Written() == written
    {
      SetMaskFacts(underlying, WrittenBit, written);
      underlying := SetMask(underlying, WrittenBit, written);
    }

    /** `setExecutable`: executable is the execute-disable bit cleared. */
    method SetExecutable(exec: bool)
      modifies this
      ensures underlying == SetMask(old(underlying), ExecuteDisableBit, !exec)
      ensures Executable() == exec
    {
      SetMaskFacts(underlying, ExecuteDisableBit, !exec);
      underlying := SetMask(underlying, ExecuteDisableBit, !exec);
    }

    /** `set2m` of a page directory entry, `set1g` of a PDPT entry. */
    method SetLargePage(large: bool)
      requires level == Pdte || level == Pdpte
      modifies this
      ensures underlying == SetMask(old(underlying), PageSizeBit, large)
      ensures LargePage() == large
    {
      SetMaskFacts(underlying, PageSizeBit, large);
      underlying := SetMask(underlying, PageSizeBit, large);
    }

    /** `setPatEntry`: select PAT entry `index`; only PWT, PCD and the PAT bit change. */
    method SetPatEntry(index: bv8)
      requires level != Pml4e
      modifies this
      ensures underlying == SetMemoryType(old(underlying), PageAttributeBit(level), index)
      ensures MemoryType() == index & 7
    {
      underlying := SetMemoryType(underlying, PageAttributeBit(level), index);
    }
  }
}
