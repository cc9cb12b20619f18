/**
 * The kernel's page builder (memory/paging.hpp): the choice of PAT entry
 * for each memory type under a PAT layout, the physical-address field of
 * an entry, and the canonical-address checks for the virtual address
 * width.
 */
module PageBuilders {
  import Paging

  /** The memory types of the PAT and MTRRs, with their architectural codes. */
  datatype MemoryType =
    | Uncached
    | WriteCombine
    | WriteThrough
    | WriteProtect
    | WriteBack
    | UncachedOverridable

  function Code(t: MemoryType): bv8
  {
    match t
    case Uncached => 0x00
    case WriteCombine => 0x01
    case WriteThrough => 0x04
    case WriteProtect => 0x05
    case WriteBack => 0x06
    case UncachedOverridable => 0x07
  }

  /** `PageMemoryTypeLayout`: the PAT entry the kernel programmed for each memory type. */
  datatype PageMemoryTypeLayout = PageMemoryTypeLayout(
    deferred: bv8,
    uncached: bv8,
    writeCombined: bv8,
    writeThrough: bv8,
    writeProtect: bv8,
    writeBack: bv8)

  /** A layout a page entry can encode: six different PAT entries, each below 8. */
  predicate LayoutValid(l: PageMemoryTypeLayout)
  {
    var xs := [l.deferred, l.uncached, l.writeCombined, l.writeThrough, l.writeProtect, l.writeBack];
    (forall i :: 0 <= i < |xs| ==> xs[i] < 8) &&
    (forall i, j :: 0 <= i < j < |xs| ==> xs[i] != xs[j])
  }

  /** `GetMemoryPatIndex`: the PAT entry for a memory type; UC- and anything else use the deferred one. */
  function GetMemoryPatIndex(layout: PageMemoryTypeLayout, memType: MemoryType): bv8
  {
    match memType
    case Uncached => layout.uncached
    case WriteCombine => layout.writeCombined
    case WriteThrough => layout.writeThrough
    case WriteProtect => layout.writeProtect
    case WriteBack => layout.writeBack
    case UncachedOverridable => layout.deferred
  }

  /** `GetMemoryType`: the memory type of a PAT entry, UC- when no type uses it. */
  function GetMemoryType(layout: PageMemoryTypeLayout, index: bv8): (t: MemoryType)
    ensures t != UncachedOverridable ==> GetMemoryPatIndex(layout, t) == index
    ensures (index != layout.deferred && index != layout.uncached && index != layout.writeCombined &&
             index != layout.writeThrough && index != layout.writeProtect && index != layout.writeBack) ==>
            t == UncachedOverridable
  {
    if layout.deferred == index then UncachedOverridable
    else if layout.uncached == index then Uncached
    else if layout.writeCombined == index then WriteCombine
    else if layout.writeThrough == index then WriteThrough
    else if layout.writeProtect == index then WriteProtect
    else if layout.writeBack == index then WriteBack
    else UncachedOverridable
  }

  /** When the layout's entries differ, looking a type's PAT entry up again gives the type back. */
  lemma PatIndexRoundTrip(layout: PageMemoryTypeLayout, memType: MemoryType)
    requires LayoutValid(layout)
    ensures GetMemoryType(layout, GetMemoryPatIndex(layout, memType)) == memType
  {
    var xs := [layout.deferred, layout.uncached, layout.writeCombined, layout.writeThrough, layout.writeProtect, layout.writeBack];
    assert xs[0] != xs[1] && xs[0] != xs[2] && xs[0] != xs[3] && xs[0] != xs[4] && xs[0] != xs[5];
    assert xs[1] != xs[2] && xs[1] != xs[3] && xs[1] != xs[4] && xs[1] != xs[5];
    assert xs[2] != xs[3] && xs[2] != xs[4] && xs[2] != xs[5];
    assert xs[3] != xs[4] && xs[3] != xs[5] && xs[4] != xs[5];
  }

  /**
   * `PageBuilder`: the physical-address mask for the processor's physical
   * address width, its virtual address width and the PAT layout. It does
   * not change once built.
   */
  datatype PageBuilder = PageBuilder(addressMask: bv64, vaddrBits: Paging.Position, layout: PageMemoryTypeLayout)
  {
    /** `has4LevelPaging`: the physical address mask is the 48-bit one. */
    predicate Has4LevelPaging()
    {
      addressMask == Paging.AddressMask(48)
    }

    /** `address`: the physical address an entry points to. */
    function Address(entry: bv64): (r: bv64)
      ensures r & !addressMask == 0
    {
      entry & addressMask
    }

    /**
     * `setAddress`: the masked address replaces the entry's address bits;
     * `SetAddressKeepsOtherBits` shows what that leaves in the entry.
     */
    method SetAddress(entry: Paging.Entry, address: bv64)
      modifies entry
      ensures entry.underlying == Replaced(old(entry.underlying), addressMask, address)
    {
      entry.underlying := Replaced(entry.underlying, addressMask, address);
    }

    /** `setMemoryType`: the entry selects the PAT entry the layout gives the type. */
    method SetMemoryType(entry: Paging.Entry, memType: MemoryType)
      requires entry.level != Paging.Pml4e
      modifies entry
      ensures entry.underlying == Paging.SetMemoryType(old(entry.underlying), Paging.PageAttributeBit(entry.level), GetMemoryPatIndex(layout, memType))
      ensures LayoutValid(layout) ==> GetEntryMemoryType(entry) == memType
    {
      entry.SetPatEntry(GetMemoryPatIndex(layout, memType));
      if LayoutValid(layout) {
        var index := GetMemoryPatIndex(layout, memType);
        assert index & 7 == index by {
          assert index < 8 by {
            var xs := [layout.deferred, layout.uncached, layout.writeCombined, layout.writeThrough, layout.writeProtect, layout.writeBack];
            assert index in xs;
          }
        }
        PatIndexRoundTrip(layout, memType);
      }
    }

    /**
     * `getMemoryType` as written: the PAT entry number of the entry, cast
     * to a memory type code without looking it up in the layout.
     */
    function GetEntryMemoryTypeAsWritten(entry: Paging.Entry): (code: bv8)
      reads entry
      requires entry.level != Paging.Pml4e
      ensures code < 8
    {
      entry.MemoryType()
    }

    /** `getMemoryType`, corrected: the memory type the layout gives the entry's PAT entry. */
    function GetEntryMemoryType(entry: Paging.Entry): MemoryType
      reads entry
      requires entry.level != Paging.Pml4e
    {
      GetMemoryType(layout, entry.MemoryType())
    }

    /** The bits from `vaddrBits - 1` up: the sign extension of a virtual address. */
    function HighBitsMask(): (mask: bv64)
      requires 1 <= vaddrBits <= 64
      ensures forall i :: 0 <= i < 64 ==> (Paging.Bit(mask, i) <==> vaddrBits - 1 <= i)
    {
      -(1 as bv64 << (vaddrBits - 1))
    }

    /** `isCanonicalAddress`: the high bits are all clear or all set. */
    predicate IsCanonicalAddress(addr: bv64)
      requires 1 <= vaddrBits <= 64
    {
      var bits := addr & HighBitsMask();
      bits == 0 || bits == HighBitsMask()
    }

    /** `isHigherHalf`: the high bits are all set. */
    predicate IsHigherHalf(addr: bv64)
      requires 1 <= vaddrBits <= 64
    {
      addr & HighBitsMask() == HighBitsMask()
    }
  }

  /** The bits of `m` in `e` replaced by those of `a`. */
  function Replaced(e: bv64, m: bv64, a: bv64): bv64
  {
    (e & !m) | (a & m)
  }

  /**
   * After `setAddress`, the entry's address is the masked address and its
   * other bits are as they were.
   */
  lemma SetAddressKeepsOtherBits(b: PageBuilder, entry: bv64, address: bv64)
    ensures b.Address(Replaced(entry, b.addressMask, address)) == address & b.addressMask
    ensures Replaced(entry, b.addressMask, address) & !b.addressMask == entry & !b.addressMask
  {
  }

  /** `PageBuilder(paddrbits, vaddrbits, layout)`. */
  function NewPageBuilder(paddrBits: Paging.Position, vaddrBits: Paging.Position, layout: PageMemoryTypeLayout): (b: PageBuilder)
    requires paddrBits < 64
    ensures b.Has4LevelPaging() <== paddrBits == 48
    ensures forall i :: 0 <= i < 64 ==> (Paging.Bit(b.addressMask, i) <==> 12 <= i < paddrBits)
  {
    PageBuilder(Paging.AddressMask(paddrBits), vaddrBits, layout)
  }

  /**
   * With 48-bit virtual addresses (4-level paging) the canonical addresses
   * are the lowest and the highest 128 TiB.
   */
  lemma Canonical48(b: PageBuilder, addr: bv64)
    requires b.vaddrBits == 48
    ensures b.IsCanonicalAddress(addr) <==> addr < 0x0000_8000_0000_0000 || addr >= 0xffff_8000_0000_0000
    ensures b.IsHigherHalf(addr) <==> addr >= 0xffff_8000_0000_0000
  {
  }

  /**
   * With 57-bit virtual addresses (5-level paging) the canonical addresses
   * are the lowest and the highest 64 PiB.
   */
  lemma Canonical57(b: PageBuilder, addr: bv64)
    requires b.vaddrBits == 57
    ensures b.IsCanonicalAddress(addr) <==> addr < 0x0100_0000_0000_0000 || addr >= 0xff00_0000_0000_0000
    ensures b.IsHigherHalf(addr) <==> addr >= 0xff00_0000_0000_0000
  {
  }

  /** A higher-half address is canonical. */
  lemma HigherHalfIsCanonical(b: PageBuilder, addr: bv64)
    requires 1 <= b.vaddrBits <= 64 && b.IsHigherHalf(addr)
    ensures b.IsCanonicalAddress(addr)
  {
  }

  /** Only a 48-bit physical address width has the 4-level mask. */
  lemma FourLevelPagingIsWidth48(paddrBits: Paging.Position, vaddrBits: Paging.Position, layout: PageMemoryTypeLayout)
    requires 12 < paddrBits < 64
    ensures NewPageBuilder(paddrBits, vaddrBits, layout).Has4LevelPaging() <==> paddrBits == 48
  {
    var m := Paging.AddressMask(paddrBits);
    if paddrBits < 48 {
      assert !Paging.Bit(m, 47) && Paging.Bit(Paging.AddressMask(48), 47);
    } else if paddrBits > 48 {
      assert Paging.Bit(m, 48) && !Paging.Bit(Paging.AddressMask(48), 48);
    }
  }

  /** The layout the kernel programs into the PAT at boot. */
  const DefaultLayout := PageMemoryTypeLayout(
    deferred := 2, uncached := 3, writeCombined := 4, writeThrough := 1, writeProtect := 5, writeBack := 0)

  /**
   * Under the boot layout, an entry mapped write-back reads back as code 0,
   * uncached, through `getMemoryType` as written; the corrected reading
   * gives write-back.
   */
  method WriteBackReadsAsUncachedAsWritten() returns (asWritten: bv8, corrected: MemoryType)
    ensures asWritten == Code(Uncached) && asWritten != Code(WriteBack)
    ensures corrected == WriteBack
  {
    var builder := NewPageBuilder(48, 48, DefaultLayout);
    var entry := new Paging.Entry(Paging.Pte, 0);
    builder.SetMemoryType(entry, WriteBack);
    asWritten := builder.GetEntryMemoryTypeAsWritten(entry);
    corrected := builder.GetEntryMemoryType(entry);
  }
}
