/**
 * Memory layout helpers (memory/layout.hpp): page counts, low-memory
 * ranges, and `AddressMapping`, a virtual range mapped onto a physical
 * range of the same size. Addresses are naturals; the 64-bit wrap-around
 * of pointer arithmetic is modelled only in `Slide`.
 */
module Layouts {
  import opened Util
  import opened Ranges

  const PageSize: nat := 0x1000
  const LargePageSize: nat := 0x20_0000
  /** `kLowMemory`: the first MiB. */
  const LowMemory: nat := 0x10_0000
  /** The size of the 64-bit address space, where `uintptr_t` arithmetic wraps. */
  const AddressSpace: nat := 0x1_0000_0000_0000_0000

  /** `IsLowMemory`: the range starts in the first MiB. */
  predicate IsLowMemory(range: Range)
  {
    range.front < LowMemory
  }

  /** `PageAligned`: the range grown out to page boundaries. */
  function PageAligned(range: Range): (r: Range)
    requires IsValid(range)
    ensures Contains(r, range) && IsAligned(r.front, PageSize) && IsAligned(r.back, PageSize)
  {
    AlignedOut(range, PageSize)
  }

  /** `roundup(bytes, pageSize) / pageSize`: the fewest pages of `pageSize` that hold `bytes`. */
  function PagesOf(bytes: nat, pageSize: nat): (n: nat)
    requires pageSize > 0
    ensures n * pageSize >= bytes
    ensures n > 0 ==> (n - 1) * pageSize < bytes
  {
    PagesFacts(bytes, pageSize);
    RoundUp(bytes, pageSize) / pageSize
  }

  lemma PagesFacts(bytes: nat, m: nat)
    requires m > 0
    ensures var n := RoundUp(bytes, m) / m;
      n * m >= bytes && (n > 0 ==> (n - 1) * m < bytes)
  {
    var up := RoundUp(bytes, m);
    var n := up / m;
    RemIsMod(up, m);
    assert up == n * m;
    if n > 0 {
      MulStep(n - 1, m);
    }
  }

  /** `Pages`: 4 KiB pages. */
  function Pages(bytes: nat): (n: nat)
    ensures n * PageSize >= bytes && (n > 0 ==> (n - 1) * PageSize < bytes)
  {
    PagesOf(bytes, PageSize)
  }

  /** `LargePages`: 2 MiB pages. */
  function LargePages(bytes: nat): (n: nat)
    ensures n * LargePageSize >= bytes && (n > 0 ==> (n - 1) * LargePageSize < bytes)
  {
    PagesOf(bytes, LargePageSize)
  }

  /** `AddressMapping`: `size` bytes at virtual address `vaddr` backed by physical address `paddr`. */
  datatype AddressMapping = AddressMapping(vaddr: nat, paddr: nat, size: nat)
  {
    function PhysicalRange(): Range { Range(paddr, paddr + size) }

    function VirtualRange(): Range { Range(vaddr, vaddr + size) }

    /** `slide`: the distance from physical to virtual addresses, as an unsigned 64-bit difference. */
    function Slide(): (s: nat)
      ensures s < AddressSpace
    {
      (vaddr - paddr) % AddressSpace
    }

    predicate IsEmpty() { size == 0 }

    /** `first`: the first `bytes` of the mapping. */
    function First(bytes: nat): (r: AddressMapping)
      requires bytes <= size
      ensures r.VirtualRange().front == VirtualRange().front && r.PhysicalRange().front == PhysicalRange().front
      ensures Contains(VirtualRange(), r.VirtualRange()) && Contains(PhysicalRange(), r.PhysicalRange())
      ensures r.size == bytes && r.Slide() == Slide()
    {
      AddressMapping(vaddr, paddr, bytes)
    }

    /** `last`: the last `bytes` of the mapping. */
    function Last(bytes: nat): (r: AddressMapping)
      requires bytes <= size
      ensures r.VirtualRange().back == VirtualRange().back && r.PhysicalRange().back == PhysicalRange().back
      ensures Contains(VirtualRange(), r.VirtualRange()) && Contains(PhysicalRange(), r.PhysicalRange())
      ensures r.size == bytes && r.Slide() == Slide()
    {
      AddressMapping(vaddr + size - bytes, paddr + size - bytes, bytes)
    }

    /** `subrange(offset, bytes)`: `bytes` of the mapping from `offset` on. */
    function Subrange(offset: nat, bytes: nat): (r: AddressMapping)
      requires offset + bytes <= size
      ensures r.vaddr == vaddr + offset && r.paddr == paddr + offset
      ensures Contains(VirtualRange(), r.VirtualRange()) && Contains(PhysicalRange(), r.PhysicalRange())
      ensures r.size == bytes && r.Slide() == Slide()
    {
      AddressMapping(vaddr + offset, paddr + offset, bytes)
    }

    /** `subrange(offset)`: the rest of the mapping from `offset` on. */
    function SubrangeFrom(offset: nat): (r: AddressMapping)
      requires offset < size
      ensures r.vaddr == vaddr + offset && r.paddr == paddr + offset
      ensures r.VirtualRange().back == VirtualRange().back && r.PhysicalRange().back == PhysicalRange().back
      ensures !r.IsEmpty() && r.Slide() == Slide()
    {
      Subrange(offset, size - offset)
    }

    /**
     * `subrange(range)`: the part of the mapping whose virtual addresses
     * lie in `range`; the empty mapping at 0 when there is none.
     */
    function SubrangeOf(range: Range): (r: AddressMapping)
      requires IsValid(range)
      ensures forall x :: ContainsAddr(r.VirtualRange(), x) <==> ContainsAddr(VirtualRange(), x) && ContainsAddr(range, x)
      ensures r.IsEmpty() ==> r == AddressMapping(0, 0, 0)
      ensures !r.IsEmpty() ==> Contains(PhysicalRange(), r.PhysicalRange()) && r.Slide() == Slide()
    {
      var subset := Intersection(VirtualRange(), range);
      if subset.front == subset.back then AddressMapping(0, 0, 0)
      else
        var offset := subset.front - vaddr;
        var bytes := subset.back - subset.front;
        AddressMapping(vaddr + offset, paddr + offset, bytes)
    }

    /** `offset`: both addresses moved by `delta`, the size kept. */
    function Offset(delta: int): (r: AddressMapping)
      requires vaddr + delta >= 0 && paddr + delta >= 0
      ensures r.size == size && r.Slide() == Slide()
      ensures r.vaddr - vaddr == r.paddr - paddr == delta
    {
      AddressMapping(vaddr + delta, paddr + delta, size)
    }

    /** `alignsExactlyTo`: both addresses are multiples of `align`. */
    predicate AlignsExactlyTo(align: nat)
      requires align > 0
    {
      vaddr % align == 0 && paddr % align == 0
    }

    /** `equalOffsetTo`: both addresses sit at the same offset within an `align` block. */
    predicate EqualOffsetTo(align: nat)
      requires align > 0
    {
      vaddr % align == paddr % align
    }

    /**
     * `aligned`: the mapping grown out to multiples of `align`. Its
     * physical range is the smallest aligned cover of the original one;
     * when the two addresses sit at the same offset within a block (the
     * documented precondition) the slide is kept and the virtual range is
     * covered too.
     */
    function Aligned(align: nat): (r: AddressMapping)
      requires align > 0
      ensures r.PhysicalRange() == AlignedOut(PhysicalRange(), align)
      ensures IsAligned(r.vaddr, align) && r.vaddr <= vaddr
      ensures EqualOffsetTo(align) ==> r.Slide() == Slide() && Contains(r.VirtualRange(), VirtualRange())
    {
      var alignedHead := RoundDown(paddr, align);
      var alignedTail := RoundUp(size + paddr, align);
      var alignedSize := alignedTail - alignedHead;
      var alignedVaddr := RoundDown(vaddr, align);
      AlignedKeepsSlide(vaddr, paddr, align);
      AddressMapping(alignedVaddr, alignedHead, alignedSize)
    }
  }

  /** Rounding two addresses at the same offset within a block down keeps their distance. */
  lemma AlignedKeepsSlide(vaddr: nat, paddr: nat, align: nat)
    requires align > 0
    ensures vaddr % align == paddr % align ==> RoundDown(vaddr, align) - RoundDown(paddr, align) == vaddr - paddr
  {
    RemIsMod(vaddr, align);
    RemIsMod(paddr, align);
  }

  /** A mapping whose addresses and size are already multiples of `align` is its own alignment. */
  lemma AlignedExactIsIdentity(m: AddressMapping, align: nat)
    requires align > 0 && m.AlignsExactlyTo(align) && IsAligned(m.size, align)
    ensures m.Aligned(align) == m
  {
    RemIsMod(m.vaddr, align);
    RemIsMod(m.paddr, align);
    AlignedSum(m.paddr, m.size, align);
    RoundDownIsGreatest(m.vaddr, m.vaddr, align);
    RoundDownIsGreatest(m.paddr, m.paddr, align);
    RoundUpIsLeast(m.size + m.paddr, m.size + m.paddr, align);
  }

  lemma AlignedSum(x: nat, y: nat, m: nat)
    requires m > 0 && IsAligned(y, m) && x % m == 0
    ensures IsAligned(y + x, m)
  {
    RemIsMod(y, m);
    RemIsMod(y + x, m);
    var a := Util.ExactQuotient(x, m);
    var b := Util.ExactQuotient(y, m);
    Util.SumOfMultiples(a, b, m);
    DivModUnique(y + x, m, a + b, 0);
  }

  /** `MappingOf(range, vaddr)`: the physical range mapped at `vaddr`. */
  function MappingOfPhysical(range: Range, vaddr: nat): (m: AddressMapping)
    requires IsValid(range)
    ensures m.PhysicalRange() == range && m.vaddr == vaddr
  {
    AddressMapping(vaddr, range.front, Size(range))
  }

  /** `MappingOf(range, paddr)`: the virtual range backed from `paddr`. */
  function MappingOfVirtual(range: Range, paddr: nat): (m: AddressMapping)
    requires IsValid(range)
    ensures m.VirtualRange() == range && m.paddr == paddr
  {
    AddressMapping(range.front, paddr, Size(range))
  }

  /** `StackMapping`: the mapped stack and the whole area including guard pages. */
  datatype StackMapping = StackMapping(stack: AddressMapping, total: Range)
  {
    /** `baseAddress`: a stack grows down from the end of its mapping. */
    function BaseAddress(): (base: nat)
      ensures base == stack.VirtualRange().back
    {
      stack.vaddr + stack.size
    }
  }
}
