/**
 * ACPI table discovery (acpi/acpi.cpp): the RSDP checksum, picking the
 * first MADT, MCFG and FADT out of the RSDT or XSDT, and walking the
 * variable-length entries of the MADT.
 *
 * Tables are byte sequences; the layouts are those of section 5.2 of the
 * ACPI 6.5 specification. Mapping tables into virtual memory and the
 * debug log are not modelled.
 */
module Acpi {
  import opened Util
  import opened Status
  import SmBios

  /** The range of a `uint32_t`. */
  const Word32: nat := 0x1_0000_0000

  /** Adding to a remainder and reducing again is reducing the plain sum. */
  lemma ModAddWrap(x: nat, b: nat, m: nat)
    requires m > 0
    ensures (x % m + b) % m == (x + b) % m
  {
    var q, r := x / m, x % m;
    var q', s := (r + b) / m, (r + b) % m;
    assert x + b == (q + q') * m + s;
    DivModUnique(x + b, m, q + q', s);
  }

  /** The low byte of a value truncated to 32 bits is its low byte. */
  lemma LowByteOfWord(x: nat)
    ensures (x % Word32) % 256 == x % 256
  {
    var q, r := x / Word32, x % Word32;
    var q', s := r / 256, r % 256;
    assert x == (q * 0x100_0000 + q') * 256 + s;
    DivModUnique(x, 256, q * 0x100_0000 + q', s);
  }

  /**
   * `ValidateChecksum`: the bytes summed into a `uint32_t`, whose low
   * byte (`sum & 0xFF`) must be zero. The wrap-around of the 32-bit sum
   * never changes that byte, so the table is valid exactly when its
   * plain byte sum is a multiple of 256.
   */
  method ValidateChecksum(bytes: seq<Octet>) returns (ok: bool)
    ensures ok <==> SmBios.ByteSum(bytes) % 256 == 0
  {
    var sum: nat := 0;
    for i := 0 to |bytes|
      invariant sum == SmBios.ByteSum(bytes[..i]) % Word32
    {
      assert bytes[..i + 1][..i] == bytes[..i];
      ModAddWrap(SmBios.ByteSum(bytes[..i]), bytes[i], Word32);
      sum := (sum + bytes[i]) % Word32;
    }
    assert bytes[..|bytes|] == bytes;
    LowByteOfWord(SmBios.ByteSum(bytes));
    return sum % 256 == 0;
  }

  // ---------------------------------------------------------------------
  // The RSDP
  // ---------------------------------------------------------------------

  /** `sizeof(RsdpLocator)`: the locator of an ACPI 2.0 or later firmware. */
  const RsdpSize: nat := 36

  /** The ACPI 1.0 part of the locator, which its own checksum covers. */
  const RsdpV1Size: nat := 20

  /** `RsdpLocator::revision`, at offset 15. */
  function Revision(rsdp: seq<Octet>): Octet
    requires |rsdp| >= RsdpSize
  {
    rsdp[15]
  }

  /** `RsdpLocator::length`, the little-endian `uint32_t` at offset 20. */
  function RsdpLength(rsdp: seq<Octet>): nat
    requires |rsdp| >= RsdpSize
  {
    SmBios.LittleEndian(rsdp[20..24])
  }

  /**
   * How many bytes of the locator the checksum covers: the 20 bytes of an
   * ACPI 1.0 locator for revision 0 and `length` for every other
   * revision, since an unknown revision is read as an XSDT-bearing one
   * (section 5.2.5.3 of ACPI 6.5).
   */
  function CheckedLength(rsdp: seq<Octet>): (n: nat)
    requires |rsdp| >= RsdpSize
    ensures Revision(rsdp) == 0 ==> n == RsdpV1Size
    ensures Revision(rsdp) != 0 ==> n == RsdpLength(rsdp)
  {
    if Revision(rsdp) == 0 then RsdpV1Size else RsdpLength(rsdp)
  }

  /**
   * The bytes from the locator onwards hold the whole locator, and as many
   * bytes as its `length` field claims when that field is read.
   */
  predicate LocatorInMemory(rsdp: seq<Octet>)
  {
    |rsdp| >= RsdpSize && (Revision(rsdp) != 0 ==> RsdpLength(rsdp) <= |rsdp|)
  }

  /** `ValidateRsdpLocator`: the checksum over the part of the locator its revision defines. */
  method ValidateRsdpLocator(rsdp: seq<Octet>) returns (ok: bool)
    requires LocatorInMemory(rsdp)
    ensures ok <==> SmBios.ByteSum(rsdp[..CheckedLength(rsdp)]) % 256 == 0
  {
    if Revision(rsdp) == 0 {
      ok := ValidateChecksum(rsdp[..RsdpV1Size]);
    } else {
      ok := ValidateChecksum(rsdp[..RsdpLength(rsdp)]);
    }
  }

  /** A revision-0 locator's verdict does not depend on the bytes past its first 20. */
  lemma RevisionZeroIgnoresExtension(rsdp: seq<Octet>, other: seq<Octet>)
    requires |rsdp| >= RsdpSize && |other| >= RsdpSize
    requires Revision(rsdp) == 0 && rsdp[..RsdpV1Size] == other[..RsdpV1Size]
    ensures Revision(other) == 0
    ensures rsdp[..CheckedLength(rsdp)] == other[..CheckedLength(other)]
  {
    assert other[15] == other[..RsdpV1Size][15];
  }

  /** Every revision other than 0 is checked as a revision-2 locator would be. */
  lemma UnknownRevisionAsXsdt(rsdp: seq<Octet>, r: Octet)
    requires |rsdp| >= RsdpSize && r != 0 && Revision(rsdp) != 0
    ensures CheckedLength(rsdp[15 := r]) == CheckedLength(rsdp)
  {
    assert rsdp[15 := r][20..24] == rsdp[20..24];
  }

  // ---------------------------------------------------------------------
  // The tables the RSDT or XSDT points at
  // ---------------------------------------------------------------------

  /** The four signature bytes of a table header, as ASCII codes. */
  type Signature = seq<Octet>

  /** `Madt::kSignature`, "APIC". */
  const MadtSignature: Signature := [0x41, 0x50, 0x49, 0x43]
  /** `Mcfg::kSignature`, "MCFG". */
  const McfgSignature: Signature := [0x4D, 0x43, 0x46, 0x47]
  /** `Fadt::kSignature`, "FACP". */
  const FadtSignature: Signature := [0x46, 0x41, 0x43, 0x50]

  /**
   * `SetUniqueTableEntry`: the table at `index` is recorded in `dst` when
   * its signature is the wanted one and no table of that kind was
   * recorded yet; a later duplicate is ignored.
   */
  function SetUniqueTableEntry(dst: Option<nat>, signature: Signature, wanted: Signature, index: nat): (r: Option<nat>)
    ensures dst.Some? ==> r == dst
    ensures signature != wanted ==> r == dst
    ensures dst.None? && signature == wanted ==> r == Some(index)
  {
    if signature == wanted && dst.None? then Some(index) else dst
  }

  /** The index of the first table whose signature is `wanted`, if there is one. */
  function FirstWith(signatures: seq<Signature>, wanted: Signature): (r: Option<nat>)
    ensures r.Some? ==> r.value < |signatures| && signatures[r.value] == wanted
    ensures r.Some? ==> forall j :: 0 <= j < r.value ==> signatures[j] != wanted
    ensures r.None? ==> wanted !in signatures
  {
    if |signatures| == 0 then None
    else if signatures[0] == wanted then Some(0)
    else match FirstWith(signatures[1..], wanted)
      case None => None
      case Some(i) => Some(i + 1)
  }

  /** Offering one more table to `SetUniqueTableEntry` keeps the first match among all of them. */
  lemma FirstWithAppend(signatures: seq<Signature>, s: Signature, wanted: Signature)
    ensures FirstWith(signatures + [s], wanted)
         == SetUniqueTableEntry(FirstWith(signatures, wanted), s, wanted, |signatures|)
  {
    var before, after := FirstWith(signatures, wanted), FirstWith(signatures + [s], wanted);
    if before.None? {
      assert forall j :: 0 <= j < |signatures| ==> (signatures + [s])[j] != wanted;
      if s == wanted {
        assert (signatures + [s])[|signatures|] == wanted;
      } else {
        assert wanted !in signatures + [s];
      }
    } else {
      assert (signatures + [s])[before.value] == wanted;
    }
  }

  /** The same, for a growing prefix of the tables. */
  lemma FirstWithPrefix(tables: seq<Signature>, i: nat, wanted: Signature)
    requires i < |tables|
    ensures FirstWith(tables[..i + 1], wanted)
         == SetUniqueTableEntry(FirstWith(tables[..i], wanted), tables[i], wanted, i)
  {
    assert tables[..i + 1] == tables[..i] + [tables[i]];
    FirstWithAppend(tables[..i], tables[i], wanted);
  }

  /**
   * `AcpiTables`: the revision of the locator, the signature of every
   * table the RSDT or XSDT lists, and the first MADT, MCFG and FADT among
   * them, as indices into that list.
   */
  class AcpiTables {
    var revision: Octet
    var entries: seq<Signature>
    var madt: Option<nat>
    var mcfg: Option<nat>
    var fadt: Option<nat>

    /**
     * The constructor's `setupTables` loop: each table in turn is offered
     * to `SetUniqueTableEntry` for the MADT, the MCFG and the FADT, and
     * appended to the entries.
     */
    constructor (revision: Octet, tables: seq<Signature>)
      ensures this.revision == revision && entries == tables
      ensures madt == FirstWith(tables, MadtSignature)
      ensures mcfg == FirstWith(tables, McfgSignature)
      ensures fadt == FirstWith(tables, FadtSignature)
    {
      this.revision := revision;
      entries := tables;
      madt, mcfg, fadt := None, None, None;
      new;
      for i := 0 to |tables|
        invariant this.revision == revision && entries == tables
        invariant madt == FirstWith(tables[..i], MadtSignature)
        invariant mcfg == FirstWith(tables[..i], McfgSignature)
        invariant fadt == FirstWith(tables[..i], FadtSignature)
      {
        FirstWithPrefix(tables, i, MadtSignature);
        FirstWithPrefix(tables, i, McfgSignature);
        FirstWithPrefix(tables, i, FadtSignature);
        madt := SetUniqueTableEntry(madt, tables[i], MadtSignature, i);
        mcfg := SetUniqueTableEntry(mcfg, tables[i], McfgSignature, i);
        fadt := SetUniqueTableEntry(fadt, tables[i], FadtSignature, i);
      }
      assert tables[..|tables|] == tables;
    }
  }

  // ---------------------------------------------------------------------
  // The MADT entries
  // ---------------------------------------------------------------------

  /** `offsetof(Madt, entries)`: the header, the local APIC address and the flags. */
  const MadtEntriesOffset: nat := 44

  /** `MadtEntryType::eLocalApic` and `MadtEntryType::eIoApic`. */
  const LocalApicEntry: Octet := 0
  const IoApicEntry: Octet := 1

  /**
   * The length byte of the entry at `current`. The MADT is `table`, its
   * `header.length` bytes; an entry whose type byte is the table's last
   * byte has its length byte in the memory that follows, `after`.
   */
  function LengthByte(table: seq<Octet>, after: Octet, current: nat): Octet
    requires current < |table|
  {
    if current + 1 < |table| then table[current + 1] else after
  }

  /** `MadtIterator::operator++` as written: the cursor moves on by the entry's length byte. */
  function Advance(table: seq<Octet>, after: Octet, current: nat): (next: nat)
    requires current < |table|
    ensures next - current == LengthByte(table, after, current)
  {
    current + LengthByte(table, after, current)
  }

  /**
   * An entry whose length byte is 0 leaves the cursor where it was, still
   * below the end, so `it != end` (which compares with `<`) stays true and
   * `count_if` over the MADT never finishes.
   */
  lemma ZeroLengthStalls(table: seq<Octet>, after: Octet, current: nat)
    requires current < |table| && LengthByte(table, after, current) == 0
    ensures Advance(table, after, current) == current
    ensures Advance(table, after, current) < |table|
  {
  }

  /** A 46-byte MADT whose only entry is a local APIC entry of length 0. */
  lemma ZeroLengthEntryExample()
    ensures var table := seq(44, _ => 0 as Octet) + [LocalApicEntry, 0];
      Advance(table, 0, MadtEntriesOffset) == MadtEntriesOffset < |table|
  {
  }

  /**
   * The offsets of the entries the MADT walk visits from `current`: while
   * the cursor is below the end of the table it visits the entry there and
   * moves on by the length byte, except that an entry of length 0 ends the
   * walk after it is visited.
   */
  function EntryOffsets(table: seq<Octet>, after: Octet, current: nat): (offsets: seq<nat>)
    ensures forall i :: 0 <= i < |offsets| ==> current <= offsets[i] < |table|
    decreases |table| - current
  {
    if current >= |table| then []
    else if LengthByte(table, after, current) == 0 then [current]
    else [current] + EntryOffsets(table, after, Advance(table, after, current))
  }

  /** Consecutive entries are one length byte apart, and only the last may have length 0. */
  lemma {:induction false} EntriesFollowLengths(table: seq<Octet>, after: Octet, current: nat, i: nat)
    requires i + 1 < |EntryOffsets(table, after, current)|
    ensures var offsets := EntryOffsets(table, after, current);
      LengthByte(table, after, offsets[i]) > 0
      && offsets[i + 1] == Advance(table, after, offsets[i])
    decreases |table| - current
  {
    var next := Advance(table, after, current);
    if i > 0 {
      EntriesFollowLengths(table, after, next, i - 1);
    }
  }

  /** The walk from the first entry: the entries `Madt::begin()` to `Madt::end()` range over. */
  function MadtEntries(table: seq<Octet>, after: Octet): seq<nat>
  {
    EntryOffsets(table, after, MadtEntriesOffset)
  }

  /** The entries of type `kind` the walk from `current` visits, in order. */
  function Found(table: seq<Octet>, after: Octet, current: nat, kind: Octet): (r: seq<nat>)
    decreases |table| - current
  {
    if current >= |table| then []
    else if LengthByte(table, after, current) == 0 then (if table[current] == kind then [current] else [])
    else if table[current] == kind then [current] + Found(table, after, Advance(table, after, current), kind)
    else Found(table, after, Advance(table, after, current), kind)
  }

  /** The entries of type `kind` in the whole MADT. */
  function MadtEntriesOfType(table: seq<Octet>, after: Octet, kind: Octet): seq<nat>
  {
    Found(table, after, MadtEntriesOffset, kind)
  }

  /** `Found` holds exactly the visited entries whose type byte is `kind`. */
  lemma {:induction false} FoundMembers(table: seq<Octet>, after: Octet, current: nat, kind: Octet)
    ensures forall o :: (o in Found(table, after, current, kind)
      <==> o in EntryOffsets(table, after, current) && o < |table| && table[o] == kind)
    ensures |Found(table, after, current, kind)| <= |EntryOffsets(table, after, current)|
    decreases |table| - current
  {
    if current < |table| && LengthByte(table, after, current) > 0 {
      FoundMembers(table, after, Advance(table, after, current), kind);
    }
  }

  /**
   * `Madt::lapicCount` and `Madt::ioApicCount`: `count_if` over the
   * entries for the entries of type `kind`. The walk stops at an entry of
   * length 0 (see `ZeroLengthStalls` for what the iterator does there).
   */
  method CountEntries(table: seq<Octet>, after: Octet, kind: Octet) returns (count: nat)
    ensures count == |MadtEntriesOfType(table, after, kind)|
  {
    count := 0;
    var current := MadtEntriesOffset;
    ghost var total := |Found(table, after, current, kind)|;
    while current < |table|
      invariant count + |Found(table, after, current, kind)| == total
      decreases |table| - current
    {
      var length := LengthByte(table, after, current);
      if table[current] == kind {
        count := count + 1;
      }
      if length == 0 {
        return;
      }
      current := current + length;
    }
  }

  /**
   * `AcpiTables::mapIoApic`: the `index`-th I/O APIC entry of the MADT,
   * or no I/O APIC (`km::IoApic { }`) when there are not that many.
   */
  method MapIoApic(table: seq<Octet>, after: Octet, index: nat) returns (entry: Option<nat>)
    ensures var found := MadtEntriesOfType(table, after, IoApicEntry);
      (index < |found| ==> entry == Some(found[index])) && (index >= |found| ==> entry.None?)
  {
    var current := MadtEntriesOffset;
    var remaining := index;
    ghost var skipped: seq<nat> := [];
    ghost var found := Found(table, after, current, IoApicEntry);
    while current < |table|
      invariant skipped + Found(table, after, current, IoApicEntry) == found
      invariant |skipped| + remaining == index
      decreases |table| - current
    {
      var length := LengthByte(table, after, current);
      if length == 0 {
        if table[current] == IoApicEntry && remaining == 0 {
          assert found[index] == current;
          return Some(current);
        }
        return None;
      }
      var next := current + length;
      if table[current] == IoApicEntry {
        if remaining == 0 {
          assert found[index] == current;
          return Some(current);
        }
        remaining := remaining - 1;
        assert skipped + ([current] + Found(table, after, next, IoApicEntry))
            == (skipped + [current]) + Found(table, after, next, IoApicEntry);
        skipped := skipped + [current];
      }
      current := next;
    }
    return None;
  }

  /** There is an `index`-th I/O APIC exactly when `index` is below `ioApicCount`. */
  lemma MapIoApicWithinCount(table: seq<Octet>, after: Octet, index: nat, entry: Option<nat>)
    requires var found := MadtEntriesOfType(table, after, IoApicEntry);
      (index < |found| ==> entry == Some(found[index])) && (index >= |found| ==> entry.None?)
    ensures entry.Some? <==> index < |MadtEntriesOfType(table, after, IoApicEntry)|
    ensures entry.Some? ==> entry.value in MadtEntries(table, after)
    ensures entry.Some? ==> entry.value < |table| && table[entry.value] == IoApicEntry
  {
    if entry.Some? {
      FoundMembers(table, after, MadtEntriesOffset, IoApicEntry);
      assert entry.value in MadtEntriesOfType(table, after, IoApicEntry);
    }
  }
}
