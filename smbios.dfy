/**
 * SMBIOS (smbios.cpp): finding the 32-bit or 64-bit entry point,
 * checking its checksums, and reading the strings that follow each
 * structure of the structure table into the platform information.
 *
 * Physical memory is one sequence of bytes and pointers are indices into
 * it; mapping the tables into virtual memory and the debug log are not
 * modelled. The structure table and its string sets are laid out as in
 * section 6.1 of the DMTF SMBIOS Reference Specification (DSP0134): the
 * formatted area of a structure is `length` bytes, followed by
 * NUL-terminated strings and one more NUL.
 */
module SmBios {
  import opened Util
  import opened Status

  const Nul: Octet := 0

  /** The byte sum of `bytes`, without wrap-around. */
  function ByteSum(bytes: seq<Octet>): nat
  {
    if |bytes| == 0 then 0 else ByteSum(bytes[..|bytes| - 1]) + bytes[|bytes| - 1]
  }

  /**
   * `TestEntryChecksum`: the bytes summed in a `uint8_t` must come to
   * zero, unless the operator asked for checksums to be ignored.
   */
  method TestEntryChecksum(bytes: seq<Octet>, ignoreChecksum: bool) returns (ok: bool)
    ensures ok <==> ignoreChecksum || ByteSum(bytes) % 256 == 0
  {
    var sum: Octet := 0;
    for i := 0 to |bytes|
      invariant sum == ByteSum(bytes[..i]) % 256
    {
      assert bytes[..i + 1][..i] == bytes[..i];
      sum := (sum + bytes[i]) % 256;
    }
    assert bytes[..|bytes|] == bytes;
    if sum != 0 {
      if ignoreChecksum {
        return true;
      }
    }
    return sum == 0;
  }

  lemma {:induction false} ByteSumAppend(a: seq<Octet>, b: seq<Octet>)
    ensures ByteSum(a + b) == ByteSum(a) + ByteSum(b)
    decreases |b|
  {
    if |b| > 0 {
      var b' := b[..|b| - 1];
      assert (a + b)[..|a + b| - 1] == a + b';
      assert (a + b)[|a + b| - 1] == b[|b| - 1];
      ByteSumAppend(a, b');
      assert ByteSum(a + b) == ByteSum(a + b') + b[|b| - 1];
    } else {
      assert a + b == a;
    }
  }

  /** The byte a firmware writer stores in a checksum field: what brings the sum of the rest to zero modulo 256. */
  function ChecksumByte(bytes: seq<Octet>): (c: Octet)
  {
    (256 - ByteSum(bytes) % 256) % 256
  }

  /** Bytes followed by their checksum byte pass `TestEntryChecksum`'s test; any other last byte fails it. */
  lemma ChecksumByteBalances(bytes: seq<Octet>, c: Octet)
    ensures ByteSum(bytes + [c]) % 256 == 0 <==> c == ChecksumByte(bytes)
  {
    ByteSumAppend(bytes, [c]);
    assert ByteSum([c]) == c by {
      assert [c][..0] == [];
    }
    var total := ByteSum(bytes);
    var q := total / 256;
    var s := total % 256;
    assert total + c == q * 256 + (s + c);
    if s + c < 256 {
      DivModUnique(total + c, 256, q, s + c);
    } else {
      DivModUnique(total + c, 256, q + 1, s + c - 256);
    }
    if s == 0 {
      DivModUnique(256, 256, 1, 0);
    } else {
      DivModUnique(256 - s, 256, 0, 256 - s);
    }
  }

  // ---------------------------------------------------------------------
  // String sets
  // ---------------------------------------------------------------------

  /** A double NUL at `k`: the end of a string set. */
  predicate IsTerminator(mem: seq<Octet>, k: nat)
  {
    k + 1 < |mem| && mem[k] == Nul && mem[k + 1] == Nul
  }

  /**
   * The first double NUL at or after `front`, where the string scan
   * stops; the length of memory when there is none.
   */
  function Terminator(mem: seq<Octet>, front: nat): (k: nat)
    ensures k == |mem| || (front <= k && IsTerminator(mem, k))
    ensures forall j :: front <= j < k ==> !IsTerminator(mem, j)
    decreases |mem| - front
  {
    if front + 1 >= |mem| then |mem|
    else if IsTerminator(mem, front) then front
    else Terminator(mem, front + 1)
  }

  /** The string set from `front` on is terminated within memory. */
  predicate HasTerminator(mem: seq<Octet>, front: nat)
  {
    Terminator(mem, front) < |mem|
  }

  /** The first NUL from `at` on, which the NUL at `k` bounds. */
  function NulFrom(mem: seq<Octet>, at: nat, k: nat): (b: nat)
    requires at <= k < |mem| && mem[k] == Nul
    ensures at <= b <= k && mem[b] == Nul
    ensures forall j :: at <= j < b ==> mem[j] != Nul
    decreases k - at
  {
    if mem[at] == Nul then at else NulFrom(mem, at + 1, k)
  }

  /** The bytes from `front` to the NUL at `k`, cut at every NUL. */
  function Pieces(mem: seq<Octet>, front: nat, k: nat): (p: seq<seq<Octet>>)
    requires front <= k < |mem| && mem[k] == Nul
    ensures |p| >= 1
    decreases k - front
  {
    var b := NulFrom(mem, front, k);
    if b == k then [mem[front..k]] else [mem[front..b]] + Pieces(mem, b + 1, k)
  }

  /**
   * The strings of the string set that starts at `front`: none when the
   * set is just the double NUL, otherwise each string up to its NUL.
   */
  function StringSet(mem: seq<Octet>, front: nat): seq<seq<Octet>>
    requires HasTerminator(mem, front)
  {
    var k := Terminator(mem, front);
    if k == front then [] else Pieces(mem, front, k)
  }

  /** Every string of a set is free of NULs. */
  lemma {:induction false} PiecesHaveNoNul(mem: seq<Octet>, front: nat, k: nat)
    requires front <= k < |mem| && mem[k] == Nul
    ensures forall i :: 0 <= i < |Pieces(mem, front, k)| ==> Nul !in Pieces(mem, front, k)[i]
    decreases k - front
  {
    var b := NulFrom(mem, front, k);
    if b < k {
      PiecesHaveNoNul(mem, b + 1, k);
    }
  }

  /** Strings joined back with NULs between them. */
  function Joined(p: seq<seq<Octet>>): seq<Octet>
    requires |p| >= 1
  {
    if |p| == 1 then p[0] else p[0] + [Nul] + Joined(p[1..])
  }

  /** Joining the strings of a set with NULs gives back the bytes they were read from. */
  lemma {:induction false} PiecesJoin(mem: seq<Octet>, front: nat, k: nat)
    requires front <= k < |mem| && mem[k] == Nul
    ensures Joined(Pieces(mem, front, k)) == mem[front..k]
    decreases k - front
  {
    var b := NulFrom(mem, front, k);
    if b < k {
      PiecesJoin(mem, b + 1, k);
      CutAtNul(mem, front, b, k);
    }
  }

  /** Bytes with a NUL at `b` are the bytes before it, the NUL and the bytes after it. */
  lemma CutAtNul(mem: seq<Octet>, front: nat, b: nat, k: nat)
    requires front <= b < k <= |mem| && mem[b] == Nul
    ensures mem[front..k] == mem[front..b] + [Nul] + mem[b + 1..k]
  {
  }

  /**
   * Within the string set that starts at `start`, the NUL that ends a
   * string is followed by a second NUL exactly at the set's end.
   */
  lemma EndOfSet(mem: seq<Octet>, start: nat, front: nat, back: nat, k: nat)
    requires HasTerminator(mem, start) && k == Terminator(mem, start)
    requires start <= front <= k && back == NulFrom(mem, front, k)
    ensures back + 1 < |mem|
    ensures mem[back + 1] == Nul <==> back == k
  {
    if back < k {
      assert !IsTerminator(mem, back);
    }
  }

  /**
   * One round of the scan of the set from `start`: the inner loop moves
   * `back` on to the NUL that ends the string at `front`, and `last` says
   * whether a second NUL follows it.
   */
  method EndOfString(mem: seq<Octet>, ghost start: nat, front: nat, ghost k: nat) returns (back: nat, last: bool)
    requires HasTerminator(mem, start) && k == Terminator(mem, start) && start <= front <= k
    ensures back == NulFrom(mem, front, k) && back + 1 < |mem|
    ensures last == (mem[back + 1] == Nul)
    ensures last <==> back == k
  {
    back := front;
    while mem[back] != Nul
      invariant front <= back <= NulFrom(mem, front, k)
      decreases k - back
    {
      back := back + 1;
    }
    EndOfSet(mem, start, front, back, k);
    last := mem[back + 1] == Nul;
  }

  /** All but the last of a non-empty sequence. */
  function AllButLast<T>(p: seq<T>): seq<T>
    requires |p| >= 1
  {
    p[..|p| - 1]
  }

  /** What an "Invalid index" or "Not specified" answer says, as `smbios.cpp`'s literal text. */
  function Text(s: string): (t: seq<Octet>)
    requires forall i :: 0 <= i < |s| ==> s[i] as int < 256
    ensures |t| == |s|
  {
    seq(|s|, i requires 0 <= i < |s| => s[i] as int)
  }

  function NotSpecified(): seq<Octet> { Text("Not specified") }
  function InvalidIndex(): seq<Octet> { Text("Invalid index") }

  /** String number `index` of `strings`, counting from 1; 0 means the field is not set. */
  function StringAt(strings: seq<seq<Octet>>, index: Octet): (r: seq<Octet>)
    ensures index == 0 ==> r == NotSpecified()
    ensures index > |strings| ==> r == InvalidIndex()
    ensures 0 < index <= |strings| ==> r == strings[index - 1]
  {
    if index == 0 then NotSpecified()
    else if index > |strings| then InvalidIndex()
    else strings[index - 1]
  }

  // ---------------------------------------------------------------------
  // The scan of a string set
  // ---------------------------------------------------------------------

  /**
   * The as-written scan from `front` on: the strings it passes are added
   * to `seen` until the NUL that ends one is the one at `k`.
   */
  function CollectFrom(mem: seq<Octet>, front: nat, k: nat, seen: seq<seq<Octet>>): seq<seq<Octet>>
    requires front <= k < |mem| && mem[k] == Nul
    decreases k - front
  {
    var b := NulFrom(mem, front, k);
    if b == k then seen else CollectFrom(mem, b + 1, k, seen + [mem[front..b]])
  }

  /** One string of the as-written scan: it moves on past the NUL at `back` that ends the string at `front`. */
  lemma CollectFromStep(mem: seq<Octet>, front: nat, back: nat, k: nat, seen: seq<seq<Octet>>)
    requires front <= k < |mem| && mem[k] == Nul && back == NulFrom(mem, front, k)
    ensures back == k ==> CollectFrom(mem, front, k, seen) == seen
    ensures back < k ==> CollectFrom(mem, front, k, seen) == CollectFrom(mem, back + 1, k, seen + [mem[front..back]])
  {
  }

  /** The as-written scan passes every string of the set but the last. */
  lemma {:induction false} CollectFromPieces(mem: seq<Octet>, front: nat, k: nat, seen: seq<seq<Octet>>)
    requires front <= k < |mem| && mem[k] == Nul
    ensures CollectFrom(mem, front, k, seen) == seen + AllButLast(Pieces(mem, front, k))
    decreases k - front
  {
    var b := NulFrom(mem, front, k);
    if b == k {
      assert AllButLast(Pieces(mem, front, k)) == [];
    } else {
      var entry := mem[front..b];
      CollectFromPieces(mem, b + 1, k, seen + [entry]);
      assert AllButLast(Pieces(mem, front, k)) == [entry] + AllButLast(Pieces(mem, b + 1, k));
      assert seen + [entry] + AllButLast(Pieces(mem, b + 1, k)) == seen + AllButLast(Pieces(mem, front, k));
    }
  }

  /** The scan from `front` on: every string up to the NUL at `k` is added to `seen`. */
  function CollectAll(mem: seq<Octet>, front: nat, k: nat, seen: seq<seq<Octet>>): seq<seq<Octet>>
    requires front <= k < |mem| && mem[k] == Nul
    decreases k - front
  {
    var b := NulFrom(mem, front, k);
    if b == k then seen + [mem[front..k]] else CollectAll(mem, b + 1, k, seen + [mem[front..b]])
  }

  /** One string of the scan: it moves on past the NUL at `back` that ends the string at `front`. */
  lemma CollectAllStep(mem: seq<Octet>, front: nat, back: nat, k: nat, seen: seq<seq<Octet>>)
    requires front <= k < |mem| && mem[k] == Nul && back == NulFrom(mem, front, k)
    ensures back == k ==> CollectAll(mem, front, k, seen) == seen + [mem[front..k]]
    ensures back < k ==> CollectAll(mem, front, k, seen) == CollectAll(mem, back + 1, k, seen + [mem[front..back]])
  {
  }

  /** The scan passes every string of the set. */
  lemma {:induction false} CollectAllPieces(mem: seq<Octet>, front: nat, k: nat, seen: seq<seq<Octet>>)
    requires front <= k < |mem| && mem[k] == Nul
    ensures CollectAll(mem, front, k, seen) == seen + Pieces(mem, front, k)
    decreases k - front
  {
    var b := NulFrom(mem, front, k);
    if b < k {
      var entry := mem[front..b];
      CollectAllPieces(mem, b + 1, k, seen + [entry]);
      assert seen + [entry] + Pieces(mem, b + 1, k) == seen + Pieces(mem, front, k);
    }
  }

  /** From the start of a set, the as-written scan passes all its strings but the last. */
  lemma CollectFromIs(mem: seq<Octet>, area: nat)
    requires HasTerminator(mem, area)
    ensures CollectFrom(mem, area, Terminator(mem, area), []) == AllButLast(Pieces(mem, area, Terminator(mem, area)))
  {
    CollectFromPieces(mem, area, Terminator(mem, area), []);
    assert [] + AllButLast(Pieces(mem, area, Terminator(mem, area))) == AllButLast(Pieces(mem, area, Terminator(mem, area)));
  }

  /**
   * From the start of a set, the scan passes all its strings; a set that
   * is just the double NUL has none.
   */
  lemma CollectAllIs(mem: seq<Octet>, area: nat)
    requires HasTerminator(mem, area)
    ensures Terminator(mem, area) == area ==> StringSet(mem, area) == []
    ensures Terminator(mem, area) > area ==> CollectAll(mem, area, Terminator(mem, area), []) == StringSet(mem, area)
  {
    CollectAllPieces(mem, area, Terminator(mem, area), []);
    assert [] + Pieces(mem, area, Terminator(mem, area)) == Pieces(mem, area, Terminator(mem, area));
  }

  // ---------------------------------------------------------------------
  // GetStringEntry
  // ---------------------------------------------------------------------

  /**
   * The as-written lookup stops at the string at `front` when it is the
   * `index`-th: that is string `index` of all but the last of the set.
   */
  lemma EntryFound(mem: seq<Octet>, start: nat, front: nat, back: nat, seen: seq<seq<Octet>>, index: Octet)
    requires HasTerminator(mem, start) && start <= front <= Terminator(mem, start)
    requires back == NulFrom(mem, front, Terminator(mem, start)) && back < Terminator(mem, start)
    requires CollectFrom(mem, front, Terminator(mem, start), seen) == CollectFrom(mem, start, Terminator(mem, start), [])
    requires |seen| + 1 == index
    ensures StringAt(AllButLast(Pieces(mem, start, Terminator(mem, start))), index) == mem[front..back]
  {
    var k := Terminator(mem, start);
    var entry := mem[front..back];
    CollectFromStep(mem, front, back, k, seen);
    CollectFromPieces(mem, back + 1, k, seen + [entry]);
    CollectFromIs(mem, start);
    assert AllButLast(Pieces(mem, start, k))[index - 1] == (seen + [entry])[index - 1];
  }

  /**
   * The as-written lookup reaches the double NUL having passed `seen`,
   * fewer than `index` strings: there is no string `index` among all but
   * the last of the set.
   */
  lemma EntryMissing(mem: seq<Octet>, start: nat, front: nat, seen: seq<seq<Octet>>, index: Octet)
    requires HasTerminator(mem, start) && start <= front <= Terminator(mem, start)
    requires NulFrom(mem, front, Terminator(mem, start)) == Terminator(mem, start)
    requires CollectFrom(mem, front, Terminator(mem, start), seen) == CollectFrom(mem, start, Terminator(mem, start), [])
    requires |seen| < index
    ensures StringAt(AllButLast(Pieces(mem, start, Terminator(mem, start))), index) == InvalidIndex()
  {
    CollectFromStep(mem, front, Terminator(mem, start), Terminator(mem, start), seen);
    CollectFromIs(mem, start);
  }

  /** The lookup stops at the string at `front` when it is the `index`-th: that is string `index` of the set. */
  lemma LookupFound(mem: seq<Octet>, start: nat, front: nat, back: nat, seen: seq<seq<Octet>>, index: Octet)
    requires HasTerminator(mem, start) && start <= front <= Terminator(mem, start) && start < Terminator(mem, start)
    requires back == NulFrom(mem, front, Terminator(mem, start))
    requires CollectAll(mem, front, Terminator(mem, start), seen) == CollectAll(mem, start, Terminator(mem, start), [])
    requires |seen| + 1 == index
    ensures StringAt(StringSet(mem, start), index) == mem[front..back]
  {
    var k := Terminator(mem, start);
    var entry := mem[front..back];
    CollectAllStep(mem, front, back, k, seen);
    if back < k {
      CollectAllPieces(mem, back + 1, k, seen + [entry]);
    }
    CollectAllIs(mem, start);
    assert StringSet(mem, start)[index - 1] == (seen + [entry])[index - 1];
  }

  /**
   * The lookup passes the last string of the set, having counted fewer
   * than `index`: the set has no string `index`.
   */
  lemma LookupMissing(mem: seq<Octet>, start: nat, front: nat, seen: seq<seq<Octet>>, index: Octet)
    requires HasTerminator(mem, start) && start <= front <= Terminator(mem, start) && start < Terminator(mem, start)
    requires NulFrom(mem, front, Terminator(mem, start)) == Terminator(mem, start)
    requires CollectAll(mem, front, Terminator(mem, start), seen) == CollectAll(mem, start, Terminator(mem, start), [])
    requires |seen| + 1 < index
    ensures StringAt(StringSet(mem, start), index) == InvalidIndex()
  {
    var k := Terminator(mem, start);
    CollectAllStep(mem, front, k, k, seen);
    CollectAllIs(mem, start);
  }


  /**
   * `detail::GetStringEntry` as written: the scan stops at the double
   * NUL before it counts the string that ends there, so the last string
   * of every set answers "Invalid index".
   */
  method GetStringEntryAsWritten(mem: seq<Octet>, header: nat, index: Octet) returns (r: seq<Octet>)
    requires header + 1 < |mem| && HasTerminator(mem, header + mem[header + 1])
    ensures var front := header + mem[header + 1];
      var k := Terminator(mem, front);
      r == StringAt(AllButLast(Pieces(mem, front, k)), index)
  {
    var front := header + mem[header + 1];
    if index == 0 {
      r := NotSpecified();
      assert r == StringAt(AllButLast(Pieces(mem, front, Terminator(mem, front))), 0);
      return;
    }
    r := ScanEntryAsWritten(mem, front, index);
  }

  /** The loop of `detail::GetStringEntry` as written, from the first string at `start`. */
  method ScanEntryAsWritten(mem: seq<Octet>, start: nat, index: Octet) returns (r: seq<Octet>)
    requires HasTerminator(mem, start) && index > 0
    ensures r == StringAt(AllButLast(Pieces(mem, start, Terminator(mem, start))), index)
  {
    var front := start;
    ghost var k := Terminator(mem, start);
    ghost var seen: seq<seq<Octet>> := [];
    var back := front;
    var remaining := index;
    while true
      invariant start <= front <= k && back == front
      invariant CollectFrom(mem, front, k, seen) == CollectFrom(mem, start, k, [])
      invariant 1 <= remaining && remaining as int + |seen| == index as int
      decreases k - front
    {
      var last;
      back, last := EndOfString(mem, start, front, k);
      CollectFromStep(mem, front, back, k, seen);
      if last {
        break;
      }
      var entry := mem[front..back];
      remaining := remaining - 1;
      if remaining == 0 {
        EntryFound(mem, start, front, back, seen, index);
        return entry;
      }
      seen := seen + [entry];
      back := back + 1;
      front := back;
    }
    EntryMissing(mem, start, front, seen, index);
    return InvalidIndex();
  }

  /**
   * `detail::GetStringEntry`, counting the string that ends at the
   * double NUL: string number `index` of the structure's string set.
   */
  method GetStringEntry(mem: seq<Octet>, header: nat, index: Octet) returns (r: seq<Octet>)
    requires header + 1 < |mem| && HasTerminator(mem, header + mem[header + 1])
    ensures r == StringAt(StringSet(mem, header + mem[header + 1]), index)
  {
    var front := header + mem[header + 1];
    if index == 0 {
      r := NotSpecified();
      assert r == StringAt(StringSet(mem, front), 0);
      return;
    }
    r := ScanEntry(mem, front, index);
  }

  /** The loop of `GetStringEntry`: walks the strings from `start` to string number `index`. */
  method ScanEntry(mem: seq<Octet>, start: nat, index: Octet) returns (r: seq<Octet>)
    requires HasTerminator(mem, start) && index > 0
    ensures r == StringAt(StringSet(mem, start), index)
  {
    var front := start;
    ghost var k := Terminator(mem, front);
    ghost var seen: seq<seq<Octet>> := [];
    var back := front;
    var remaining := index;
    while true
      invariant start <= front <= k && back == front
      invariant CollectAll(mem, front, k, seen) == CollectAll(mem, start, k, [])
      invariant 1 <= remaining && remaining as int + |seen| == index as int
      decreases k - front
    {
      var last;
      back, last := EndOfString(mem, start, front, k);
      if back == start && last {
        CollectAllIs(mem, start);
        return InvalidIndex();
      }
      assert start < k;
      var entry := mem[front..back];
      remaining := remaining - 1;
      if remaining == 0 {
        LookupFound(mem, start, front, back, seen, index);
        return entry;
      }
      if last {
        LookupMissing(mem, start, front, seen, index);
        return InvalidIndex();
      }
      CollectAllStep(mem, front, back, k, seen);
      seen := seen + [entry];
      back := back + 1;
      front := back;
    }
  }

  /** A structure whose string set is "A", then the double NUL: as written its one string is out of reach. */
  lemma LastStringLost()
    ensures var mem: seq<Octet> := [1, 4, 0, 0, 0x41, 0, 0];
      HasTerminator(mem, 4)
      && StringSet(mem, 4) == [[0x41]]
      && AllButLast(Pieces(mem, 4, Terminator(mem, 4))) == []
  {
    var mem: seq<Octet> := [1, 4, 0, 0, 0x41, 0, 0];
    assert IsTerminator(mem, 5);
    assert !IsTerminator(mem, 4);
    assert Terminator(mem, 4) == 5;
    assert mem[4..5] == [0x41];
    assert NulFrom(mem, 4, 5) == 5;
  }

  // ---------------------------------------------------------------------
  // ReadSmbiosEntry / ReadSmbiosTables
  // ---------------------------------------------------------------------

  /** `StaticVector<StringView, 16>`: at most 16 strings are kept, the rest are dropped. */
  const StringCapacity: nat := 16

  function Kept(strings: seq<seq<Octet>>): (r: seq<seq<Octet>>)
    ensures |r| <= StringCapacity && |r| <= |strings| && r == strings[..|r|]
    ensures |strings| <= StringCapacity ==> r == strings
  {
    if |strings| <= StringCapacity then strings else strings[..StringCapacity]
  }

  /** `StaticVector::add`: the string is added while fewer than 16 are kept, and dropped otherwise. */
  function Push(strings: seq<seq<Octet>>, entry: seq<Octet>): seq<seq<Octet>>
  {
    if |strings| < StringCapacity then strings + [entry] else strings
  }

  /** Adding a string to what was kept keeps the first 16 of the longer list. */
  lemma KeptAppend(seen: seq<seq<Octet>>, entry: seq<Octet>)
    ensures Kept(seen + [entry]) == Push(Kept(seen), entry)
  {
    if |seen| >= StringCapacity {
      assert (seen + [entry])[..StringCapacity] == seen[..StringCapacity];
    }
  }

  /** `PlatformInfo::BiosString`, a `StaticString<64>`: longer text is cut to 64 bytes. */
  function BiosString(s: seq<Octet>): (r: seq<Octet>)
    ensures |r| <= 64 && |r| <= |s| && r == s[..|r|]
    ensures |s| <= 64 ==> r == s
  {
    if |s| <= 64 then s else s[..64]
  }

  /** `PlatformInfo`. */
  datatype PlatformInfo = PlatformInfo(vendor: seq<Octet>, version: seq<Octet>, manufacturer: seq<Octet>, product: seq<Octet>, serial: seq<Octet>)

  /** `StructType::eFirmwareInfo` and `StructType::eSystemInfo`. */
  const FirmwareInfoType: Octet := 0
  const SystemInfoType: Octet := 1

  /** A structure header at `ptr` with its string indices and its terminated string set lie in memory. */
  ghost predicate StructureInMemory(mem: seq<Octet>, ptr: nat)
  {
    ptr + 8 <= |mem| && HasTerminator(mem, ptr + mem[ptr + 1])
  }

  /** The platform information after reading the structure at `ptr`, whose strings are `strings`. */
  function Recorded(mem: seq<Octet>, ptr: nat, info: PlatformInfo, strings: seq<seq<Octet>>): (r: PlatformInfo)
    requires ptr + 8 <= |mem|
    ensures mem[ptr] != FirmwareInfoType && mem[ptr] != SystemInfoType ==> r == info
  {
    if mem[ptr] == FirmwareInfoType then
      info.(vendor := BiosString(StringAt(strings, mem[ptr + 4])), version := BiosString(StringAt(strings, mem[ptr + 5])))
    else if mem[ptr] == SystemInfoType then
      info.(manufacturer := BiosString(StringAt(strings, mem[ptr + 4])),
            product := BiosString(StringAt(strings, mem[ptr + 5])),
            serial := BiosString(StringAt(strings, mem[ptr + 7])))
    else info
  }

  /** The start of the structure after the one at `ptr`: just past the double NUL ending its strings. */
  function NextStructure(mem: seq<Octet>, ptr: nat): (next: nat)
    requires StructureInMemory(mem, ptr)
    ensures next > ptr && 2 <= next <= |mem|
    ensures IsTerminator(mem, next - 2)
  {
    Terminator(mem, ptr + mem[ptr + 1]) + 2
  }

  /**
   * `ReadSmbiosEntry`'s string scan as written: the strings before the
   * last are kept, at most 16, and the result points just past the
   * double NUL.
   */
  method ScanStringsAsWritten(mem: seq<Octet>, area: nat) returns (strings: seq<seq<Octet>>, next: nat)
    requires HasTerminator(mem, area)
    ensures strings == Kept(AllButLast(Pieces(mem, area, Terminator(mem, area))))
    ensures next == Terminator(mem, area) + 2
  {
    ghost var k := Terminator(mem, area);
    ghost var seen: seq<seq<Octet>> := [];
    var front := area;
    var back := front;
    strings := [];
    while true
      invariant area <= front <= k && back == front
      invariant CollectFrom(mem, front, k, seen) == CollectFrom(mem, area, k, [])
      invariant strings == Kept(seen)
      decreases k - front
    {
      var last;
      back, last := EndOfString(mem, area, front, k);
      CollectFromStep(mem, front, back, k, seen);
      if last {
        break;
      }
      var entry := mem[front..back];
      KeptAppend(seen, entry);
      strings := Push(strings, entry);
      seen := seen + [entry];
      back := back + 1;
      front := back;
    }
    CollectFromIs(mem, area);
    next := back + 2;
  }

  /**
   * `ReadSmbiosEntry`'s string scan, keeping the string that ends at the
   * double NUL: the first 16 strings of the set, and the address just
   * past it.
   */
  method ScanStrings(mem: seq<Octet>, area: nat) returns (strings: seq<seq<Octet>>, next: nat)
    requires HasTerminator(mem, area)
    ensures strings == Kept(StringSet(mem, area))
    ensures next == Terminator(mem, area) + 2
  {
    ghost var k := Terminator(mem, area);
    ghost var seen: seq<seq<Octet>> := [];
    var front := area;
    var back := front;
    strings := [];
    while true
      invariant area <= front <= k && back == front
      invariant CollectAll(mem, front, k, seen) == CollectAll(mem, area, k, [])
      invariant strings == Kept(seen)
      decreases k - front
    {
      var last;
      back, last := EndOfString(mem, area, front, k);
      if back == area && last {
        break;
      }
      CollectAllStep(mem, front, back, k, seen);
      var entry := mem[front..back];
      KeptAppend(seen, entry);
      strings := Push(strings, entry);
      seen := seen + [entry];
      if last {
        break;
      }
      back := back + 1;
      front := back;
    }
    CollectAllIs(mem, area);
    next := back + 2;
  }

  /**
   * `ReadSmbiosEntry`: the strings of the structure at `ptr` are
   * scanned, the firmware vendor and version or the system manufacturer,
   * product and serial number are recorded, and the next structure
   * starts just past the double NUL.
   */
  method ReadSmbiosEntry(info: PlatformInfo, mem: seq<Octet>, ptr: nat) returns (info': PlatformInfo, next: nat)
    requires StructureInMemory(mem, ptr)
    ensures info' == Recorded(mem, ptr, info, Kept(StringSet(mem, ptr + mem[ptr + 1])))
    ensures next == NextStructure(mem, ptr)
  {
    var strings;
    strings, next := ScanStrings(mem, ptr + mem[ptr + 1]);
    info' := info;
    if mem[ptr] == FirmwareInfoType {
      info' := info'.(vendor := BiosString(StringAt(strings, mem[ptr + 4])), version := BiosString(StringAt(strings, mem[ptr + 5])));
    } else if mem[ptr] == SystemInfoType {
      info' := info'.(manufacturer := BiosString(StringAt(strings, mem[ptr + 4])));
      info' := info'.(product := BiosString(StringAt(strings, mem[ptr + 5])));
      info' := info'.(serial := BiosString(StringAt(strings, mem[ptr + 7])));
    }
  }

  /**
   * The local lookup of `ReadSmbiosEntry` agrees with `GetStringEntry`
   * for the first 16 strings, and past the 16th answers "Invalid index".
   */
  lemma KeptLookup(mem: seq<Octet>, front: nat, index: Octet)
    requires HasTerminator(mem, front)
    ensures index <= StringCapacity ==> StringAt(Kept(StringSet(mem, front)), index) == StringAt(StringSet(mem, front), index)
    ensures index > StringCapacity ==> StringAt(Kept(StringSet(mem, front)), index) == InvalidIndex()
  {
  }

  /** Every structure from `ptr` up to `end` lies in memory with its terminated string set. */
  ghost predicate TableInMemory(mem: seq<Octet>, ptr: nat, end: nat)
    decreases |mem| - ptr
  {
    ptr < end ==> StructureInMemory(mem, ptr) && TableInMemory(mem, NextStructure(mem, ptr), end)
  }

  /** The platform information gathered from the structures between `ptr` and `end`. */
  function TableInfo(mem: seq<Octet>, ptr: nat, end: nat, info: PlatformInfo): PlatformInfo
    requires TableInMemory(mem, ptr, end)
    decreases |mem| - ptr
  {
    if ptr >= end then info
    else TableInfo(mem, NextStructure(mem, ptr), end, Recorded(mem, ptr, info, Kept(StringSet(mem, ptr + mem[ptr + 1]))))
  }

  /** `ReadSmbiosTables`' walk over the structure table from `ptr` to `end`. */
  method ReadStructures(mem: seq<Octet>, ptr: nat, end: nat) returns (info: PlatformInfo)
    requires TableInMemory(mem, ptr, end)
    ensures info == TableInfo(mem, ptr, end, PlatformInfo([], [], [], [], []))
  {
    var at := ptr;
    info := PlatformInfo([], [], [], [], []);
    while at < end
      invariant TableInMemory(mem, at, end)
      invariant TableInfo(mem, at, end, info) == TableInfo(mem, ptr, end, PlatformInfo([], [], [], [], []))
      decreases |mem| - at
    {
      info, at := ReadSmbiosEntry(info, mem, at);
    }
  }

  /** A structure of any other type leaves the platform information as it was. */
  lemma OtherStructuresIgnored(mem: seq<Octet>, ptr: nat, end: nat, info: PlatformInfo)
    requires ptr < end && TableInMemory(mem, ptr, end)
    requires mem[ptr] != FirmwareInfoType && mem[ptr] != SystemInfoType
    ensures TableInfo(mem, ptr, end, info) == TableInfo(mem, NextStructure(mem, ptr), end, info)
  {
  }

  // ---------------------------------------------------------------------
  // Entry points
  // ---------------------------------------------------------------------

  /** The value of little-endian bytes. */
  function LittleEndian(bytes: seq<Octet>): nat
  {
    if |bytes| == 0 then 0 else bytes[0] + 256 * LittleEndian(bytes[1..])
  }

  /** `Entry64::kAnchor0`, "_SM3_", and `Entry32::kAnchor0`, "_SM_". */
  function Anchor64(): seq<Octet> { Text("_SM3_") }
  function Anchor32(): seq<Octet> { Text("_SM_") }

  /** `sizeof(Entry64)` and `sizeof(Entry32)`. */
  const Entry64Size: nat := 24
  const Entry32Size: nat := 31

  /** Which entry point was found, and the physical range of the structure table it describes. */
  datatype Tables = Tables(is64: bool, tableAddress: nat, tableSize: nat)

  datatype Found = Found(status: OsStatus, tables: Option<Tables>)

  /** `FindSmbios64`: the anchor, then the checksum over the whole 24-byte entry point. */
  function FindSmbios64(mem: seq<Octet>, address: nat, ignoreChecksum: bool): (r: Found)
    requires address + Entry64Size <= |mem|
    ensures r.status == Success <==> r.tables.Some?
    ensures r.status == Success ==>
      (mem[address..address + 5] == Anchor64() && (ignoreChecksum || ByteSum(mem[address..address + Entry64Size]) % 256 == 0))
    ensures r.status in {Success, InvalidData, ChecksumError}
  {
    var entry := mem[address..address + Entry64Size];
    if entry[..5] != Anchor64() then Found(InvalidData, None)
    else if !(ignoreChecksum || ByteSum(entry) % 256 == 0) then Found(ChecksumError, None)
    else Found(Success, Some(Tables(true, LittleEndian(entry[16..24]), LittleEndian(entry[12..16]))))
  }

  /** `FindSmbios32`: the anchor, then the checksums of the base header (16 bytes) and of the extended header (15 bytes). */
  function FindSmbios32(mem: seq<Octet>, address: nat, ignoreChecksum: bool): (r: Found)
    requires address + Entry32Size <= |mem|
    ensures r.status == Success <==> r.tables.Some?
    ensures r.status == Success ==>
      (mem[address..address + 4] == Anchor32()
       && (ignoreChecksum || (ByteSum(mem[address..address + 0x10]) % 256 == 0 && ByteSum(mem[address + 0x10..address + 0x1F]) % 256 == 0)))
    ensures r.status in {Success, InvalidData, ChecksumError}
  {
    var entry := mem[address..address + Entry32Size];
    if entry[..4] != Anchor32() then Found(InvalidData, None)
    else if !(ignoreChecksum || ByteSum(entry[..0x10]) % 256 == 0) then Found(ChecksumError, None)
    else
      assert entry[..0x10] == mem[address..address + 0x10] && entry[0x10..0x1F] == mem[address + 0x10..address + 0x1F];
      if !(ignoreChecksum || ByteSum(entry[0x10..0x1F]) % 256 == 0) then Found(ChecksumError, None)
      else Found(Success, Some(Tables(false, LittleEndian(entry[0x18..0x1C]), LittleEndian(entry[0x16..0x18]))))
  }

  /** `SmBiosLoadOptions`; an address of 0 is a null pointer. */
  datatype LoadOptions = LoadOptions(smbios32Address: nat, smbios64Address: nat, ignoreChecksum: bool, ignore32BitEntry: bool, ignore64BitEntry: bool)

  /** The entry points the options ask for lie in memory. */
  predicate EntriesInMemory(mem: seq<Octet>, options: LoadOptions)
  {
    (options.smbios64Address != 0 && !options.ignore64BitEntry ==> options.smbios64Address + Entry64Size <= |mem|)
    && (options.smbios32Address != 0 && !options.ignore32BitEntry ==> options.smbios32Address + Entry32Size <= |mem|)
  }

  /**
   * `FindSmbiosTables` as written: the 64-bit entry point is preferred,
   * then the 32-bit one; when neither is found the answer is `NotFound`,
   * whatever the last attempt reported.
   */
  function FindSmbiosTablesAsWritten(mem: seq<Octet>, options: LoadOptions): (r: Found)
    requires EntriesInMemory(mem, options)
    ensures r.status == Success || r.status == NotFound
  {
    var r64 := if options.smbios64Address != 0 && !options.ignore64BitEntry then FindSmbios64(mem, options.smbios64Address, options.ignoreChecksum) else Found(NotFound, None);
    if r64.status == Success then r64
    else
      var r32 := if options.smbios32Address != 0 && !options.ignore32BitEntry then FindSmbios32(mem, options.smbios32Address, options.ignoreChecksum) else Found(NotFound, None);
      if r32.status == Success then r32 else Found(NotFound, None)
  }

  /**
   * `FindSmbiosTables` returning the status of the last entry point it
   * tried, as the comment on its `status` local says it should:
   * `NotFound` only when no entry point was tried.
   */
  function FindSmbiosTables(mem: seq<Octet>, options: LoadOptions): (r: Found)
    requires EntriesInMemory(mem, options)
    ensures r.status == Success <==> r.tables.Some?
  {
    var status := NotFound;
    var r64 := if options.smbios64Address != 0 && !options.ignore64BitEntry then FindSmbios64(mem, options.smbios64Address, options.ignoreChecksum) else Found(status, None);
    if r64.status == Success then r64
    else
      var r32 := if options.smbios32Address != 0 && !options.ignore32BitEntry then FindSmbios32(mem, options.smbios32Address, options.ignoreChecksum) else Found(r64.status, None);
      r32
  }

  /** Both agree when an entry point is found; they differ only in the error they report. */
  lemma FindSmbiosTablesAgree(mem: seq<Octet>, options: LoadOptions)
    requires EntriesInMemory(mem, options)
    ensures FindSmbiosTables(mem, options).status == Success <==> FindSmbiosTablesAsWritten(mem, options).status == Success
    ensures FindSmbiosTables(mem, options).status == Success ==> FindSmbiosTables(mem, options) == FindSmbiosTablesAsWritten(mem, options)
  {
  }

  /** The 64-bit entry point wins whenever it is valid and not ignored. */
  lemma Prefers64(mem: seq<Octet>, options: LoadOptions)
    requires EntriesInMemory(mem, options)
    requires options.smbios64Address != 0 && !options.ignore64BitEntry
    requires FindSmbios64(mem, options.smbios64Address, options.ignoreChecksum).status == Success
    ensures FindSmbiosTables(mem, options).tables.Some? && FindSmbiosTables(mem, options).tables.value.is64
  {
  }

  /** A 64-bit entry point with a bad checksum and no 32-bit one: as written `NotFound`, though the last status was the checksum error. */
  lemma LastErrorDropped(mem: seq<Octet>, address: nat)
    requires address > 0 && address + Entry64Size <= |mem|
    requires mem[address..address + 5] == Anchor64() && ByteSum(mem[address..address + Entry64Size]) % 256 != 0
    ensures var options := LoadOptions(0, address, false, false, false);
      FindSmbiosTablesAsWritten(mem, options).status == NotFound
      && FindSmbiosTables(mem, options).status == ChecksumError
  {
  }
}
