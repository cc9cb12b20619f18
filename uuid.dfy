/**
 * UUIDs (util/uuid.hpp): hexadecimal digit decoding, the octet reader
 * behind the 8-4-4-4-12 text form, the version and variant fields of
 * section 4 of RFC 9562, and the nil and max UUIDs.
 */
module Uuids {

  /** `IsHex`: a decimal digit or a letter a-f in either case. */
  predicate IsHex(c: char)
  {
    ('0' <= c <= '9') || ('a' <= c <= 'f') || ('A' <= c <= 'F')
  }

  /** `HexNibble`: the value of a hexadecimal digit; 0 for any other character. */
  function HexNibble(c: char): (r: bv8)
    ensures r < 16
    ensures !IsHex(c) ==> r == 0
    ensures '0' <= c <= '9' ==> r as int == c as int - '0' as int
  {
    if '0' <= c <= '9' then (c as int - '0' as int) as bv8
    else if 'a' <= c <= 'f' then (c as int - 'a' as int + 10) as bv8
    else if 'A' <= c <= 'F' then (c as int - 'A' as int + 10) as bv8
    else 0
  }

  const LowerDigits: string := "0123456789abcdef"
  const UpperDigits: string := "0123456789ABCDEF"

  /** Each digit of either case decodes to its position among the sixteen digits. */
  lemma HexNibbleOfDigit(v: bv8)
    requires v < 16
    ensures IsHex(LowerDigits[v as int]) && HexNibble(LowerDigits[v as int]) == v
    ensures IsHex(UpperDigits[v as int]) && HexNibble(UpperDigits[v as int]) == v
  {
    var n := v as int;
    if n < 10 {
      assert LowerDigits[n] as int == '0' as int + n;
      assert UpperDigits[n] as int == '0' as int + n;
    } else {
      assert LowerDigits[n] as int == 'a' as int + n - 10;
      assert UpperDigits[n] as int == 'A' as int + n - 10;
    }
  }

  /** An octet from its high and low digits: `(HexNibble(hi) << 4) | HexNibble(lo)`. */
  function PairValue(hi: char, lo: char): (b: bv8)
    ensures b >> 4 == HexNibble(hi) && b & 0x0F == HexNibble(lo)
  {
    NibbleJoin(HexNibble(hi), HexNibble(lo));
    (HexNibble(hi) << 4) | HexNibble(lo)
  }

  lemma NibbleJoin(h: bv8, l: bv8)
    requires h < 16 && l < 16
    ensures ((h << 4) | l) >> 4 == h && ((h << 4) | l) & 0x0F == l
  {
  }

  /** The octets a string of hexadecimal digit pairs spells. */
  function DecodeHex(s: seq<char>): (bytes: seq<bv8>)
    requires |s| % 2 == 0
    ensures |bytes| == |s| / 2
  {
    seq(|s| / 2, i requires 0 <= i < |s| / 2 => PairValue(s[2 * i], s[2 * i + 1]))
  }

  /** Every character of `s` is a hexadecimal digit. */
  predicate AllHex(s: seq<char>)
  {
    forall i :: 0 <= i < |s| ==> IsHex(s[i])
  }

  /** The lower-case two-digit spelling of each octet, high digit first. */
  function EncodeHex(bytes: seq<bv8>): (s: seq<char>)
    ensures |s| == 2 * |bytes|
  {
    seq(2 * |bytes|, i requires 0 <= i < 2 * |bytes| =>
      if i % 2 == 0 then LowerDigits[High(bytes[i / 2])] else LowerDigits[Low(bytes[i / 2])])
  }

  /** The high and low four bits of an octet. */
  function High(b: bv8): (v: nat)
    ensures v < 16
  {
    (b >> 4) as int
  }

  function Low(b: bv8): (v: nat)
    ensures v < 16
  {
    (b & 0x0F) as int
  }

  /** Decoding the digits of some octets gives the octets back. */
  lemma DecodeEncodeHex(bytes: seq<bv8>)
    ensures AllHex(EncodeHex(bytes)) && DecodeHex(EncodeHex(bytes)) == bytes
  {
    var s := EncodeHex(bytes);
    forall i | 0 <= i < |bytes|
      ensures PairOk(s, i) && DecodeHex(s)[i] == bytes[i]
    {
      EncodedPair(bytes, i);
    }
    AllPairsIsAllHex(s, |bytes|);
    assert s[..2 * |bytes|] == s;
  }

  /** The two digits of octet `i` are hexadecimal and decode to it. */
  lemma EncodedPair(bytes: seq<bv8>, i: nat)
    requires i < |bytes|
    ensures var s := EncodeHex(bytes);
      IsHex(s[2 * i]) && IsHex(s[2 * i + 1]) && PairValue(s[2 * i], s[2 * i + 1]) == bytes[i]
  {
    var s := EncodeHex(bytes);
    var b := bytes[i];
    assert s[2 * i] == LowerDigits[High(b)] && s[2 * i + 1] == LowerDigits[Low(b)];
    HexNibbleOfDigit(b >> 4);
    HexNibbleOfDigit(b & 0x0F);
    NibblesDetermine(PairValue(s[2 * i], s[2 * i + 1]), b);
  }

  lemma NibblesDetermine(x: bv8, y: bv8)
    requires x >> 4 == y >> 4 && x & 0x0F == y & 0x0F
    ensures x == y
  {
  }

  /** Digit pair `i` of `s` is two hexadecimal digits. */
  predicate PairOk(s: seq<char>, i: nat)
    requires 2 * i + 1 < |s|
  {
    IsHex(s[2 * i]) && IsHex(s[2 * i + 1])
  }

  /** The first `n` digit pairs of `s` are all hexadecimal. */
  predicate AllPairs(s: seq<char>, n: nat)
    requires 2 * n <= |s|
  {
    forall i :: 0 <= i < n ==> PairOk(s, i)
  }

  lemma AllPairsIsAllHex(s: seq<char>, n: nat)
    requires 2 * n <= |s|
    ensures AllPairs(s, n) <==> AllHex(s[..2 * n])
  {
    if AllPairs(s, n) {
      forall j | 0 <= j < 2 * n
        ensures IsHex(s[..2 * n][j])
      {
        assert PairOk(s, j / 2);
      }
    }
    if AllHex(s[..2 * n]) {
      forall i | 0 <= i < n
        ensures PairOk(s, i)
      {
        assert s[..2 * n][2 * i] == s[2 * i] && s[..2 * n][2 * i + 1] == s[2 * i + 1];
      }
    }
  }

  /**
   * The number of leading digit pairs of `s`, out of `n`, that are both
   * hexadecimal: where `ReadOctects` stops.
   */
  function HexPairs(s: seq<char>, n: nat): (k: nat)
    requires 2 * n <= |s|
    ensures k <= n && AllPairs(s, k)
    ensures k < n ==> !PairOk(s, k)
    decreases n
  {
    if n == 0 then 0
    else
      var k := HexPairs(s, n - 1);
      if k == n - 1 && PairOk(s, n - 1) then n else k
  }

  /** `b` laid over `a` from index `at` on; the rest of `a` as it was. */
  function Splice(a: seq<bv8>, at: nat, b: seq<bv8>): (r: seq<bv8>)
    requires at + |b| <= |a|
    ensures |r| == |a|
  {
    a[..at] + b + a[at + |b|..]
  }

  /**
   * `ReadOctects`: decode `n` digit pairs of `str` into `dst` from `at`
   * on. It fails exactly when some character of the pairs is not a
   * hexadecimal digit; the pairs before the first bad one are written
   * all the same, and nothing else in `dst` changes.
   */
  method ReadOctets(str: seq<char>, n: nat, dst: array<bv8>, at: nat) returns (ok: bool)
    requires 2 * n <= |str| && at + n <= dst.Length
    modifies dst
    ensures ok <==> AllPairs(str, n)
    ensures dst[..] == Splice(old(dst[..]), at, DecodeHex(str[..2 * HexPairs(str, n)]))
  {
    var i := 0;
    while i < n
      invariant 0 <= i <= n && AllPairs(str, i)
      invariant forall j :: at <= j < at + i ==> dst[j] == PairValue(str[2 * (j - at)], str[2 * (j - at) + 1])
      invariant forall j :: 0 <= j < dst.Length && !(at <= j < at + i) ==> dst[j] == old(dst[j])
    {
      var c0 := str[i * 2];
      var c1 := str[i * 2 + 1];
      if !IsHex(c0) || !IsHex(c1) {
        HexPairsStops(str, n, i);
        WrittenIsSplice(str, dst[..], old(dst[..]), at, i);
        return false;
      }
      dst[at + i] := PairValue(c0, c1);
      i := i + 1;
    }
    HexPairsAll(str, n);
    WrittenIsSplice(str, dst[..], old(dst[..]), at, n);
    return true;
  }

  /** Octets holding `k` decoded pairs from `at` on, and old ones elsewhere, are a splice. */
  lemma WrittenIsSplice(str: seq<char>, now: seq<bv8>, before: seq<bv8>, at: nat, k: nat)
    requires 2 * k <= |str| && at + k <= |before| == |now|
    requires forall j :: at <= j < at + k ==> now[j] == PairValue(str[2 * (j - at)], str[2 * (j - at) + 1])
    requires forall j :: 0 <= j < |now| && !(at <= j < at + k) ==> now[j] == before[j]
    ensures now == Splice(before, at, DecodeHex(str[..2 * k]))
  {
    var d := DecodeHex(str[..2 * k]);
    forall j | at <= j < at + k
      ensures now[j] == d[j - at]
    {
      assert str[..2 * k][2 * (j - at)] == str[2 * (j - at)];
      assert str[..2 * k][2 * (j - at) + 1] == str[2 * (j - at) + 1];
    }
  }

  /** Where the first bad pair is, `HexPairs` stops. */
  lemma {:induction false} HexPairsStops(s: seq<char>, n: nat, i: nat)
    requires 2 * n <= |s| && i < n && AllPairs(s, i) && !PairOk(s, i)
    ensures HexPairs(s, n) == i && !AllPairs(s, n)
    decreases n
  {
    if n - 1 > i {
      HexPairsStops(s, n - 1, i);
    }
  }

  lemma {:induction false} HexPairsAll(s: seq<char>, n: nat)
    requires 2 * n <= |s| && AllPairs(s, n)
    ensures HexPairs(s, n) == n
    decreases n
  {
    if n > 0 {
      HexPairsAll(s, n - 1);
    }
  }

  /** The characters of the 8-4-4-4-12 form that hold digits, in order. */
  function Digits(h: seq<char>): (d: seq<char>)
    requires |h| >= 36
    ensures |d| == 32
  {
    h[0..8] + h[9..13] + h[14..18] + h[19..23] + h[24..36]
  }

  /** The 8-4-4-4-12 form: hexadecimal digits with dashes at 8, 13, 18 and 23. */
  predicate WellFormed(h: seq<char>)
    requires |h| >= 36
  {
    AllHex(Digits(h)) && h[8] == '-' && h[13] == '-' && h[18] == '-' && h[23] == '-'
  }

  lemma AllHexConcat(a: seq<char>, b: seq<char>)
    ensures AllHex(a + b) <==> AllHex(a) && AllHex(b)
  {
    if AllHex(a) && AllHex(b) {
      forall i | 0 <= i < |a + b|
        ensures IsHex((a + b)[i])
      {
        if i >= |a| { assert (a + b)[i] == b[i - |a|]; }
      }
    }
    if AllHex(a + b) {
      forall i | 0 <= i < |a|
        ensures IsHex(a[i])
      {
        assert (a + b)[i] == a[i];
      }
      forall i | 0 <= i < |b|
        ensures IsHex(b[i])
      {
        assert (a + b)[|a| + i] == b[i];
      }
    }
  }

  /** `n` pairs read from `k` on are the digits `h[k..k + 2 * n]`. */
  lemma GroupIsSlice(h: seq<char>, k: nat, n: nat)
    requires k + 2 * n <= |h|
    ensures AllPairs(h[k..], n) <==> AllHex(h[k..k + 2 * n])
    ensures h[k..][..2 * n] == h[k..k + 2 * n]
  {
    assert h[k..][..2 * n] == h[k..k + 2 * n];
    AllPairsIsAllHex(h[k..], n);
  }

  /** The text is well formed exactly when each of its five groups reads and each dash is in place. */
  lemma WellFormedGroups(h: seq<char>)
    requires |h| >= 36
    ensures WellFormed(h) <==>
      AllPairs(h, 4) && h[8] == '-' && AllPairs(h[9..], 2) && h[13] == '-' && AllPairs(h[14..], 2) &&
      h[18] == '-' && AllPairs(h[19..], 2) && h[23] == '-' && AllPairs(h[24..], 6)
  {
    AllHexConcat(h[0..8] + h[9..13] + h[14..18] + h[19..23], h[24..36]);
    AllHexConcat(h[0..8] + h[9..13] + h[14..18], h[19..23]);
    AllHexConcat(h[0..8] + h[9..13], h[14..18]);
    AllHexConcat(h[0..8], h[9..13]);
    GroupIsSlice(h, 0, 4);
    GroupIsSlice(h, 9, 2);
    GroupIsSlice(h, 14, 2);
    GroupIsSlice(h, 19, 2);
    GroupIsSlice(h, 24, 6);
    assert h[0..] == h;
  }

  /**
   * `uuid::of(text)`: the compile-time UUID literal, 36 characters or 38
   * with the first one skipped (the braces themselves are not checked).
   * It reads the five digit groups into a nil UUID and fails (a
   * compile-time error in `uuid.hpp`) at the first bad digit or dash.
   */
  method Of(text: seq<char>) returns (ok: bool, octets: seq<bv8>)
    requires |text| == 36 || |text| == 38
    ensures var h := if |text| == 38 then text[1..] else text;
      ok <==> WellFormed(h)
    ensures var h := if |text| == 38 then text[1..] else text;
      ok ==> octets == DecodeHex(Digits(h))
  {
    var h := if |text| == 38 then text[1..] else text;
    WellFormedGroups(h);
    var tmp := new bv8[16](_ => 0);
    octets := [];
    ghost var s0 := tmp[..];
    ok := ReadOctets(h, 4, tmp, 0);
    if !ok || h[8] != '-' { return false, octets; }
    HexPairsAll(h, 4);
    ghost var s1 := tmp[..];
    ok := ReadOctets(h[9..], 2, tmp, 4);
    if !ok || h[13] != '-' { return false, octets; }
    HexPairsAll(h[9..], 2);
    ghost var s2 := tmp[..];
    ok := ReadOctets(h[14..], 2, tmp, 6);
    if !ok || h[18] != '-' { return false, octets; }
    HexPairsAll(h[14..], 2);
    ghost var s3 := tmp[..];
    ok := ReadOctets(h[19..], 2, tmp, 8);
    if !ok || h[23] != '-' { return false, octets; }
    HexPairsAll(h[19..], 2);
    ghost var s4 := tmp[..];
    ok := ReadOctets(h[24..], 6, tmp, 10);
    if !ok { return; }
    HexPairsAll(h[24..], 6);
    octets := tmp[..];
    GroupsDecode(h, s0, s1, s2, s3, s4, octets);
  }

  /** The five groups spliced in turn into sixteen octets are the octets of the digits. */
  lemma GroupsDecode(h: seq<char>, s0: seq<bv8>, s1: seq<bv8>, s2: seq<bv8>, s3: seq<bv8>, s4: seq<bv8>, s5: seq<bv8>)
    requires |h| >= 36 && |s0| == 16
    requires s1 == Splice(s0, 0, DecodeHex(h[..8]))
    requires s2 == Splice(s1, 4, DecodeHex(h[9..][..4]))
    requires s3 == Splice(s2, 6, DecodeHex(h[14..][..4]))
    requires s4 == Splice(s3, 8, DecodeHex(h[19..][..4]))
    requires s5 == Splice(s4, 10, DecodeHex(h[24..][..12]))
    ensures s5 == DecodeHex(Digits(h))
  {
    assert h[9..][..4] == h[9..13] && h[14..][..4] == h[14..18];
    assert h[19..][..4] == h[19..23] && h[24..][..12] == h[24..36];
    var g1, g2, g3, g4, g5 := DecodeHex(h[0..8]), DecodeHex(h[9..13]), DecodeHex(h[14..18]), DecodeHex(h[19..23]), DecodeHex(h[24..36]);
    assert h[..8] == h[0..8];
    assert s5 == g1 + g2 + g3 + g4 + g5;
    DecodeHexConcat(h[0..8] + h[9..13] + h[14..18] + h[19..23], h[24..36]);
    DecodeHexConcat(h[0..8] + h[9..13] + h[14..18], h[19..23]);
    DecodeHexConcat(h[0..8] + h[9..13], h[14..18]);
    DecodeHexConcat(h[0..8], h[9..13]);
  }

  /** Decoding two strings of whole pairs one after the other. */
  lemma DecodeHexConcat(a: seq<char>, b: seq<char>)
    requires |a| % 2 == 0 && |b| % 2 == 0
    ensures DecodeHex(a + b) == DecodeHex(a) + DecodeHex(b)
  {
    forall i | 0 <= i < |b| / 2
      ensures DecodeHex(a + b)[|a| / 2 + i] == DecodeHex(b)[i]
    {
      assert (a + b)[2 * (|a| / 2 + i)] == b[2 * i];
      assert (a + b)[2 * (|a| / 2 + i) + 1] == b[2 * i + 1];
    }
    forall i | 0 <= i < |a| / 2
      ensures DecodeHex(a + b)[i] == DecodeHex(a)[i]
    {
      assert (a + b)[2 * i] == a[2 * i] && (a + b)[2 * i + 1] == a[2 * i + 1];
    }
  }

  /** Where each digit of the 8-4-4-4-12 form sits in the text. */
  lemma DigitsAt(h: seq<char>)
    requires |h| >= 36
    ensures forall i :: 0 <= i < 8 ==> Digits(h)[i] == h[i]
    ensures forall i :: 8 <= i < 12 ==> Digits(h)[i] == h[i + 1]
    ensures forall i :: 12 <= i < 16 ==> Digits(h)[i] == h[i + 2]
    ensures forall i :: 16 <= i < 20 ==> Digits(h)[i] == h[i + 3]
    ensures forall i :: 20 <= i < 32 ==> Digits(h)[i] == h[i + 4]
  {
  }

  /** `strfuid`: the lower-case 8-4-4-4-12 spelling of sixteen octets. */
  function Format(octets: seq<bv8>): (text: seq<char>)
    requires |octets| == 16
    ensures |text| == 36
  {
    var e := EncodeHex(octets);
    e[..8] + "-" + e[8..12] + "-" + e[12..16] + "-" + e[16..20] + "-" + e[20..]
  }

  /** The digits of the text form of a UUID are the digits of its octets. */
  lemma FormatDigits(octets: seq<bv8>)
    requires |octets| == 16
    ensures Digits(Format(octets)) == EncodeHex(octets)
  {
    var t := Format(octets);
    var e := EncodeHex(octets);
    DigitsAt(t);
    assert forall i :: 0 <= i < 8 ==> t[i] == e[i];
    assert forall i :: 8 <= i < 12 ==> t[i + 1] == e[i];
    assert forall i :: 12 <= i < 16 ==> t[i + 2] == e[i];
    assert forall i :: 16 <= i < 20 ==> t[i + 3] == e[i];
    assert forall i :: 20 <= i < 32 ==> t[i + 4] == e[i];
  }

  /** Parsing the text form of a UUID gives its octets back. */
  lemma ParseFormat(octets: seq<bv8>)
    requires |octets| == 16
    ensures WellFormed(Format(octets)) && DecodeHex(Digits(Format(octets))) == octets
  {
    FormatDigits(octets);
    DecodeEncodeHex(octets);
  }

  /** The variants of section 4.1 of RFC 9562, numbered as `uuid::Variant` numbers them. */
  const Reserved: bv8 := 0x0
  const Dce: bv8 := 0x2
  const Microsoft: bv8 := 0x6
  const Future: bv8 := 0xE

  /**
   * `variant` as written: the top four bits of octet 8 for the reserved
   * and future ranges, 2 for `10xx`, and the top three bits still in place
   * (`0b1100`) for the Microsoft range `110x`.
   */
  function VariantFieldAsWritten(b: bv8): (v: bv8)
    ensures v < 16
  {
    if b & 0x80 == 0 then b >> 4
    else if b & 0xC0 == 0x80 then (b & 0xC0) >> 6
    else if b & 0xE0 == 0xC0 then (b & 0xE0) >> 4
    else b >> 4
  }

  /**
   * As written, `variant` answers `eDCE` for an octet of the reserved range
   * (`0x25`) and never answers `eMicrosoft` for a Microsoft UUID (`0xC0`).
   */
  lemma VariantFieldAsWrittenMisreads()
    ensures VariantFieldAsWritten(0x25) == Dce && 0x25 & 0xC0 != 0x80 as bv8
    ensures VariantFieldAsWritten(0xC0) == 0xC && 0xC0 & 0xE0 == 0xC0 as bv8
    ensures forall b: bv8 :: VariantFieldAsWritten(b) != Microsoft || b & 0xE0 != 0xC0
  {
  }

  /** `variant`, corrected: the `uuid::Variant` whose leading bits octet 8 starts with. */
  function VariantField(b: bv8): (v: bv8)
    ensures v == Reserved <==> b & 0x80 == 0
    ensures v == Dce <==> b & 0xC0 == 0x80
    ensures v == Microsoft <==> b & 0xE0 == 0xC0
    ensures v == Future <==> b & 0xE0 == 0xE0
  {
    if b & 0x80 == 0 then Reserved
    else if b & 0xC0 == 0x80 then Dce
    else if b & 0xE0 == 0xC0 then Microsoft
    else Future
  }

  /**
   * `setVariant` as written: octet 8 masked with `(var << 6) * 2 + 1`
   * before the variant is or-ed in, which keeps bit 0 (and bit 7 for
   * variant 1) instead of the low six bits.
   */
  function SetVariantFieldAsWritten(b: bv8, v: bv8): (r: bv8)
    ensures r & 0x3E == 0
  {
    (b & ((v << 6) * 2 + 1)) | (v << 6)
  }

  /** Setting the RFC 9562 variant on an all-ones octet clears five of its six payload bits. */
  lemma SetVariantFieldAsWrittenDropsBits()
    ensures SetVariantFieldAsWritten(0xFF, Dce) == 0x81
    ensures SetVariantField(0xFF, Dce) == 0xBF
  {
  }

  /** `setVariant`, corrected as `v7` does it: the top two bits become `v`, the low six are kept. */
  function SetVariantField(b: bv8, v: bv8): (r: bv8)
    ensures r >> 6 == v & 3
    ensures r & 0x3F == b & 0x3F
  {
    (b & 0x3F) | (v << 6)
  }

  /** The two-bit variant `Dce` set into an octet reads back as `Dce`. */
  lemma SetDceReadsDce(b: bv8)
    ensures VariantField(SetVariantField(b, Dce)) == Dce
  {
    var r := SetVariantField(b, Dce);
    assert r & 0xC0 == 0x80 by { TopBits(r); }
  }

  lemma TopBits(r: bv8)
    requires r >> 6 == 2
    ensures r & 0xC0 == 0x80
  {
  }

  /** The version field: the top four bits of octet 6. */
  function VersionField(b: bv8): (v: bv8)
    ensures v < 16
  {
    (b & 0xF0) >> 4
  }

  /** `setVersion` on octet 6: the low four bits of `v` on top, the low four bits of `b` kept. */
  function SetVersionField(b: bv8, v: bv8): (r: bv8)
    ensures VersionField(r) == v & 0x0F
    ensures r & 0x0F == b & 0x0F
  {
    (b & 0x0F) | (v << 4)
  }

  /** `std::hash<uuid>`: `hash * 31 + byte` over the octets, wrapping at 2^64 like `size_t`. */
  function HashOf(bytes: seq<bv8>): (h: nat)
    ensures h < 0x1_0000_0000_0000_0000
  {
    if bytes == [] then 0
    else (HashOf(bytes[..|bytes| - 1]) * 31 + bytes[|bytes| - 1] as nat) % 0x1_0000_0000_0000_0000
  }

  /** `uuid`: sixteen octets, which `setVersion` and `setVariant` update in place. */
  class Uuid {
    var octets: seq<bv8>

    ghost predicate Valid()
      reads this
    {
      |octets| == 16
    }

    /** `nil`: every octet 0x00. */
    constructor Nil()
      ensures Valid() && forall i :: 0 <= i < 16 ==> octets[i] == 0x00
    {
      octets := seq(16, _ => 0x00);
    }

    /** `max`: every octet 0xFF. */
    constructor Max()
      ensures Valid() && forall i :: 0 <= i < 16 ==> octets[i] == 0xFF
    {
      octets := seq(16, _ => 0xFF);
    }

    /** `version`. */
    function Version(): (v: bv8)
      reads this
      requires Valid()
      ensures v < 16
    {
      VersionField(octets[6])
    }

    /** `setVersion`: only octet 6 changes, and `version` reads `version & 0x0F` back. */
    method SetVersion(version: bv8)
      requires Valid()
      modifies this
      ensures Valid() && octets == old(octets)[6 := SetVersionField(old(octets[6]), version)]
      ensures Version() == version & 0x0F
      ensures octets[6] & 0x0F == old(octets[6]) & 0x0F
    {
      octets := octets[6 := SetVersionField(octets[6], version)];
    }

    /** `variant`, corrected; `VariantFieldAsWritten` is `uuid.hpp`'s reading. */
    function Variant(): (v: bv8)
      reads this
      requires Valid()
      ensures v in {Reserved, Dce, Microsoft, Future}
    {
      VariantField(octets[8])
    }

    /** `setVariant`, corrected: only octet 8 changes, its top two bits become `v`. */
    method SetVariant(v: bv8)
      requires Valid()
      modifies this
      ensures Valid() && octets == old(octets)[8 := SetVariantField(old(octets[8]), v)]
      ensures octets[8] >> 6 == v & 3 && octets[8] & 0x3F == old(octets[8]) & 0x3F
      ensures v == Dce ==> Variant() == Dce
    {
      if v == Dce {
        SetDceReadsDce(octets[8]);
      }
      octets := octets[8 := SetVariantField(octets[8], v)];
    }

    /** `operator==`: `memcmp` over the sixteen octets. */
    predicate Equals(other: Uuid)
      reads this, other
      requires Valid() && other.Valid()
      ensures Equals(other) <==> forall i :: 0 <= i < 16 ==> octets[i] == other.octets[i]
    {
      octets == other.octets
    }

    /** `std::hash<uuid>`, folding the octets in order. */
    method Hash() returns (h: nat)
      requires Valid()
      ensures h == HashOf(octets)
    {
      h := 0;
      var i := 0;
      while i < 16
        invariant 0 <= i <= 16 && h == HashOf(octets[..i])
      {
        assert octets[..i + 1][..i] == octets[..i];
        h := (h * 31 + octets[i] as nat) % 0x1_0000_0000_0000_0000;
        i := i + 1;
      }
      assert octets[..16] == octets;
    }
  }
}
