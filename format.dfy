/**
 * Integer formatting (util/format.hpp): `FormatInt` writes the digits of
 * an integer backwards from the end of a character buffer, pads them to
 * a width with a fill character, puts a minus sign in front of a
 * negative number and returns the tail of the buffer it wrote; the `Hex`
 * formatter puts `0x` in front of the base-16 form.
 *
 * Integers are unbounded here; the width of the formatted integer type
 * appears only in `MagnitudeAsWritten`, where the conversion of a
 * negative number to its unsigned type wraps.
 */
module Formats {
  import opened Util

  /** `kHex`: the digit characters, upper-case above 9. */
  const HexDigits: string := "0123456789ABCDEF"

  /** The value of a digit character of `HexDigits`; 0 for any other. */
  function DigitValue(c: char): (d: nat)
    ensures d < 16
  {
    if '0' <= c <= '9' then c as int - '0' as int
    else if 'A' <= c <= 'F' then c as int - 'A' as int + 10
    else 0
  }

  lemma DigitValueOf(d: nat)
    requires d < 16
    ensures DigitValue(HexDigits[d]) == d
  {
    if d < 10 {
      assert HexDigits[d] as int == '0' as int + d;
    } else {
      assert HexDigits[d] as int == 'A' as int + d - 10;
    }
  }

  /** The digits of `v` in `base`, most significant first, without leading zeros; "0" for 0. */
  function DigitsOf(v: nat, base: nat): (s: string)
    requires 2 <= base <= 16
    ensures 1 <= |s|
    ensures v > 0 ==> s[0] != '0'
    decreases v
  {
    if v < base then [HexDigits[v]]
    else
      DivStep(v, base);
      DigitsOf(v / base, base) + [HexDigits[v % base]]
  }

  /** The number a string of digits in `base` spells, most significant first. */
  function ValueOf(s: string, base: nat): nat
    decreases |s|
  {
    if s == [] then 0 else ValueOf(s[..|s| - 1], base) * base + DigitValue(s[|s| - 1])
  }

  /** Reading the digits of `v` back gives `v`. */
  lemma {:induction false} ValueOfDigits(v: nat, base: nat)
    requires 2 <= base <= 16
    ensures ValueOf(DigitsOf(v, base), base) == v
    decreases v
  {
    var s := DigitsOf(v, base);
    if v < base {
      DigitValueOf(v);
      assert s[..0] == [];
    } else {
      var q, d := v / base, v % base;
      DivStep(v, base);
      ValueOfDigits(q, base);
      DigitValueOf(d);
      assert s == DigitsOf(q, base) + [HexDigits[d]];
      assert s[..|s| - 1] == DigitsOf(q, base);
    }
  }

  lemma DivStep(v: nat, base: nat)
    requires base >= 2 && v > 0
    ensures v == (v / base) * base + v % base && 0 <= v / base < v && v % base < base
    ensures v >= base ==> v / base > 0
  {
  }

  /** Peeling the last digit off `v`. */
  lemma DigitsStep(v: nat, base: nat)
    requires 2 <= base <= 16 && v > 0
    ensures 0 <= v / base < v && v % base < base
    ensures DigitsOf(v, base) == (if v / base > 0 then DigitsOf(v / base, base) else []) + [HexDigits[v % base]]
  {
    DivStep(v, base);
    if v < base {
      assert v / base == 0 && v % base == v by { DivModUnique(v, base, 0, v); }
    }
  }

  /** `n` copies of `c`. */
  function Repeat(c: char, n: nat): (s: string)
    ensures |s| == n && forall i :: 0 <= i < n ==> s[i] == c
  {
    seq(n, _ => c)
  }

  /**
   * What `FormatInt` writes for a number of magnitude `magnitude`: a
   * minus sign when negative, then the fill character up to `width`
   * characters in all (when a fill is given), then the digits.
   */
  function Render(magnitude: nat, negative: bool, base: nat, width: int, fill: char): string
    requires 2 <= base <= 16
  {
    Signed(negative, Padded(DigitsOf(magnitude, base), if negative then width - 1 else width, fill))
  }

  /** `digits` with `fill` in front up to `width` characters, when a fill is given. */
  function Padded(digits: string, width: int, fill: char): string
  {
    if fill != '\0' then Repeat(fill, Max(|digits|, width) - |digits|) + digits else digits
  }

  /** `s` with a minus sign in front when negative. */
  function Signed(negative: bool, s: string): string
  {
    if negative then "-" + s else s
  }

  /**
   * The formatted number is `max(digits, width)` characters long with a
   * fill and the digits alone without one, plus the sign; it ends with
   * the digits, starts with `-` exactly when negative (unless the fill
   * character is itself `-`), and is filled in between.
   */
  lemma RenderShape(magnitude: nat, negative: bool, base: nat, width: int, fill: char)
    requires 2 <= base <= 16
    ensures var r := Render(magnitude, negative, base, width, fill);
      var digits := DigitsOf(magnitude, base);
      var w := if negative then width - 1 else width;
      var sign := if negative then 1 else 0;
      |r| == sign + (if fill != '\0' then Max(|digits|, w) else |digits|) &&
      r[|r| - |digits|..] == digits &&
      (negative ==> r[0] == '-') &&
      (!negative && fill != '-' && magnitude > 0 ==> r[0] != '-') &&
      forall i :: sign <= i < |r| - |digits| ==> r[i] == fill
  {
    var digits := DigitsOf(magnitude, base);
    var w := if negative then width - 1 else width;
    var p := Padded(digits, w, fill);
    PaddedShape(digits, w, fill);
    SignedShape(negative, p);
    DigitsNoSign(magnitude, base);
  }

  lemma PaddedShape(digits: string, width: int, fill: char)
    ensures var p := Padded(digits, width, fill);
      |p| == (if fill != '\0' then Max(|digits|, width) else |digits|) &&
      |digits| <= |p| && p[|p| - |digits|..] == digits &&
      forall i :: 0 <= i < |p| - |digits| ==> p[i] == fill
  {
  }

  lemma SignedShape(negative: bool, s: string)
    ensures var r := Signed(negative, s);
      var sign := if negative then 1 else 0;
      |r| == sign + |s| && r[sign..] == s && (negative ==> r[0] == '-') && (!negative ==> r == s)
  {
  }

  /** No digit is a minus sign. */
  lemma DigitsNoSign(v: nat, base: nat)
    requires 2 <= base <= 16
    ensures forall i :: 0 <= i < |DigitsOf(v, base)| ==> DigitsOf(v, base)[i] != '-'
    decreases v
  {
    if v >= base {
      DigitsNoSign(v / base, base);
    }
  }

  /** The magnitude of a number, as the corrected `FormatInt` takes it. */
  function Magnitude(input: int): (m: nat)
    ensures m == input || m == -input
  {
    if input < 0 then -input else input
  }

  /**
   * The magnitude `FormatInt` takes as written: a negative number
   * converted to its unsigned type, which holds `range` values.
   */
  function MagnitudeAsWritten(input: int, range: nat): nat
    requires range > 0
  {
    if input < 0 then input % range else input
  }

  /**
   * As written, a negative number in range is printed as the unsigned
   * value it converts to: -1 as an 8-bit integer comes out as `-FF`.
   */
  lemma FormatIntAsWrittenMisprintsNegative(input: int, range: nat)
    requires 0 < -input < range
    ensures MagnitudeAsWritten(input, range) == range + input
    ensures MagnitudeAsWritten(input, range) != Magnitude(input) || 2 * -input == range
  {
    DivModUnique(range + input, range, 0, range + input);
  }

  lemma FormatIntAsWrittenMinusOne()
    ensures Render(MagnitudeAsWritten(-1, 0x100), true, 16, 0, '\0') == "-FF"
    ensures Render(Magnitude(-1), true, 16, 0, '\0') == "-1"
  {
    assert DigitsOf(255, 16) == DigitsOf(15, 16) + [HexDigits[15]];
  }

  /**
   * `FormatInt`, corrected to take the magnitude of a negative number:
   * the formatted number fills the tail of `buffer`, from `start` on, and
   * nothing before `start` changes. The buffer must have room for it.
   * `format.hpp`'s write pointer is `start - 1` here.
   */
  method FormatInt(buffer: array<char>, input: int, base: nat, width: int, fill: char) returns (start: nat)
    requires 2 <= base <= 16
    requires |Render(Magnitude(input), input < 0, base, width, fill)| <= buffer.Length
    modifies buffer
    ensures start <= buffer.Length
    ensures buffer[..] == old(buffer[..])[..start] + Render(Magnitude(input), input < 0, base, width, fill)
  {
    var negative := input < 0;
    ghost var b0 := buffer[..];
    ghost var digits := DigitsOf(Magnitude(input), base);
    var w := if negative then width - 1 else width;
    start := WriteDigits(buffer, input, base);
    if fill != '\0' {
      ghost var b1, s1 := buffer[..], start;
      start := WriteFill(buffer, start, w, fill);
      PaddedTail(b0, b1, buffer[..], digits, s1, start, fill);
    }
    assert buffer[..] == b0[..start] + Padded(digits, w, fill);
    if negative {
      ghost var b2 := buffer[..];
      start := start - 1;
      buffer[start] := '-';
      SignedTail(b0, b2, buffer[..], Padded(digits, w, fill), start + 1);
    }
  }

  /** The padding written in front of the tail written so far. */
  lemma PaddedTail(b0: seq<char>, b1: seq<char>, b2: seq<char>, tail: string, s1: nat, start: nat, fill: char)
    requires start <= s1 <= |b0| == |b1| && b1 == b0[..s1] + tail
    requires b2 == b1[..start] + Repeat(fill, s1 - start) + b1[s1..]
    ensures b2 == b0[..start] + (Repeat(fill, s1 - start) + tail)
  {
    assert b1[s1..] == tail;
    assert b1[..start] == b0[..start];
  }

  /** The sign written just before the tail written so far. */
  lemma SignedTail(b0: seq<char>, b2: seq<char>, b3: seq<char>, tail: string, s2: nat)
    requires 0 < s2 <= |b0| && b2 == b0[..s2] + tail && b3 == b2[s2 - 1 := '-']
    ensures b3 == b0[..s2 - 1] + ("-" + tail)
  {
    assert b3 == b0[..s2 - 1] + ['-'] + tail;
  }

  /** The digits of `input`'s magnitude, written backwards from the end of `buffer`. */
  method WriteDigits(buffer: array<char>, input: int, base: nat) returns (start: nat)
    requires 2 <= base <= 16
    requires |DigitsOf(Magnitude(input), base)| <= buffer.Length
    modifies buffer
    ensures start == buffer.Length - |DigitsOf(Magnitude(input), base)|
    ensures buffer[..] == old(buffer[..])[..start] + DigitsOf(Magnitude(input), base)
  {
    start := buffer.Length;
    if input != 0 {
      var value: nat := if input < 0 then -input else input;
      start := WriteMagnitude(buffer, value, base);
    } else {
      ghost var b0 := buffer[..];
      start := start - 1;
      buffer[start] := '0';
      Prepended(b0, b0, buffer[..], start, '0');
    }
  }

  /** The digits of a positive `value`, written backwards from the end of `buffer`. */
  method WriteMagnitude(buffer: array<char>, value0: nat, base: nat) returns (start: nat)
    requires 2 <= base <= 16 && value0 > 0
    requires |DigitsOf(value0, base)| <= buffer.Length
    modifies buffer
    ensures start == buffer.Length - |DigitsOf(value0, base)|
    ensures buffer[..] == old(buffer[..])[..start] + DigitsOf(value0, base)
  {
    ghost var b0 := buffer[..];
    ghost var tail: seq<char> := [];
    start := buffer.Length;
    var value: nat := value0;
    while value != 0
      invariant start == buffer.Length - |tail|
      invariant DigitsOf(value0, base) == (if value > 0 then DigitsOf(value, base) else []) + tail
      invariant buffer[..] == b0[..start] + tail
    {
      TailGrows(value0, value, base, tail);
      var c := HexDigits[value % base];
      ghost var before := buffer[..];
      start := start - 1;
      buffer[start] := c;
      WrittenBefore(b0, before, buffer[..], start, c, tail);
      tail := [c] + tail;
      value := value / base;
    }
    assert DigitsOf(value0, base) == [] + tail == tail;
  }

  /** The digits still to write lose their last digit to the front of the written tail. */
  lemma TailGrows(value0: nat, value: nat, base: nat, tail: seq<char>)
    requires 2 <= base <= 16 && value > 0
    requires DigitsOf(value0, base) == DigitsOf(value, base) + tail
    ensures 0 <= value / base < value && |tail| < |DigitsOf(value0, base)|
    ensures DigitsOf(value0, base) ==
      (if value / base > 0 then DigitsOf(value / base, base) else []) + ([HexDigits[value % base]] + tail)
  {
    DigitsStep(value, base);
    var rest := if value / base > 0 then DigitsOf(value / base, base) else [];
    var c := HexDigits[value % base];
    assert DigitsOf(value0, base) == (rest + [c]) + tail;
    Regroup(rest, [c], tail);
  }

  lemma Regroup(a: seq<char>, b: seq<char>, c: seq<char>)
    ensures (a + b) + c == a + (b + c)
  {
  }

  /** Writing `c` just before the tail written so far extends that tail by `c`. */
  lemma WrittenBefore(b0: seq<char>, before: seq<char>, after: seq<char>, start: nat, c: char, tail: seq<char>)
    requires start < |b0| && before == b0[..start + 1] + tail && after == before[start := c]
    ensures after == b0[..start] + ([c] + tail)
  {
    assert b0[..start + 1] == b0[..start] + [b0[start]];
  }

  /** Writing `c` just before the written tail of a buffer extends the tail by `c`. */
  lemma Prepended(b0: seq<char>, before: seq<char>, after: seq<char>, start: nat, c: char)
    requires start < |b0| == |before| && before == b0[..start + 1] + before[start + 1..]
    requires after == before[start := c]
    ensures after[start..] == [c] + before[start + 1..]
    ensures after == b0[..start] + after[start..]
  {
  }

  /** `fill` written before the written tail from `start0` until `width` characters are filled. */
  method WriteFill(buffer: array<char>, start0: nat, width: int, fill: char) returns (start: nat)
    requires start0 <= buffer.Length && width <= buffer.Length
    modifies buffer
    ensures start == buffer.Length - Max(buffer.Length - start0, width)
    ensures buffer[..] == old(buffer[..])[..start] + Repeat(fill, start0 - start) + old(buffer[..])[start0..]
  {
    ghost var b0 := buffer[..];
    start := start0;
    var remaining := width - (buffer.Length - start);
    while remaining > 0
      invariant start <= start0
      invariant remaining == width - (buffer.Length - start)
      invariant start < start0 ==> remaining >= 0
      invariant buffer[..] == b0[..start] + Repeat(fill, start0 - start) + b0[start0..]
    {
      ghost var before := buffer[..];
      start := start - 1;
      buffer[start] := fill;
      Filled(b0, before, buffer[..], start, start0, fill);
      remaining := remaining - 1;
    }
  }

  /** One more fill character in front of the padding. */
  lemma Filled(b0: seq<char>, before: seq<char>, after: seq<char>, start: nat, start0: nat, c: char)
    requires start < start0 <= |b0|
    requires before == b0[..start + 1] + Repeat(c, start0 - start - 1) + b0[start0..]
    requires after == before[start := c]
    ensures after == b0[..start] + Repeat(c, start0 - start) + b0[start0..]
  {
    assert Repeat(c, start0 - start) == [c] + Repeat(c, start0 - start - 1);
  }

  /** `FormatInt` of zero, unpadded, is "0". */
  lemma RenderZero(base: nat)
    requires 2 <= base <= 16
    ensures Render(0, false, base, 0, '\0') == "0"
  {
  }

  /** `s` with `0x` in front when `prefix` is set. */
  function Prefixed(prefix: bool, s: string): string
  {
    if prefix then "0x" + s else s
  }

  /**
   * `Format<Hex<T>>::toString`: the base-16 form of `value`, formatted
   * into a scratch buffer of `capacity` characters (the most hex digits
   * of the type), then copied into `buffer` behind `0x` when `prefix` is
   * set. The text is `buffer[..len]`; the rest of `buffer` is untouched.
   */
  method HexToString(buffer: array<char>, value: int, width: int, fill: char, prefix: bool, capacity: nat) returns (len: nat)
    requires |Render(Magnitude(value), value < 0, 16, width, fill)| <= capacity
    requires capacity + 2 <= buffer.Length
    modifies buffer
    ensures len <= buffer.Length
    ensures buffer[..len] == Prefixed(prefix, Render(Magnitude(value), value < 0, 16, width, fill))
    ensures buffer[len..] == old(buffer[len..])
  {
    ghost var b0 := buffer[..];
    var temp := new char[capacity];
    var start := FormatInt(temp, value, 16, width, fill);
    var offset := 0;
    if prefix {
      buffer[0] := '0';
      buffer[1] := 'x';
      offset := 2;
    }
    ghost var b1 := buffer[..];
    assert b1[..offset] == Prefixed(prefix, []) && b1[offset..] == b0[offset..];
    CopyInto(buffer, offset, temp, start);
    len := offset + (capacity - start);
    HeadAndText(b0, b1, buffer[..], Prefixed(prefix, []), temp[start..], offset);
    assert Prefixed(prefix, []) + temp[start..] == Prefixed(prefix, temp[start..]);
  }

  /** `std::copy` of `src[from..]` to `dst` at `at`; the rest of `dst` is kept. */
  method CopyInto(dst: array<char>, at: nat, src: array<char>, from: nat)
    requires src != dst && from <= src.Length && at + (src.Length - from) <= dst.Length
    modifies dst
    ensures dst[..] == old(dst[..])[..at] + src[from..] + old(dst[..])[at + (src.Length - from)..]
  {
    var i := from;
    while i < src.Length
      invariant from <= i <= src.Length
      invariant forall k :: 0 <= k < dst.Length && !(at <= k < at + (i - from)) ==> dst[k] == old(dst[k])
      invariant forall k :: at <= k < at + (i - from) ==> dst[k] == src[from + (k - at)]
    {
      dst[at + (i - from)] := src[i];
      i := i + 1;
    }
  }

  /** The prefix written, then the text copied behind it: the buffer starts with both. */
  lemma HeadAndText(b0: seq<char>, b1: seq<char>, b2: seq<char>, head: string, text: string, offset: nat)
    requires offset == |head| && offset + |text| <= |b0| == |b1|
    requires b1[..offset] == head && b1[offset..] == b0[offset..]
    requires b2 == b1[..offset] + text + b1[offset + |text|..]
    ensures b2[..offset + |text|] == head + text
    ensures b2[offset + |text|..] == b0[offset + |text|..]
  {
    assert b2[..offset + |text|] == b1[..offset] + text;
  }

  /** `present` and `enabled`: the two words of a flag. */
  function Present(present: bool): string
  {
    if present then "Present" else "Not Present"
  }

  function Enabled(enabled: bool): string
  {
    if enabled then "Enabled" else "Disabled"
  }

  /** `Format<bool>::toString`. */
  function BoolName(value: bool): string
  {
    if value then "True" else "False"
  }

  /** Each pair of words tells its two states apart. */
  lemma FlagWordsDistinct(b: bool)
    ensures Present(b) != Present(!b) && Enabled(b) != Enabled(!b) && BoolName(b) != BoolName(!b)
  {
    assert Present(true)[0] != Present(false)[0];
    assert Enabled(true)[0] != Enabled(false)[0];
    assert BoolName(true)[0] != BoolName(false)[0];
  }
}
