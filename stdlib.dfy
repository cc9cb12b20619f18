/**
 * The integer routines of the system library's `<stdlib.h>`
 * (sources/sysapi/src/posix/stdlib.cpp): `abs`, `labs`, `llabs` and the
 * `strtoAny` conversion behind `strtol` and `strtoll`.
 *
 * A C string is modelled as the characters before its terminating NUL; reading
 * at or past the end yields the NUL. Character classes are those of the C
 * locale. An `end` pointer is modelled as an index into the string.
 */
module Stdlib {

  // ---------------------------------------------------------------------
  // Absolute values
  // ---------------------------------------------------------------------

  function Power2(n: nat): (r: int)
    ensures r >= 1
  {
    if n == 0 then 1 else 2 * Power2(n - 1)
  }

  /** A value of a two's complement type of `width` bits (`int` 32, `long` and `long long` 64). */
  predicate InWidth(v: int, width: nat)
    requires width >= 1
  {
    -Power2(width - 1) <= v < Power2(width - 1)
  }

  /**
   * `abs`, `labs` and `llabs`: `v < 0 ? -v : v` in a `width`-bit type. The
   * negation of the most negative value wraps to itself, as the two's
   * complement negate instruction does (the C standard leaves it undefined).
   */
  function Abs(v: int, width: nat): (r: int)
    requires width >= 1 && InWidth(v, width)
    ensures InWidth(r, width)
    ensures r >= 0 <==> v != -Power2(width - 1)
    ensures v != -Power2(width - 1) ==> r == (if v < 0 then -v else v)
    ensures v == -Power2(width - 1) ==> r == v
  {
    if v < 0 then (if -v == Power2(width - 1) then v else -v) else v
  }

  /** `abs(INT_MIN)` is `INT_MIN`: the one input whose result is negative. */
  lemma AbsIntMin()
    ensures Power2(31) == 0x8000_0000 && Abs(-0x8000_0000, 32) == -0x8000_0000
  {
    assert Power2(31) == 0x8000_0000 by {
      assert Power2(8) == 256;
      assert Power2(16) == 0x1_0000;
      assert Power2(24) == 0x100_0000;
    }
  }

  // ---------------------------------------------------------------------
  // Characters
  // ---------------------------------------------------------------------

  /** The character at `i`; the terminating NUL at and past the end. */
  function CharAt(s: string, i: nat): char
  {
    if i < |s| then s[i] else '\0'
  }

  /** `isspace`: space, tab, newline, vertical tab, form feed, carriage return. */
  predicate IsSpace(c: char)
  {
    c == ' ' || '\t' <= c <= '\r'
  }

  predicate IsDigit(c: char)
  {
    '0' <= c <= '9'
  }

  predicate IsAlpha(c: char)
  {
    'a' <= c <= 'z' || 'A' <= c <= 'Z'
  }

  /** The digit a decimal digit or a letter stands for: 0-9, then 10-35 for a-z in either case. */
  function DigitValue(c: char): (r: nat)
    requires IsDigit(c) || IsAlpha(c)
    ensures r < 36
  {
    if IsDigit(c) then c as int - '0' as int
    else if 'a' <= c <= 'z' then c as int - 'a' as int + 10
    else c as int - 'A' as int + 10
  }

  /** `c` continues a numeral in `base`. */
  predicate IsDigitIn(c: char, base: int)
  {
    (IsDigit(c) || IsAlpha(c)) && DigitValue(c) < base
  }

  // ---------------------------------------------------------------------
  // The conversion, as a specification
  // ---------------------------------------------------------------------

  /** The first index at or after `i` whose character is not white space. */
  function SkipSpace(s: string, i: nat): (r: nat)
    ensures i <= r && (i <= |s| ==> r <= |s|)
    ensures forall k :: i <= k < r ==> IsSpace(CharAt(s, k))
    ensures !IsSpace(CharAt(s, r))
    decreases |s| - i
  {
    if IsSpace(CharAt(s, i)) then SkipSpace(s, i + 1) else i
  }

  /** The first index at or after `i` whose character is not a digit of `base`. */
  function DigitsEnd(s: string, i: nat, base: int): (r: nat)
    ensures i <= r && (i <= |s| ==> r <= |s|)
    ensures forall k :: i <= k < r ==> IsDigitIn(CharAt(s, k), base)
    ensures !IsDigitIn(CharAt(s, r), base)
    decreases |s| - i
  {
    if IsDigitIn(CharAt(s, i), base) then DigitsEnd(s, i + 1, base) else i
  }

  /** Every character is a digit of `base`. */
  predicate IsNumeral(digits: string, base: int)
  {
    forall k :: 0 <= k < |digits| ==> IsDigitIn(digits[k], base)
  }

  /** The value of a numeral, most significant digit first. */
  function Numeral(digits: string, base: int): int
    requires IsNumeral(digits, base)
  {
    if |digits| == 0 then 0
    else
      var last := digits[|digits| - 1];
      assert IsDigitIn(last, base);
      NumeralPrefix(digits, base);
      Numeral(digits[..|digits| - 1], base) * base + DigitValue(last)
  }

  lemma NumeralPrefix(digits: string, base: int)
    requires IsNumeral(digits, base) && |digits| > 0
    ensures IsNumeral(digits[..|digits| - 1], base)
  {
    var p := digits[..|digits| - 1];
    forall k | 0 <= k < |p|
      ensures IsDigitIn(p[k], base)
    {
      assert p[k] == digits[k];
    }
  }

  /** The characters `DigitsEnd` passes over form a numeral. */
  lemma DigitsRun(s: string, i: nat, base: int)
    requires i <= |s|
    ensures IsNumeral(s[i..DigitsEnd(s, i, base)], base)
  {
    var e := DigitsEnd(s, i, base);
    forall k | 0 <= k < e - i
      ensures IsDigitIn(s[i..e][k], base)
    {
      assert IsDigitIn(CharAt(s, i + k), base);
    }
  }

  /** The base to convert in, and where the digits start, after an optional sign ending at `j`. */
  datatype Radix = Radix(base: int, start: nat)

  /**
   * Base 0 picks the base from the prefix: "0x" or "0X" is hexadecimal and is
   * skipped, another leading "0" is octal, anything else decimal. A given
   * base is used as it is.
   */
  function BasePrefix(s: string, j: nat, base: int): (r: Radix)
    requires j <= |s|
    ensures r.start <= |s|
    ensures base != 0 ==> r == Radix(base, j)
    ensures base == 0 && CharAt(s, j) == '0' && (CharAt(s, j + 1) == 'x' || CharAt(s, j + 1) == 'X') ==> r == Radix(16, j + 2)
    ensures base == 0 && CharAt(s, j) == '0' && CharAt(s, j + 1) != 'x' && CharAt(s, j + 1) != 'X' ==> r == Radix(8, j)
    ensures base == 0 && CharAt(s, j) != '0' ==> r == Radix(10, j)
  {
    if base == 0 then
      if CharAt(s, j) == '0' then
        if CharAt(s, j + 1) == 'x' || CharAt(s, j + 1) == 'X' then Radix(16, j + 2) else Radix(8, j)
      else Radix(10, j)
    else Radix(base, j)
  }

  /** A result and the index `end` is set to. */
  datatype Conversion = Conversion(value: int, end: nat)

  /** The index after the leading white space and an optional sign. */
  function SignEnd(s: string): (r: nat)
    ensures r <= |s|
  {
    var i := SkipSpace(s, 0);
    if CharAt(s, i) == '-' || CharAt(s, i) == '+' then i + 1 else i
  }

  /** A '-' follows the leading white space. */
  predicate Negative(s: string)
  {
    CharAt(s, SkipSpace(s, 0)) == '-'
  }

  /** `strtoAny` as written, with unbounded arithmetic. */
  function Parse(s: string, base: int): (r: Conversion)
    ensures r.end <= |s|
  {
    var radix := BasePrefix(s, SignEnd(s), base);
    var e := DigitsEnd(s, radix.start, radix.base);
    DigitsRun(s, radix.start, radix.base);
    var v := Numeral(s[radix.start..e], radix.base);
    Conversion(if Negative(s) then -v else v, e)
  }

  /**
   * What the conversion reads: white space, an optional sign, the base
   * prefix, then digits of the base up to `end`, where the first character
   * that is not one stands; the value is the numeral, negated after a '-'.
   */
  lemma ParseReads(s: string, base: int)
    ensures var radix := BasePrefix(s, SignEnd(s), base);
      var r := Parse(s, base);
      && (forall k :: 0 <= k < SkipSpace(s, 0) ==> IsSpace(s[k]))
      && SignEnd(s) <= radix.start <= r.end
      && (forall k :: radix.start <= k < r.end ==> IsDigitIn(s[k], radix.base))
      && !IsDigitIn(CharAt(s, r.end), radix.base)
      && r.value == (if Negative(s) then -1 else 1) * Numeral(s[radix.start..r.end], radix.base)
  {
    var radix := BasePrefix(s, SignEnd(s), base);
    var e := DigitsEnd(s, radix.start, radix.base);
    assert radix.start == SignEnd(s) || radix.start == SignEnd(s) + 2;
    forall k | 0 <= k < SkipSpace(s, 0)
      ensures IsSpace(s[k])
    {
      assert IsSpace(CharAt(s, k));
    }
    forall k | radix.start <= k < e
      ensures IsDigitIn(s[k], radix.base)
    {
      assert IsDigitIn(CharAt(s, k), radix.base);
    }
  }

  // ---------------------------------------------------------------------
  // The conversion loop
  // ---------------------------------------------------------------------

  /** A numeral extended by one digit. */
  lemma NumeralAppend(s: string, start: nat, i: nat, base: int)
    requires start <= i < |s|
    requires IsNumeral(s[start..i], base) && IsDigitIn(s[i], base)
    ensures IsNumeral(s[start..i + 1], base)
    ensures Numeral(s[start..i + 1], base) == Numeral(s[start..i], base) * base + DigitValue(s[i])
  {
    var t := s[start..i + 1];
    assert t[..i - start] == s[start..i];
    forall k | 0 <= k < |t|
      ensures IsDigitIn(t[k], base)
    {
      if k < i - start {
        assert t[k] == s[start..i][k];
      }
    }
  }

  /**
   * `strtoAny<long>` (`strtol`) and `strtoAny<long long>` (`strtoll`): the
   * value and where `*end` is left.
   */
  method Strtol(s: string, base: int) returns (value: int, end: nat)
    ensures Conversion(value, end) == Parse(s, base)
  {
    var i := SkipSpaces(s);
    var negative := false;
    if CharAt(s, i) == '-' {
      negative := true;
      i := i + 1;
    } else if CharAt(s, i) == '+' {
      i := i + 1;
    }

    var b := base;
    if b == 0 {
      if CharAt(s, i) == '0' {
        if CharAt(s, i + 1) == 'x' || CharAt(s, i + 1) == 'X' {
          b := 16;
          i := i + 2;
        } else {
          b := 8;
        }
      } else {
        b := 10;
      }
    }

    assert Radix(b, i) == BasePrefix(s, SignEnd(s), base);
    assert negative == Negative(s);
    var result;
    result, end := ScanDigits(s, i, b);
    value := if negative then -result else result;
  }

  /** The white-space loop of `strtoAny`: the index of the first character that is not white space. */
  method SkipSpaces(s: string) returns (i: nat)
    ensures i == SkipSpace(s, 0)
  {
    i := 0;
    while IsSpace(CharAt(s, i))
      invariant i <= |s| && SkipSpace(s, i) == SkipSpace(s, 0)
      decreases |s| - i
    {
      i := i + 1;
    }
  }

  /** The digit loop of `strtoAny`: accumulates digits of `base` from `start`. */
  method ScanDigits(s: string, start: nat, base: int) returns (result: int, end: nat)
    requires start <= |s|
    ensures end == DigitsEnd(s, start, base)
    ensures IsNumeral(s[start..end], base) && result == Numeral(s[start..end], base)
  {
    var i := start;
    result := 0;
    while true
      invariant start <= i <= |s|
      invariant DigitsEnd(s, i, base) == DigitsEnd(s, start, base)
      invariant IsNumeral(s[start..i], base) && result == Numeral(s[start..i], base)
      decreases |s| - i
    {
      var c := CharAt(s, i);
      var digit;
      if IsDigit(c) {
        digit := c as int - '0' as int;
      } else if IsAlpha(c) {
        digit := (if 'A' <= c <= 'Z' then c as int - 'A' as int + 'a' as int else c as int) - 'a' as int + 10;
      } else {
        break;
      }
      if digit >= base {
        break;
      }
      assert IsDigitIn(c, base) && digit == DigitValue(c);
      NumeralAppend(s, start, i, base);
      result := result * base + digit;
      i := i + 1;
    }
    end := i;
  }

  // ---------------------------------------------------------------------
  // Leading white space and the sign
  // ---------------------------------------------------------------------

  /** Shifting a string right by one character shifts every scan by one. */
  lemma {:induction false} DigitsEndShift(c: char, t: string, i: nat, base: int)
    ensures DigitsEnd([c] + t, i + 1, base) == DigitsEnd(t, i, base) + 1
    decreases |t| - i
  {
    assert CharAt([c] + t, i + 1) == CharAt(t, i);
    if IsDigitIn(CharAt(t, i), base) {
      DigitsEndShift(c, t, i + 1, base);
    }
  }

  lemma {:induction false} SkipSpaceShift(c: char, t: string, i: nat)
    ensures SkipSpace([c] + t, i + 1) == SkipSpace(t, i) + 1
    decreases |t| - i
  {
    assert CharAt([c] + t, i + 1) == CharAt(t, i);
    if IsSpace(CharAt(t, i)) {
      SkipSpaceShift(c, t, i + 1);
    }
  }

  /** Digits read at the same places of `t` and of `[c] + t` have the same value. */
  lemma DigitsShift(c: char, t: string, start: nat, e: nat)
    requires start <= e <= |t|
    ensures ([c] + t)[start + 1..e + 1] == t[start..e]
  {
  }

  /**
   * The conversion of `[c] + t` where `c` is skipped before the digits
   * (white space or a sign, with `t` free of another) is that of `t` moved
   * by one place.
   */
  lemma ParseShift(c: char, t: string, base: int)
    requires SignEnd([c] + t) == SignEnd(t) + 1
    ensures var r := Parse(t, base); var u := Parse([c] + t, base);
      u.end == r.end + 1 && u.value == (if Negative([c] + t) == Negative(t) then r.value else -r.value)
  {
    var s := [c] + t;
    var j := SignEnd(t);
    var radix := BasePrefix(t, j, base);
    BasePrefixShift(c, t, j, base);
    DigitsEndShift(c, t, radix.start, radix.base);
    var e := DigitsEnd(t, radix.start, radix.base);
    DigitsShift(c, t, radix.start, e);
    DigitsRun(t, radix.start, radix.base);
    var v := Numeral(t[radix.start..e], radix.base);
    assert Parse(t, base) == Conversion(if Negative(t) then -v else v, e);
    assert Parse(s, base) == Conversion(if Negative(s) then -v else v, e + 1);
  }

  lemma BasePrefixShift(c: char, t: string, j: nat, base: int)
    requires j <= |t|
    ensures var radix := BasePrefix(t, j, base);
      BasePrefix([c] + t, j + 1, base) == Radix(radix.base, radix.start + 1)
  {
    var s := [c] + t;
    assert CharAt(s, j + 1) == CharAt(t, j) && CharAt(s, j + 2) == CharAt(t, j + 1);
  }

  /** Leading white space only moves `end`: `strtol(" " + t)` reads what `strtol(t)` reads. */
  lemma LeadingSpace(c: char, t: string, base: int)
    requires IsSpace(c)
    ensures Parse([c] + t, base) == Conversion(Parse(t, base).value, Parse(t, base).end + 1)
  {
    var s := [c] + t;
    SkipSpaceShift(c, t, 0);
    assert SkipSpace(s, 0) == SkipSpace(s, 1);
    assert CharAt(s, SkipSpace(s, 0)) == CharAt(t, SkipSpace(t, 0));
    ParseShift(c, t, base);
  }

  /** A '-' negates the value of what follows it. */
  lemma MinusNegates(t: string, base: int)
    requires !IsSpace(CharAt(t, 0)) && CharAt(t, 0) != '-' && CharAt(t, 0) != '+'
    ensures Parse(['-'] + t, base) == Conversion(-Parse(t, base).value, Parse(t, base).end + 1)
  {
    var s := ['-'] + t;
    assert SkipSpace(s, 0) == 0 && SkipSpace(t, 0) == 0;
    assert SignEnd(s) == 1 && SignEnd(t) == 0;
    ParseShift('-', t, base);
    var j := SignEnd(t);
    var radix := BasePrefix(t, j, base);
    DigitsEndShift('-', t, radix.start, radix.base);
    DigitsShift('-', t, radix.start, DigitsEnd(t, radix.start, radix.base));
  }

  // ---------------------------------------------------------------------
  // The conversion ISO C specifies
  // ---------------------------------------------------------------------

  /**
   * `strtol` as section 7.22.1.4 of ISO/IEC 9899:2018 specifies it: a "0x"
   * or "0X" prefix is accepted in base 16 as well as in base 0, but only when
   * a hexadecimal digit follows it; when no digit is read nothing is
   * converted, the value is 0 and `end` is the start of the string.
   */
  function StandardParse(s: string, base: int): (r: Conversion)
    ensures r.end <= |s|
    ensures r.end == 0 || SignEnd(s) < r.end
    ensures r.end == 0 ==> r.value == 0
    ensures r.end != 0 ==> IsDigit(s[r.end - 1]) || IsAlpha(s[r.end - 1])
  {
    var j := SignEnd(s);
    var hex := (base == 0 || base == 16) && CharAt(s, j) == '0'
      && (CharAt(s, j + 1) == 'x' || CharAt(s, j + 1) == 'X') && IsDigitIn(CharAt(s, j + 2), 16);
    var radix :=
      if hex then Radix(16, j + 2)
      else if base == 0 then (if CharAt(s, j) == '0' then Radix(8, j) else Radix(10, j))
      else Radix(base, j);
    var e := DigitsEnd(s, radix.start, radix.base);
    DigitsRun(s, radix.start, radix.base);
    var v := Numeral(s[radix.start..e], radix.base);
    if e == radix.start then Conversion(0, 0)
    else Conversion(if Negative(s) then -v else v, e)
  }

  /**
   * Where a digit is read without a hexadecimal prefix, the conversion as
   * written is the one ISO C specifies.
   */
  lemma StandardAgrees(s: string, base: int)
    requires base != 16 && base != 0
    requires Parse(s, base).end > SignEnd(s)
    ensures StandardParse(s, base) == Parse(s, base)
  {
  }

  /** "-" reads no digit: as written `end` is left after the sign, not at the start. */
  lemma SignOnlyAsWritten()
    ensures Parse("-", 10) == Conversion(0, 1)
    ensures StandardParse("-", 10) == Conversion(0, 0)
  {
    assert SkipSpace("-", 0) == 0;
    assert SignEnd("-") == 1;
    assert DigitsEnd("-", 1, 10) == 1;
    assert "-"[1..1] == [];
  }

  /** "0x1A" in base 16 reads as written only the "0"; ISO C reads 26. */
  lemma HexPrefixAsWritten()
    ensures Parse("0x1A", 16) == Conversion(0, 1)
    ensures StandardParse("0x1A", 16) == Conversion(26, 4)
  {
    var s := "0x1A";
    assert SkipSpace(s, 0) == 0 && SignEnd(s) == 0;
    assert !IsDigitIn(CharAt(s, 1), 16);
    assert DigitsEnd(s, 0, 16) == 1;
    assert s[0..1] == "0" && Numeral("0", 16) == 0 by {
      assert "0"[..0] == [];
    }
    assert IsDigitIn(CharAt(s, 2), 16) && IsDigitIn(CharAt(s, 3), 16);
    assert DigitsEnd(s, 2, 16) == 4;
    assert s[2..4] == "1A";
    assert Numeral("1A", 16) == 26 by {
      assert "1A"[..1] == "1";
      assert "1"[..0] == [];
    }
  }
}
