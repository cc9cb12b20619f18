/**
 * `km::SizedInteger<N, S>` (kernel/include/util/digit.hpp): an integer of N
 * octets (N = 3, 5, 6, 7 for the `uint24_t` ... `int56_t` aliases) kept as a
 * packed little-endian octet buffer. Stores clamp to the range of N octets;
 * loads widen to the smallest native integral type that holds N octets.
 *
 * The machine is little-endian (x86-64), so `memcpy` of the first N bytes of
 * an integral object copies its N low-order octets.
 */
module Digit {
  import opened Util
  import SmBios

  /** 256^n: the number of values n octets can hold. */
  function Radix(n: nat): (r: nat)
    ensures r >= 1
  {
    if n == 0 then 1 else 256 * Radix(n - 1)
  }

  lemma {:induction false} RadixSplit(a: nat, b: nat)
    ensures Radix(a + b) == Radix(a) * Radix(b)
    decreases a
  {
    if a > 0 {
      RadixSplit(a - 1, b);
      assert Radix(a + b) == 256 * Radix(a - 1 + b);
      ScaledProduct(Radix(a - 1), Radix(b));
    }
  }

  lemma ScaledProduct(p: int, q: int)
    ensures 256 * (p * q) == (256 * p) * q
  {
  }

  lemma RadixMonotone(a: nat, b: nat)
    requires a <= b
    ensures Radix(a) <= Radix(b)
  {
    RadixSplit(a, b - a);
    NonNegProduct(Radix(a), Radix(b - a) - 1);
  }

  // ---------------------------------------------------------------------
  // The integral type and the limits
  // ---------------------------------------------------------------------

  /** `sizeof(Integral)`: the `SizedIntegerTraits` size for N octets. */
  function IntegralSize(n: nat): (r: nat)
    requires 1 <= n <= 8
    ensures n <= r <= 8 && (r == 1 || r == 2 || r == 4 || r == 8)
    ensures n == 1 || n == 2 || n == 4 || n == 8 <==> r == n
  {
    if n <= 2 then n else if n <= 4 then 4 else 8
  }

  /** The largest value a two's complement or unsigned integer of n octets holds. */
  function Largest(n: nat, signed: bool): int
    requires n >= 1
  {
    if signed then 128 * Radix(n - 1) - 1 else Radix(n) - 1
  }

  /** The smallest value a two's complement or unsigned integer of n octets holds. */
  function Smallest(n: nat, signed: bool): int
    requires n >= 1
  {
    if signed then -128 * Radix(n - 1) else 0
  }

  /** `kMax`. */
  function MaxValue(n: nat, signed: bool): int
    requires 1 <= n <= 8
  {
    Largest(n, signed)
  }

  /** `kMin`. */
  function MinValue(n: nat, signed: bool): int
    requires 1 <= n <= 8
  {
    Smallest(n, signed)
  }

  /** A value of type `Integral`, the type `store` takes and `load` returns. */
  predicate InIntegral(n: nat, signed: bool, v: int)
    requires 1 <= n <= 8
  {
    var k := IntegralSize(n);
    Smallest(k, signed) <= v <= Largest(k, signed)
  }

  /**
   * The limits are those of an n-octet integer: 0 and 256^n - 1 unsigned,
   * -256^n/2 and 256^n/2 - 1 signed, so [kMin, kMax] holds exactly 256^n
   * values, and both limits are values of `Integral`.
   */
  lemma Limits(n: nat, signed: bool)
    requires 1 <= n <= 8
    ensures !signed ==> MinValue(n, signed) == 0 && MaxValue(n, signed) == Radix(n) - 1
    ensures signed ==> 2 * -MinValue(n, signed) == Radix(n) && 2 * (MaxValue(n, signed) + 1) == Radix(n)
    ensures MaxValue(n, signed) - MinValue(n, signed) + 1 == Radix(n)
    ensures InIntegral(n, signed, MinValue(n, signed)) && InIntegral(n, signed, MaxValue(n, signed))
  {
    var k := IntegralSize(n);
    assert Radix(n) == 256 * Radix(n - 1);
    RadixMonotone(n, k);
    assert Radix(k) == 256 * Radix(k - 1);
    if signed {
      assert Smallest(k, signed) <= MinValue(n, signed) && MaxValue(n, signed) <= Largest(k, signed);
    } else {
      assert Smallest(k, signed) == 0 && Largest(k, signed) == Radix(k) - 1;
    }
  }

  /** `std::clamp(value, kMin, kMax)`. */
  function Clamp(n: nat, signed: bool, v: int): (r: int)
    requires 1 <= n <= 8
    ensures MinValue(n, signed) <= r <= MaxValue(n, signed)
    ensures MinValue(n, signed) <= v <= MaxValue(n, signed) ==> r == v
    ensures v < MinValue(n, signed) ==> r == MinValue(n, signed)
    ensures v > MaxValue(n, signed) ==> r == MaxValue(n, signed)
  {
    Limits(n, signed);
    if v < MinValue(n, signed) then MinValue(n, signed)
    else if MaxValue(n, signed) < v then MaxValue(n, signed)
    else v
  }

  // ---------------------------------------------------------------------
  // Object representation
  // ---------------------------------------------------------------------

  /** The k low-order octets of `x`, least significant first. */
  function Octets(x: int, k: nat): (r: seq<Octet>)
    ensures |r| == k
    decreases k
  {
    if k == 0 then [] else [x % 256] + Octets(x / 256, k - 1)
  }

  /** The bytes of a k-octet integral object holding `v` (two's complement, little-endian). */
  function Representation(v: int, k: nat): (r: seq<Octet>)
    ensures |r| == k
  {
    Octets(v, k)
  }

  /** Reading back k low-order octets gives the value modulo 256^k. */
  lemma {:induction false} OctetsValue(x: int, k: nat)
    ensures SmBios.LittleEndian(Octets(x, k)) == x % Radix(k)
    decreases k
  {
    if k == 0 {
      DivModUniqueInt(x, 1, x, 0);
    } else {
      var q := x / 256;
      OctetsValue(q, k - 1);
      var t := Octets(x, k);
      assert t[1..] == Octets(q, k - 1);
      var low := SmBios.LittleEndian(Octets(q, k - 1));
      assert SmBios.LittleEndian(t) == x % 256 + 256 * low;
      // x = 256 q + x % 256 and q = Radix(k-1) * (q / Radix(k-1)) + low.
      var qq := q / Radix(k - 1);
      assert q == qq * Radix(k - 1) + low;
      assert x == qq * Radix(k) + (x % 256 + 256 * low) by {
        assert x == 256 * q + x % 256;
        assert Radix(k) == 256 * Radix(k - 1);
      }
      DivModUniqueInt(x, Radix(k), qq, x % 256 + 256 * low);
    }
  }

  /** The first j of k low-order octets are the j low-order octets. */
  lemma {:induction false} OctetsPrefix(x: int, k: nat, j: nat)
    requires j <= k
    ensures Octets(x, k)[..j] == Octets(x, j)
    decreases j
  {
    if j > 0 {
      OctetsPrefix(x / 256, k - 1, j - 1);
      assert Octets(x, k)[..j] == [x % 256] + Octets(x / 256, k - 1)[..j - 1];
    }
  }

  /** Octets of any octet string's value give back that string. */
  lemma {:induction false} OctetsOfValue(bytes: seq<Octet>)
    ensures Octets(SmBios.LittleEndian(bytes), |bytes|) == bytes
  {
    if |bytes| > 0 {
      var rest := SmBios.LittleEndian(bytes[1..]);
      var x := SmBios.LittleEndian(bytes);
      DivModUnique(x, 256, rest, bytes[0]);
      OctetsOfValue(bytes[1..]);
      assert Octets(x, |bytes|) == [bytes[0]] + Octets(rest, |bytes| - 1);
    }
  }

  /** Octets only depend on the value modulo 256^k. */
  lemma OctetsModulo(x: int, k: nat)
    ensures Octets(x % Radix(k), k) == Octets(x, k)
  {
    OctetsValue(x, k);
    OctetsOfValue(Octets(x, k));
    var m := x % Radix(k);
    OctetsValue(m, k);
    OctetsOfValue(Octets(m, k));
    DivModUniqueInt(m, Radix(k), 0, m);
  }

  /** The value of k octets read as an unsigned or a two's complement integer. */
  function FromOctets(bytes: seq<Octet>, signed: bool): (r: int)
    requires |bytes| >= 1
  {
    var u := SmBios.LittleEndian(bytes);
    if signed && u >= Radix(|bytes|) / 2 then u - Radix(|bytes|) else u
  }

  lemma LittleEndianBound(bytes: seq<Octet>)
    ensures SmBios.LittleEndian(bytes) < Radix(|bytes|)
  {
    OctetsValue(SmBios.LittleEndian(bytes), |bytes|);
    OctetsOfValue(bytes);
  }

  /**
   * Reading n octets is the inverse of writing them: every octet string reads
   * as a value of the n-octet range, which writes the same octets again, and
   * every value of the range reads back after it is written.
   */
  lemma FromOctetsRoundTrip(bytes: seq<Octet>, signed: bool)
    requires 1 <= |bytes|
    ensures Smallest(|bytes|, signed) <= FromOctets(bytes, signed) <= Largest(|bytes|, signed)
    ensures Octets(FromOctets(bytes, signed), |bytes|) == bytes
  {
    var n := |bytes|;
    var u := SmBios.LittleEndian(bytes);
    LittleEndianBound(bytes);
    assert Radix(n) == 256 * Radix(n - 1);
    OctetsOfValue(bytes);
    if signed && u >= Radix(n) / 2 {
      OctetsWrap(u, n);
    }
  }

  /** A value and that value minus 256^k have the same k low-order octets. */
  lemma OctetsWrap(u: nat, k: nat)
    requires u < Radix(k)
    ensures Octets(u - Radix(k), k) == Octets(u, k)
  {
    DivModUniqueInt(u - Radix(k), Radix(k), -1, u);
    OctetsModulo(u - Radix(k), k);
    DivModUniqueInt(u, Radix(k), 0, u);
    OctetsModulo(u, k);
  }

  lemma OctetsRoundTrip(v: int, n: nat, signed: bool)
    requires n >= 1 && Smallest(n, signed) <= v <= Largest(n, signed)
    ensures FromOctets(Octets(v, n), signed) == v
  {
    OctetsValue(v, n);
    assert Radix(n) == 256 * Radix(n - 1);
    if v >= 0 {
      DivModUniqueInt(v, Radix(n), 0, v);
    } else {
      DivModUniqueInt(v, Radix(n), -1, v + Radix(n));
    }
  }

  /** The n octets `store` copies out of the clamped `Integral` object. */
  function Stored(n: nat, signed: bool, v: int): (r: seq<Octet>)
    requires 1 <= n <= 8
    ensures |r| == n
  {
    Representation(Clamp(n, signed, v), IntegralSize(n))[..n]
  }

  /** The copied octets are the n low-order octets of the clamped value. */
  lemma StoredOctets(n: nat, signed: bool, v: int)
    requires 1 <= n <= 8
    ensures Stored(n, signed, v) == Octets(Clamp(n, signed, v), n)
  {
    OctetsPrefix(Clamp(n, signed, v), IntegralSize(n), n);
  }

  // ---------------------------------------------------------------------
  // Loads
  // ---------------------------------------------------------------------

  /**
   * `load` as written: `memcpy` fills the low n bytes of an uninitialised
   * `Integral`; the remaining `sizeof(Integral) - n` bytes keep whatever
   * `stale` held. The object is then read as `Integral`.
   */
  function LoadAsWritten(octets: seq<Octet>, signed: bool, stale: seq<Octet>): int
    requires 1 <= |octets| <= 8 && |stale| == IntegralSize(|octets|) - |octets|
  {
    FromOctets(octets + stale, signed)
  }

  /**
   * With N a native integer size (1, 2, 4 or 8) nothing is left
   * uninitialised and the as-written load reads back every stored value.
   */
  lemma NativeLoadAfterStore(n: nat, signed: bool, v: int)
    requires n == 1 || n == 2 || n == 4 || n == 8
    ensures LoadAsWritten(Stored(n, signed, v), signed, []) == Clamp(n, signed, v)
  {
    StoredOctets(n, signed, v);
    assert Stored(n, signed, v) + [] == Stored(n, signed, v);
    OctetsRoundTrip(Clamp(n, signed, v), n, signed);
  }

  /**
   * For `int24_t` the as-written load of a stored -1 depends on the stale
   * byte: a zero byte gives 16777215, and so does no stale byte at all give -1
   * unless it happens to be 0xFF.
   */
  lemma NegativeLoadAsWritten()
    ensures Stored(3, true, -1) == [255, 255, 255]
    ensures LoadAsWritten(Stored(3, true, -1), true, [0]) == 0xFF_FFFF
    ensures LoadAsWritten(Stored(3, true, -1), true, [255]) == -1
  {
    StoredOctets(3, true, -1);
    assert Octets(-1, 3) == [255, 255, 255] by {
      assert Octets(-1, 1) == [255];
      assert Octets(-1, 2) == [255] + Octets(-1, 1);
    }
    assert Radix(4) == 0x1_0000_0000 by {
      assert Radix(2) == 0x1_0000;
    }
    assert SmBios.LittleEndian([255, 255, 255, 0]) == 0xFF_FFFF by {
      assert SmBios.LittleEndian([0]) == 0;
      assert SmBios.LittleEndian([255, 0]) == 255;
      assert SmBios.LittleEndian([255, 255, 0]) == 0xFFFF;
    }
    assert SmBios.LittleEndian([255, 255, 255, 255]) == 0xFFFF_FFFF by {
      assert SmBios.LittleEndian([255]) == 255;
      assert SmBios.LittleEndian([255, 255]) == 0xFFFF;
      assert SmBios.LittleEndian([255, 255, 255]) == 0xFF_FFFF;
    }
    assert [255, 255, 255] + [0] == [255, 255, 255, 0];
    assert [255, 255, 255] + [255] == [255, 255, 255, 255];
  }

  /** For `uint24_t` a stored 0 loads as 0x0100_0000 when the stale byte is 1. */
  lemma UnsignedLoadAsWritten()
    ensures Stored(3, false, 0) == [0, 0, 0]
    ensures LoadAsWritten(Stored(3, false, 0), false, [1]) == 0x100_0000
  {
    StoredOctets(3, false, 0);
    assert Octets(0, 3) == [0, 0, 0] by {
      assert Octets(0, 1) == [0];
      assert Octets(0, 2) == [0] + Octets(0, 1);
    }
    assert [0, 0, 0] + [1] == [0, 0, 0, 1];
    assert SmBios.LittleEndian([0, 0, 0, 1]) == 0x100_0000 by {
      assert SmBios.LittleEndian([1]) == 1;
      assert SmBios.LittleEndian([0, 1]) == 256;
      assert SmBios.LittleEndian([0, 0, 1]) == 0x1_0000;
    }
  }

  /**
   * `load` as intended: the n octets are read as an n-octet integer and
   * sign- or zero-extended to `Integral`.
   */
  function Load(octets: seq<Octet>, signed: bool): (r: int)
    requires 1 <= |octets| <= 8
    ensures MinValue(|octets|, signed) <= r <= MaxValue(|octets|, signed)
    ensures InIntegral(|octets|, signed, r)
    ensures Stored(|octets|, signed, r) == octets
  {
    var r := FromOctets(octets, signed);
    FromOctetsRoundTrip(octets, signed);
    Limits(|octets|, signed);
    StoredOctets(|octets|, signed, r);
    r
  }

  /** `load` after `store` returns the clamped value. */
  lemma LoadAfterStore(n: nat, signed: bool, v: int)
    requires 1 <= n <= 8
    ensures Load(Stored(n, signed, v), signed) == Clamp(n, signed, v)
  {
    StoredOctets(n, signed, v);
    OctetsRoundTrip(Clamp(n, signed, v), n, signed);
  }

  // ---------------------------------------------------------------------
  // Byte swapping
  // ---------------------------------------------------------------------

  /** `std::reverse_copy` of a whole buffer. */
  function Reversed(s: seq<Octet>): (r: seq<Octet>)
    ensures |r| == |s|
    ensures forall i :: 0 <= i < |s| ==> r[i] == s[|s| - 1 - i]
  {
    if |s| == 0 then [] else Reversed(s[1..]) + [s[0]]
  }

  /** Byte swapping twice gives back the original octets. */
  lemma ReversedTwice(s: seq<Octet>)
    ensures Reversed(Reversed(s)) == s
  {
  }

  // ---------------------------------------------------------------------
  // The object
  // ---------------------------------------------------------------------

  /** `SizedInteger<N, S>`: `size` is N, `signed` is `kIsSigned`. */
  class SizedInteger {
    const size: nat
    const signed: bool
    const octets: array<Octet>

    ghost predicate Valid()
      reads this
    {
      1 <= size <= 8 && octets.Length == size
    }

    /** The constructor from `Integral`: stores the clamped value. */
    constructor (size: nat, signed: bool, value: int)
      requires 1 <= size <= 8 && InIntegral(size, signed, value)
      ensures Valid() && this.size == size && this.signed == signed && fresh(octets)
      ensures octets[..] == Stored(size, signed, value)
      ensures Value() == Clamp(size, signed, value)
    {
      this.size := size;
      this.signed := signed;
      octets := new Octet[size](i => 0);
      new;
      Store(value);
    }

    /** An object whose octets already hold `bytes` (as `byteswap` fills its result). */
    constructor FromOctets(signed: bool, bytes: seq<Octet>)
      requires 1 <= |bytes| <= 8
      ensures Valid() && size == |bytes| && this.signed == signed && fresh(octets)
      ensures octets[..] == bytes
    {
      size := |bytes|;
      this.signed := signed;
      octets := new Octet[|bytes|](i requires 0 <= i < |bytes| => bytes[i]);
    }

    /** `load` and `operator Integral`, as intended (see `LoadAsWritten`). */
    function Value(): (r: int)
      reads this, octets
      requires Valid()
      ensures MinValue(size, signed) <= r <= MaxValue(size, signed)
      ensures Stored(size, signed, r) == octets[..]
    {
      Load(octets[..], signed)
    }

    /** `store` and `operator=`: copies the n low octets of the clamped value. */
    method Store(value: int)
      requires Valid() && InIntegral(size, signed, value)
      modifies octets
      ensures octets[..] == Stored(size, signed, value)
      ensures Value() == Clamp(size, signed, value)
    {
      var bytes := Stored(size, signed, value);
      forall i | 0 <= i < size {
        octets[i] := bytes[i];
      }
      LoadAfterStore(size, signed, value);
    }

    /** `byteswap`: a new object holding the octets in reverse order. */
    method Byteswap() returns (result: SizedInteger)
      requires Valid()
      ensures fresh(result) && fresh(result.octets) && result.Valid()
      ensures result.size == size && result.signed == signed
      ensures result.octets[..] == Reversed(octets[..])
    {
      result := new SizedInteger.FromOctets(signed, Reversed(octets[..]));
    }
  }
}
