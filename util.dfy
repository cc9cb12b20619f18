/**
 * Integer helpers shared by the memory code: rounding to a multiple
 * (util/util.hpp) and min/max. Values are unbounded naturals; the
 * wrap-around of `value + multiple - 1` near the top of the address space
 * is not modelled.
 *
 * Rounding is defined through `Rem`, a remainder computed by repeated
 * subtraction, so that the definitions stay in linear arithmetic;
 * `RoundUpMatchesDivision` and `RoundDownMatchesDivision` show they agree
 * with the division formulas of util.hpp.
 */
module Util {

  /** A byte of memory or of a firmware table, as an unsigned value. */
  type Octet = x: int | 0 <= x < 256

  function Min(a: int, b: int): int { if a <= b then a else b }
  function Max(a: int, b: int): int { if a >= b then a else b }

  /** The remainder of `v` divided by `m`. */
  function Rem(v: nat, m: nat): (r: nat)
    requires m > 0
    ensures r < m && r <= v
    decreases v
  {
    if v < m then v else Rem(v - m, m)
  }

  /** `x` is a multiple of `m`. */
  predicate IsAligned(x: nat, m: nat)
    requires m > 0
  {
    Rem(x, m) == 0
  }

  /** roundup: the least multiple of `m` that is at least `v`. */
  function RoundUp(v: nat, m: nat): (r: nat)
    requires m > 0
    ensures IsAligned(r, m)
    ensures v <= r < v + m
  {
    AlignedBelow(v, m);
    if Rem(v, m) == 0 then v
    else
      AlignedStep(v - Rem(v, m), m);
      v - Rem(v, m) + m
  }

  /** rounddown: the greatest multiple of `m` that is at most `v`. */
  function RoundDown(v: nat, m: nat): (r: nat)
    requires m > 0
    ensures IsAligned(r, m)
    ensures r <= v < r + m
  {
    AlignedBelow(v, m);
    v - Rem(v, m)
  }

  /** A multiple of `m` plus less than `m` leaves exactly that much over. */
  lemma {:induction false} RemOfAlignedPlus(x: nat, r: nat, m: nat)
    requires m > 0 && IsAligned(x, m) && r < m
    ensures Rem(x + r, m) == r
    decreases x
  {
    if x >= m {
      RemOfAlignedPlus(x - m, r, m);
    }
  }

  /** The next multiple of `m` after a multiple of `m`. */
  lemma AlignedStep(x: nat, m: nat)
    requires m > 0 && IsAligned(x, m)
    ensures IsAligned(x + m, m)
  {
    assert Rem(x + m, m) == Rem(x, m);
  }

  /** Taking the remainder away leaves a multiple of `m`. */
  lemma {:induction false} AlignedBelow(v: nat, m: nat)
    requires m > 0
    ensures IsAligned(v - Rem(v, m), m)
    decreases v
  {
    if v >= m {
      AlignedBelow(v - m, m);
      AlignedStep(v - m - Rem(v - m, m), m);
    }
  }

  /** The distance between two multiples of `m` is a multiple of `m`. */
  lemma {:induction false} AlignedDifference(x: nat, y: nat, m: nat)
    requires m > 0 && IsAligned(x, m) && IsAligned(y, m) && x <= y
    ensures IsAligned(y - x, m)
    decreases x
  {
    if x > 0 {
      AlignedDifference(x - m, y - m, m);
    }
  }

  /** The sum of two multiples of `m` is a multiple of `m`. */
  lemma {:induction false} AlignedAdd(x: nat, y: nat, m: nat)
    requires m > 0 && IsAligned(x, m) && IsAligned(y, m)
    ensures IsAligned(x + y, m)
    decreases y
  {
    if y > 0 {
      AlignedGap(0, y, m);
      AlignedDifference(m, y, m);
      AlignedAdd(x, y - m, m);
      AlignedStep(x + y - m, m);
    }
  }

  /** Two distinct multiples of `m` lie at least `m` apart. */
  lemma AlignedGap(x: nat, y: nat, m: nat)
    requires m > 0 && IsAligned(x, m) && IsAligned(y, m) && x < y
    ensures x + m <= y
  {
    if y < x + m {
      RemOfAlignedPlus(x, y - x, m);
    }
  }

  /** A multiple of `m` that is at least `v` is at least `RoundUp(v, m)`. */
  lemma RoundUpIsLeast(p: nat, v: nat, m: nat)
    requires m > 0 && IsAligned(p, m) && v <= p
    ensures RoundUp(v, m) <= p
  {
    var r := RoundUp(v, m);
    if p < r {
      AlignedGap(p, r, m);
    }
  }

  /** A multiple of `m` that is at most `v` is at most `RoundDown(v, m)`. */
  lemma RoundDownIsGreatest(p: nat, v: nat, m: nat)
    requires m > 0 && IsAligned(p, m) && p <= v
    ensures p <= RoundDown(v, m)
  {
    var r := RoundDown(v, m);
    if r < p {
      AlignedGap(r, p, m);
    }
  }

  lemma MulStep(a: nat, m: nat)
    ensures (a + 1) * m == a * m + m
  {}

  /** Multiplication by a natural is monotone, in steps of `m`. */
  lemma {:induction false} MulGap(a: nat, b: nat, m: nat)
    requires a < b
    ensures a * m + m <= b * m
    decreases b - a
  {
    MulStep(a, m);
    if a + 1 < b {
      MulGap(a + 1, b, m);
    }
  }

  /** Euclidean division has exactly one quotient and remainder. */
  lemma DivModUnique(x: nat, m: nat, q: nat, r: nat)
    requires m > 0 && x == q * m + r && r < m
    ensures x / m == q && x % m == r
  {
    var q', r' := x / m, x % m;
    if q < q' {
      MulGap(q, q', m);
    } else if q' < q {
      MulGap(q', q, m);
    }
  }

  /** Euclidean division of an integer of either sign has exactly one quotient and remainder. */
  lemma DivModUniqueInt(x: int, m: nat, q: int, r: int)
    requires m > 0 && 0 <= r < m && x == q * m + r
    ensures x / m == q && x % m == r
  {
    var q', r' := x / m, x % m;
    var d := q' - q;
    assert d * m == r - r';
    ProductBound(d, m);
  }

  /** A nonzero multiple of `m` is at least `m` away from zero. */
  lemma ProductBound(d: int, m: nat)
    ensures d >= 1 ==> d * m >= m
    ensures d <= -1 ==> d * m + m <= 0
  {
    if d >= 1 {
      NonNegProduct(d - 1, m);
      assert d * m == (d - 1) * m + m;
    } else if d <= -1 {
      NonNegProduct(-d - 1, m);
      assert -d * m == (-d - 1) * m + m;
    }
  }

  lemma NonNegProduct(a: nat, b: nat)
    ensures a * b >= 0
  {
  }

  /** `Rem` is the remainder of division. */
  /** A multiple of `m` is `m` times its quotient. */
  lemma ExactQuotient(v: nat, m: nat) returns (q: nat)
    requires m > 0 && v % m == 0
    ensures q == v / m && v == q * m
  {
    q := v / m;
  }

  lemma SumOfMultiples(a: nat, b: nat, m: nat)
    ensures (a + b) * m == a * m + b * m
  {
  }

  lemma {:induction false} RemIsMod(v: nat, m: nat)
    requires m > 0
    ensures Rem(v, m) == v % m
    decreases v
  {
    if v < m {
      DivModUnique(v, m, 0, v);
    } else {
      RemIsMod(v - m, m);
      var q := (v - m) / m;
      MulStep(q, m);
      DivModUnique(v, m, q + 1, (v - m) % m);
    }
  }

  /** `RoundDown` is util.hpp's `value / multiple * multiple`. */
  lemma RoundDownMatchesDivision(v: nat, m: nat)
    requires m > 0
    ensures RoundDown(v, m) == v / m * m
  {
    RemIsMod(v, m);
  }

  /** `RoundUp` is util.hpp's `(value + multiple - 1) / multiple * multiple`. */
  lemma RoundUpMatchesDivision(v: nat, m: nat)
    requires m > 0
    ensures RoundUp(v, m) == (v + m - 1) / m * m
  {
    RemIsMod(v, m);
    var q, r := v / m, v % m;
    if r == 0 {
      RoundUpExact(v, m, q);
    } else {
      RoundUpInexact(v, m, q, r);
    }
  }

  lemma RoundUpExact(v: nat, m: nat, q: nat)
    requires m > 0 && v == q * m
    ensures (v + m - 1) / m == q
  {
    DivModUnique(v + m - 1, m, q, m - 1);
  }

  lemma RoundUpInexact(v: nat, m: nat, q: nat, r: nat)
    requires m > 0 && v == q * m + r && 0 < r < m
    ensures (v + m - 1) / m * m == q * m + m
  {
    MulStep(q, m);
    DivModUnique(v + m - 1, m, q + 1, r - 1);
  }
}
