/**
 * The half-open address range algebra of common/range.hpp: a range is
 * [front, back), it contains `front` and stops just before `back`.
 *
 * Two predicates behave differently from their documentation. `overlaps`
 * also answers true for a range that only touches this one's front, and
 * false for a range that encloses this one and ends where it ends;
 * `intersects` misses the case where the argument encloses this range.
 * Both are kept below as written (`OverlapsAsWritten`,
 * `IntersectsAsWritten`) next to the corrected definitions that the rest of
 * the model uses.
 */
module Ranges {
  import opened Util

  /** A range of address space; `front` is the first address in it, `back` the first address after it. */
  datatype Range = Range(front: nat, back: nat)

  /** The default-constructed range `{}`, which the operations return for "no range". */
  const Empty := Range(0, 0)

  predicate IsValid(r: Range) { r.front <= r.back }

  predicate IsEmpty(r: Range) { r.front == r.back }

  function Size(r: Range): nat
    requires IsValid(r)
  {
    r.back - r.front
  }

  /** `AnyRange::of`: the range of `size` bytes starting at `front`. */
  function Of(front: nat, size: nat): (r: Range)
    ensures IsValid(r) && Size(r) == size && r.front == front
  {
    Range(front, front + size)
  }

  /** `contains(addr)`: the address is one of the range's bytes. */
  predicate ContainsAddr(r: Range, x: nat) { r.front <= x < r.back }

  /** `contains(range)`: `b` lies within the bounds of `a`. */
  predicate Contains(a: Range, b: Range) { b.front >= a.front && b.back <= a.back }

  /** Some address belongs to both ranges. */
  ghost predicate ShareArea(a: Range, b: Range)
  {
    exists x :: ContainsAddr(a, x) && ContainsAddr(b, x)
  }

  /** No address belongs to both ranges (stated on the bounds). */
  predicate Disjoint(a: Range, b: Range) { Min(a.back, b.back) <= Max(a.front, b.front) }

  /** `b` lies inside `a` without touching either end of it. */
  predicate StrictlyInside(b: Range, a: Range) { a.front < b.front && b.back < a.back }

  /** The address `x` is one of the range's bytes or its end. */
  predicate ContainsEnd(r: Range, x: nat) { r.front < x <= r.back }

  /** `overlaps` exactly as range.hpp:78-83 writes it. */
  predicate OverlapsAsWritten(a: Range, b: Range)
  {
    if b.front == a.front && b.back <= a.back then true
    else if b.back == a.back && b.front >= a.front then true
    else ContainsAddr(a, b.front) != ContainsAddr(a, b.back)
  }

  /**
   * `overlaps` as documented: the ranges share area and neither lies
   * strictly inside the other. The end of `b` is tested as an end point,
   * so a range that ends where this one starts no longer counts.
   */
  predicate Overlaps(a: Range, b: Range)
  {
    if b.front == a.front && b.back <= a.back then true
    else if b.back == a.back && b.front >= a.front then true
    else ContainsAddr(a, b.front) != ContainsEnd(a, b.back)
  }

  /** `intersects` exactly as range.hpp:94-98 writes it. */
  predicate IntersectsAsWritten(a: Range, b: Range)
  {
    if b.front == a.back || b.back == a.front then false
    else Contains(a, b) || ContainsAddr(a, b.front) || ContainsAddr(a, b.back) || b.back == a.back
  }

  /** `intersects` as documented: also true when `b` encloses `a`. */
  predicate Intersects(a: Range, b: Range)
  {
    if b.front == a.back || b.back == a.front then false
    else (Contains(a, b) || ContainsAddr(a, b.front) || ContainsAddr(a, b.back) || b.back == a.back
          || Contains(b, a))
  }

  /** `outerAdjacent`: the ranges touch end to front. */
  predicate OuterAdjacent(a: Range, b: Range) { a.back == b.front || b.back == a.front }

  /** `interval`: the two ranges can be merged into one without a gap. */
  predicate Interval(a: Range, b: Range)
  {
    OuterAdjacent(a, b) || Overlaps(a, b) || Contains(a, b) || Contains(b, a)
  }

  lemma ShareAreaIff(a: Range, b: Range)
    ensures ShareArea(a, b) <==> Max(a.front, b.front) < Min(a.back, b.back)
  {
    if Max(a.front, b.front) < Min(a.back, b.back) {
      assert ContainsAddr(a, Max(a.front, b.front)) && ContainsAddr(b, Max(a.front, b.front));
    }
  }

  lemma DisjointIff(a: Range, b: Range)
    ensures Disjoint(a, b) <==> !ShareArea(a, b)
    ensures Disjoint(a, b) == Disjoint(b, a)
  {
    ShareAreaIff(a, b);
  }

  /** A range inside `a` is disjoint from whatever `a` is disjoint from. */
  lemma DisjointSubrange(a: Range, sub: Range, b: Range)
    requires IsValid(sub) && Contains(a, sub) && Disjoint(a, b)
    ensures Disjoint(sub, b) && Disjoint(b, sub)
  {
  }

  /** `contains(range)` means every byte of a non-empty `b` is a byte of `a`. */
  lemma ContainsIsSubset(a: Range, b: Range)
    requires IsValid(b) && !IsEmpty(b)
    ensures Contains(a, b) <==> (forall x :: ContainsAddr(b, x) ==> ContainsAddr(a, x))
  {
    if forall x :: ContainsAddr(b, x) ==> ContainsAddr(a, x) {
      assert ContainsAddr(b, b.front);
      assert ContainsAddr(b, b.back - 1);
    }
  }

  /**
   * Corrected `overlaps`: for non-empty ranges it holds exactly when they
   * share area and neither is strictly inside the other. It is symmetric.
   */
  lemma OverlapsMeaning(a: Range, b: Range)
    requires IsValid(a) && !IsEmpty(a) && IsValid(b) && !IsEmpty(b)
    ensures Overlaps(a, b) <==> ShareArea(a, b) && !StrictlyInside(b, a) && !StrictlyInside(a, b)
    ensures Overlaps(a, b) == Overlaps(b, a)
  {
    ShareAreaIff(a, b);
    ShareAreaIff(b, a);
  }

  /** Ranges that only touch do not overlap or intersect, in either order. */
  lemma TouchingRangesAreDisjoint(a: Range, b: Range)
    requires IsValid(a) && !IsEmpty(a) && IsValid(b) && !IsEmpty(b)
    requires a.back == b.front
    ensures !Overlaps(a, b) && !Overlaps(b, a)
    ensures !Intersects(a, b) && !Intersects(b, a)
    ensures !IntersectsAsWritten(a, b) && !IntersectsAsWritten(b, a)
    ensures !OverlapsAsWritten(a, b)
  {
  }

  /** A strict interior subset does not overlap, in either order and as written too. */
  lemma InteriorSubsetDoesNotOverlap(a: Range, b: Range)
    requires IsValid(b) && StrictlyInside(b, a)
    ensures !Overlaps(a, b) && !Overlaps(b, a)
    ensures !OverlapsAsWritten(a, b) && !OverlapsAsWritten(b, a)
  {
  }

  /**
   * The as-written `overlaps` differs from the corrected one in two places:
   * it also holds for a range that ends where `a` starts, and it fails for a
   * range that encloses `a` and shares its end.
   */
  lemma OverlapsAsWrittenDiffers(a: Range, b: Range)
    requires IsValid(a) && !IsEmpty(a) && IsValid(b) && !IsEmpty(b)
    ensures OverlapsAsWritten(a, b) <==>
      (Overlaps(a, b) && !(b.front < a.front && b.back == a.back)) || (b.front < a.front && b.back == a.front)
  {
  }

  /**
   * As written, [0x1000, 0x2000) "overlaps" [0, 0x1000) although no byte is
   * shared, and [0x2000, 0x3000) does not overlap [0x1000, 0x3000) although
   * the reverse question answers true.
   */
  lemma OverlapsAsWrittenCounterexamples()
    ensures OverlapsAsWritten(Range(0x1000, 0x2000), Range(0, 0x1000))
    ensures !ShareArea(Range(0x1000, 0x2000), Range(0, 0x1000))
    ensures !OverlapsAsWritten(Range(0x2000, 0x3000), Range(0x1000, 0x3000))
    ensures OverlapsAsWritten(Range(0x1000, 0x3000), Range(0x2000, 0x3000))
    ensures !Overlaps(Range(0x1000, 0x2000), Range(0, 0x1000))
    ensures Overlaps(Range(0x2000, 0x3000), Range(0x1000, 0x3000))
  {
    ShareAreaIff(Range(0x1000, 0x2000), Range(0, 0x1000));
  }

  /** Either version of `overlaps` gives the same `interval`. */
  lemma IntervalUnaffectedByOverlapsFix(a: Range, b: Range)
    requires IsValid(a) && IsValid(b)
    ensures Interval(a, b) <==>
      OuterAdjacent(a, b) || OverlapsAsWritten(a, b) || Contains(a, b) || Contains(b, a)
  {
  }

  /** Corrected `intersects`: for non-empty ranges it holds exactly when they share area. */
  lemma IntersectsMeaning(a: Range, b: Range)
    requires IsValid(a) && !IsEmpty(a) && IsValid(b) && !IsEmpty(b)
    ensures Intersects(a, b) <==> ShareArea(a, b)
    ensures Intersects(a, b) == Intersects(b, a)
  {
    ShareAreaIff(a, b);
    ShareAreaIff(b, a);
  }

  /** [0x2000, 0x3000) does not "intersect" the enclosing [0x1000, 0x4000) as written. */
  lemma IntersectsAsWrittenMissesEnclosure()
    ensures !IntersectsAsWritten(Range(0x2000, 0x3000), Range(0x1000, 0x4000))
    ensures IntersectsAsWritten(Range(0x1000, 0x4000), Range(0x2000, 0x3000))
    ensures ShareArea(Range(0x2000, 0x3000), Range(0x1000, 0x4000))
  {
    assert ContainsAddr(Range(0x2000, 0x3000), 0x2000);
  }

  /**
   * `interval` holds for two valid ranges exactly when there is no gap
   * between them.
   */
  lemma IntervalIffNoGap(a: Range, b: Range)
    requires IsValid(a) && IsValid(b)
    ensures Interval(a, b) <==> b.front <= a.back && a.front <= b.back
  {
  }

  /** `isBefore(other)`: this range ends at or before `other` starts. */
  predicate IsBefore(a: Range, b: Range) { a.back <= b.front }

  /**
   * `cut`, which tests `overlaps` as written: without an overlap the range
   * is returned unchanged; otherwise the overlapping bytes are removed,
   * except when `other` starts at the same address and reaches past this
   * range, where the result is the part of `other` beyond this range's end
   * (the behaviour range.hpp:197 has and its unit test expects).
   */
  function Cut(a: Range, b: Range): (r: Range)
    requires IsValid(a) && IsValid(b)
    ensures !OverlapsAsWritten(a, b) ==> r == a
    ensures OverlapsAsWritten(a, b) && !(b.front == a.front && b.back > a.back) ==>
      IsValid(r) && forall x :: ContainsAddr(r, x) <==> ContainsAddr(a, x) && !ContainsAddr(b, x)
    ensures OverlapsAsWritten(a, b) && b.front == a.front && b.back > a.back ==> r == Range(a.back, b.back)
  {
    if !OverlapsAsWritten(a, b) then a
    else if b.front <= a.front then Range(Min(a.back, b.back), Max(a.back, b.back))
    else if b.back >= a.back then Range(Min(a.front, b.front), Max(a.front, b.front))
    else a
  }

  /** `intersection`: the bytes in both ranges, or `{}` when there are none. */
  function Intersection(a: Range, b: Range): (r: Range)
    requires IsValid(a) && IsValid(b)
    ensures IsValid(r)
    ensures forall x :: ContainsAddr(r, x) <==> ContainsAddr(a, x) && ContainsAddr(b, x)
    ensures IsEmpty(r) ==> r == Empty
    ensures Contains(a, b) && !IsEmpty(b) ==> r == b
    ensures Contains(b, a) && !IsEmpty(a) ==> r == a
  {
    var front := Max(a.front, b.front);
    var back := Min(a.back, b.back);
    if front >= back then Empty else Range(front, back)
  }

  lemma IntersectionEmptyIffDisjoint(a: Range, b: Range)
    requires IsValid(a) && IsValid(b)
    ensures IsEmpty(Intersection(a, b)) <==> !ShareArea(a, b)
  {
    ShareAreaIff(a, b);
  }

  /** `merge`: the smallest range that covers both. */
  function Merge(a: Range, b: Range): (r: Range)
    requires IsValid(a) && IsValid(b)
    ensures IsValid(r) && Contains(r, a) && Contains(r, b)
    ensures forall c :: Contains(c, a) && Contains(c, b) ==> Contains(c, r)
  {
    Range(Min(a.front, b.front), Max(a.back, b.back))
  }

  /** Merging two interval-related ranges adds no byte that was in neither. */
  lemma MergeOfIntervalIsUnion(a: Range, b: Range)
    requires IsValid(a) && IsValid(b) && Interval(a, b)
    ensures forall x :: ContainsAddr(Merge(a, b), x) <==> ContainsAddr(a, x) || ContainsAddr(b, x)
  {
    IntervalIffNoGap(a, b);
  }

  /** The left fold of `merge` over a non-empty list. */
  function MergeAll(rs: seq<Range>): Range
    requires |rs| > 0 && forall i :: 0 <= i < |rs| ==> IsValid(rs[i])
  {
    if |rs| == 1 then rs[0] else Merge(MergeAll(rs[..|rs| - 1]), rs[|rs| - 1])
  }

  /** The fold covers every range, starts at the lowest front and ends at the highest back. */
  lemma {:induction false} MergeAllBounds(rs: seq<Range>)
    requires |rs| > 0 && forall i :: 0 <= i < |rs| ==> IsValid(rs[i])
    ensures IsValid(MergeAll(rs))
    ensures forall i :: 0 <= i < |rs| ==> Contains(MergeAll(rs), rs[i])
    ensures exists i :: 0 <= i < |rs| && rs[i].front == MergeAll(rs).front
    ensures exists i :: 0 <= i < |rs| && rs[i].back == MergeAll(rs).back
  {
    if |rs| > 1 {
      var init := rs[..|rs| - 1];
      MergeAllBounds(init);
      var m := MergeAll(init);
      var j :| 0 <= j < |init| && init[j].front == m.front;
      var k :| 0 <= k < |init| && init[k].back == m.back;
      var last := |rs| - 1;
      if m.front <= rs[last].front {
        assert rs[j].front == MergeAll(rs).front;
      } else {
        assert rs[last].front == MergeAll(rs).front;
      }
      if m.back >= rs[last].back {
        assert rs[k].back == MergeAll(rs).back;
      } else {
        assert rs[last].back == MergeAll(rs).back;
      }
      forall i | 0 <= i < |rs|
        ensures Contains(MergeAll(rs), rs[i])
      {
        if i < last {
          assert rs[i] == init[i];
        }
      }
    }
  }

  /** `combinedInterval`: `{}` for no ranges, otherwise the fold of `merge`. */
  method CombinedInterval(ranges: seq<Range>) returns (r: Range)
    requires forall i :: 0 <= i < |ranges| ==> IsValid(ranges[i])
    ensures |ranges| == 0 ==> r == Empty
    ensures |ranges| > 0 ==> r == MergeAll(ranges)
  {
    if |ranges| == 0 {
      return Empty;
    }
    r := ranges[0];
    var i := 1;
    while i < |ranges|
      invariant 1 <= i <= |ranges|
      invariant r == MergeAll(ranges[..i])
    {
      assert ranges[..i + 1][..i] == ranges[..i];
      r := Merge(r, ranges[i]);
      i := i + 1;
    }
    assert ranges[..|ranges|] == ranges;
  }

  /**
   * `aligned`: the range shrunk to multiples of `align`, or `{}` when no
   * aligned block of `align` bytes fits.
   */
  function Aligned(r: Range, align: nat): (res: Range)
    requires align > 0 && IsValid(r)
    ensures IsValid(res)
    ensures IsEmpty(res) ==> res == Empty
    ensures !IsEmpty(res) ==>
      IsAligned(res.front, align) && IsAligned(res.back, align) && Contains(r, res)
  {
    var front := RoundUp(r.front, align);
    var back := RoundDown(r.back, align);
    if front >= back then Empty else Range(front, back)
  }

  /**
   * `aligned` is empty exactly when no `align`-sized aligned block fits,
   * and otherwise reaches every aligned address of the range.
   */
  lemma AlignedIsLargest(r: Range, align: nat)
    requires align > 0 && IsValid(r)
    ensures IsEmpty(Aligned(r, align)) <==>
      forall p: nat :: IsAligned(p, align) && r.front <= p ==> r.back < p + align
    ensures !IsEmpty(Aligned(r, align)) ==>
      forall p: nat :: IsAligned(p, align) && ContainsAddr(r, p) ==>
        Aligned(r, align).front <= p <= Aligned(r, align).back
  {
    AlignedFacts(r, align, RoundUp(r.front, align), RoundDown(r.back, align));
  }

  lemma AlignedFacts(r: Range, align: nat, front: nat, back: nat)
    requires align > 0 && IsValid(r)
    requires front == RoundUp(r.front, align) && back == RoundDown(r.back, align)
    ensures front >= back <==> forall p: nat :: IsAligned(p, align) && r.front <= p ==> r.back < p + align
    ensures forall p: nat :: IsAligned(p, align) && ContainsAddr(r, p) ==> front <= p <= back
  {
    forall p: nat | IsAligned(p, align) && r.front <= p
      ensures front <= p
      ensures p <= r.back ==> p <= back
    {
      RoundUpIsLeast(p, r.front, align);
      if p <= r.back {
        RoundDownIsGreatest(p, r.back, align);
      }
    }
    if front < back {
      AlignedGap(front, back, align);
    } else {
      forall p: nat | IsAligned(p, align) && r.front <= p
        ensures r.back < p + align
      {
        if p + align <= r.back {
          AlignedStep(p, align);
        }
      }
    }
  }

  /** `alignedOut`: the range grown to multiples of `align`; it is the smallest such cover. */
  function AlignedOut(r: Range, align: nat): (res: Range)
    requires align > 0 && IsValid(r)
    ensures IsValid(res) && Contains(res, r)
    ensures IsAligned(res.front, align) && IsAligned(res.back, align)
    ensures forall c: Range ::
      (IsAligned(c.front, align) && IsAligned(c.back, align) && Contains(c, r) ==> Contains(c, res))
  {
    var res := Range(RoundDown(r.front, align), RoundUp(r.back, align));
    forall c: Range | IsAligned(c.front, align) && IsAligned(c.back, align) && Contains(c, r)
      ensures Contains(c, res)
    {
      RoundDownIsGreatest(c.front, r.front, align);
      RoundUpIsLeast(c.back, r.back, align);
    }
    res
  }

  /** `split(range, midpoint)`: the two halves either side of `midpoint`. */
  function SplitAt(r: Range, midpoint: nat): (halves: (Range, Range))
    requires ContainsAddr(r, midpoint)
    ensures IsValid(halves.0) && IsValid(halves.1) && !IsEmpty(halves.1)
    ensures halves.0.back == halves.1.front == midpoint
    ensures forall x :: ContainsAddr(r, x) <==> ContainsAddr(halves.0, x) || ContainsAddr(halves.1, x)
  {
    (Range(r.front, midpoint), Range(midpoint, r.back))
  }

  /**
   * `split(range, other)`: what is left of `range` either side of the
   * contained `other`; empty on a side where the two share an end.
   */
  function SplitAround(r: Range, other: Range): (halves: (Range, Range))
    requires IsValid(other) && Contains(r, other)
    ensures IsValid(halves.0) && IsValid(halves.1)
    ensures halves.0.front == r.front && halves.1.back == r.back
    ensures IsBefore(halves.0, other) && IsBefore(other, halves.1)
    ensures forall x :: ContainsAddr(r, x) <==>
      ContainsAddr(halves.0, x) || ContainsAddr(other, x) || ContainsAddr(halves.1, x)
  {
    (Range(r.front, other.front), Range(other.back, r.back))
  }
}
