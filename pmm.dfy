/**
 * The physical memory manager of system/pmm.cpp: a map of reference-counted
 * segments, each an allocation of the TLSF heap with an owner count. The
 * map is keyed by a segment's back address, so it is modelled as a
 * sequence of segments sorted by address; `lower_bound` and `upper_bound`
 * are searches over it. The meaning of the map is the owner count of each
 * address (`OwnersAt`), and retain and release are specified by what they
 * do to it.
 */
module MemoryManagers {
  import opened Status
  import opened Ranges
  import opened Util

  /**
   * `MemorySegment`: an owner count and the range of its heap allocation.
   * The count is unbounded here; pmm.cpp keeps it in a `uint8_t`, whose wrap is not modelled.
   */
  datatype Segment = Segment(owners: nat, range: Range)

  /** Segment `i` lies wholly below segment `j`. */
  predicate Precedes(s: seq<Segment>, i: nat, j: nat)
    requires i < j < |s|
  {
    s[i].range.back <= s[j].range.front
  }

  /** Every segment is a non-empty range with an owner, and they are disjoint in ascending order. */
  predicate SegmentsValid(s: seq<Segment>)
  {
    (forall i :: 0 <= i < |s| ==> s[i].range.front < s[i].range.back && s[i].owners > 0) &&
    (forall i, j :: 0 <= i < j < |s| ==> Precedes(s, i, j))
  }

  /** The owner count of address `x`: that of the first segment holding it, 0 when none does. */
  function OwnersAt(s: seq<Segment>, x: nat): nat
  {
    if |s| == 0 then 0
    else if ContainsAddr(s[0].range, x) then s[0].owners
    else OwnersAt(s[1..], x)
  }

  /** The bytes the segments hold. */
  function UsedBytes(s: seq<Segment>): nat
    requires forall i :: 0 <= i < |s| ==> IsValid(s[i].range)
  {
    if |s| == 0 then 0 else Size(s[0].range) + UsedBytes(s[1..])
  }

  /** `mSegments.lower_bound(address)`: the first segment whose back is at least `address`. */
  function LowerBound(s: seq<Segment>, address: nat): (k: nat)
    ensures k <= |s|
    ensures forall i :: 0 <= i < k ==> s[i].range.back < address
    ensures k < |s| ==> s[k].range.back >= address
  {
    if |s| == 0 then 0
    else if s[0].range.back >= address then 0
    else 1 + LowerBound(s[1..], address)
  }

  /** `mSegments.upper_bound(address)`: the first segment whose back is above `address`. */
  function UpperBound(s: seq<Segment>, address: nat): (k: nat)
    ensures k <= |s|
    ensures forall i :: 0 <= i < k ==> s[i].range.back <= address
    ensures k < |s| ==> s[k].range.back > address
  {
    if |s| == 0 then 0
    else if s[0].range.back > address then 0
    else 1 + UpperBound(s[1..], address)
  }

  /** `innerAdjacent`: the ranges share their front or their back. */
  predicate InnerAdjacent(a: Range, b: Range) { a.front == b.front || a.back == b.back }

  /**
   * `seg` cut at `lo` and `hi`: the parts below and above keep its owners,
   * the part between gets `midOwners` and is gone when that is 0.
   */
  function Pieces(seg: Segment, lo: nat, hi: nat, midOwners: nat): seq<Segment>
  {
    Below(seg, lo) + Middle(lo, hi, midOwners) + Above(seg, hi)
  }

  function Below(seg: Segment, lo: nat): seq<Segment>
  {
    if seg.range.front < lo then [Segment(seg.owners, Range(seg.range.front, lo))] else []
  }

  function Middle(lo: nat, hi: nat, midOwners: nat): seq<Segment>
  {
    if midOwners > 0 then [Segment(midOwners, Range(lo, hi))] else []
  }

  function Above(seg: Segment, hi: nat): seq<Segment>
  {
    if hi < seg.range.back then [Segment(seg.owners, Range(hi, seg.range.back))] else []
  }

  /** One owner fewer on every owned address of `range`, the rest unchanged. */
  ghost predicate ReleasedIn(before: seq<Segment>, after: seq<Segment>, range: Range)
  {
    forall x: nat :: OwnersAt(after, x) == (if ContainsAddr(range, x) && OwnersAt(before, x) > 0 then OwnersAt(before, x) - 1 else OwnersAt(before, x))
  }

  /** One owner more on every owned address of `range`, the rest unchanged. */
  ghost predicate RetainedIn(before: seq<Segment>, after: seq<Segment>, range: Range)
  {
    forall x: nat :: OwnersAt(after, x) == (if ContainsAddr(range, x) && OwnersAt(before, x) > 0 then OwnersAt(before, x) + 1 else OwnersAt(before, x))
  }

  /** No address of `range` has an owner. */
  ghost predicate Unowned(s: seq<Segment>, range: Range)
  {
    forall x: nat :: ContainsAddr(range, x) ==> OwnersAt(s, x) == 0
  }

  /**
   * The ranges `release` handles within one segment or none: no segment
   * reaches the range; the range ends within the segment it first reaches;
   * it starts at the back of one segment and ends exactly at the back of
   * the next; or it starts at the back of the last segment.
   */
  predicate ReleaseModelled(s: seq<Segment>, range: Range)
  {
    var k := LowerBound(s, range.front);
    var e := LowerBound(s, range.back);
    k == |s| ||
    (k == e && s[k].range.front <= range.back) ||
    (k + 1 == e < |s| && s[k].range.back == range.front && s[e].range.back == range.back) ||
    (e == |s| && k == |s| - 1 && s[k].range.back == range.front)
  }

  /**
   * The ranges `retain` handles within one segment or none: no segment
   * reaches the range, or the range lies within the segment it first
   * reaches, or starts below it and ends strictly inside it.
   */
  predicate RetainModelled(s: seq<Segment>, range: Range)
  {
    var k := LowerBound(s, range.front);
    var e := LowerBound(s, range.back);
    k == |s| ||
    (k == e && (Contains(s[k].range, range) || range.front < s[k].range.front < range.back < s[k].range.back))
  }

  /**
   * The part of the segment `release` reaches that it cuts out for
   * `range`, chosen by the same tests in the same order as `release`;
   * None when the segment only begins where the range ends. Every branch
   * cuts exactly the overlap of the two.
   */
  function ReleaseCut(seg: Range, range: Range): (cut: Option<Range>)
    requires seg.front < seg.back && range.front < range.back
    requires seg.front <= range.back <= seg.back
    ensures cut.None? <==> seg.front == range.back
    ensures cut.Some? ==>
      cut.value == Range(Max(seg.front, range.front), Min(seg.back, range.back)) && cut.value.front < cut.value.back
  {
    if seg == range then Some(seg)
    else if Contains(seg, range) && !InnerAdjacent(seg, range) then Some(range)
    else if Contains(seg, range) && seg.front == range.front then Some(Range(seg.front, range.back))
    else if ContainsAddr(seg, range.front) && seg.back == range.back then Some(Range(range.front, seg.back))
    else if seg.front == range.back then None
    else if seg.front > range.front && ContainsAddr(seg, range.back) then Some(Range(seg.front, range.back))
    else Some(seg)
  }

  /**
   * The part of the segment `retain` reaches that it gives one more owner,
   * chosen by the same tests in the same order as `retain`: the overlap of
   * the two.
   */
  function RetainCut(seg: Range, range: Range): (cut: Range)
    requires seg.front < seg.back && range.front < range.back
    requires Contains(seg, range) || range.front < seg.front < range.back < seg.back
    ensures cut == Range(Max(seg.front, range.front), Min(seg.back, range.back)) && cut.front < cut.back
  {
    if seg == range then seg
    else if Contains(seg, range) && !InnerAdjacent(seg, range) then range
    else if ContainsAddr(seg, range.back) && seg.front == range.front then Range(seg.front, range.back)
    else if ContainsAddr(seg, range.front) && seg.back == range.back then Range(range.front, seg.back)
    else Range(seg.front, range.back)
  }

  class MemoryManager {
    var segments: seq<Segment>

    predicate Valid()
      reads this
    {
      SegmentsValid(segments)
    }

    /** `create`: a manager over a fresh heap holds no segments. */
    constructor Create()
      ensures Valid() && segments == []
    {
      segments := [];
    }

    /**
     * `allocate`: the heap's allocation, when there is one, becomes a
     * segment with one owner; OutOfMemory otherwise. The heap hands out
     * memory no segment holds.
     */
    method Allocate(allocation: Option<Range>) returns (status: OsStatus, range: Range)
      requires Valid()
      requires allocation.Some? ==>
        allocation.value.front < allocation.value.back &&
        forall i :: 0 <= i < |segments| ==> Disjoint(segments[i].range, allocation.value)
      modifies this
      ensures allocation.None? ==> status == OutOfMemory && segments == old(segments)
      ensures allocation.Some? ==> status == Success && range == allocation.value
      ensures Valid()
      ensures status == Success ==>
        multiset(segments) == multiset(old(segments)) + multiset{Segment(1, range)} &&
        UsedBytes(segments) == old(UsedBytes(segments)) + Size(range) &&
        forall x: nat :: OwnersAt(segments, x) == (if ContainsAddr(range, x) then 1 else OwnersAt(old(segments), x))
    {
      if allocation.None? {
        return OutOfMemory, Empty;
      }
      range := allocation.value;
      var k := LowerBound(segments, range.back);
      InsertFacts(segments, k, Segment(1, range));
      assert segments == segments[..k] + segments[k..];
      segments := segments[..k] + [Segment(1, range)] + segments[k..];
      status := Success;
    }

    /**
     * `querySegment`: the segment holding `address`, found by the first
     * segment ending above it; NotFound when no segment holds it.
     */
    method QuerySegment(address: nat) returns (status: OsStatus, stats: Segment)
      requires Valid()
      ensures status == Success || status == NotFound
      ensures status == NotFound <==> OwnersAt(segments, address) == 0
      ensures status == Success ==> ContainsAddr(stats.range, address) && stats.owners == OwnersAt(segments, address)
    {
      var k := UpperBound(segments, address);
      if k == |segments| {
        BelowAllUnowned(segments, k, address);
        return NotFound, Segment(0, Empty);
      }
      stats := segments[k];
      if !ContainsAddr(stats.range, address) {
        BelowAllUnowned(segments, k, address);
        return NotFound, Segment(0, Empty);
      }
      OwnersAtIndex(segments, k, address);
      status := Success;
    }

    /** `stats`: the number of segments. */
    method Stats() returns (count: nat)
      ensures count == |segments|
    {
      count := |segments|;
    }

    /**
     * `release`: one owner fewer on every owned address of `range`; a piece
     * of a segment that loses its last owner is handed back to the heap.
     * NotFound, changing nothing, when no segment holds any of it.
     */
    method Release(range: Range) returns (status: OsStatus)
      requires Valid() && range.front < range.back && ReleaseModelled(segments, range)
      modifies this
      ensures Valid()
      ensures status == Success || status == NotFound
      ensures status == NotFound ==> segments == old(segments) && Unowned(segments, range)
      ensures status == Success ==> ReleasedIn(old(segments), segments, range)
      ensures UsedBytes(segments) <= old(UsedBytes(segments))
      ensures forall j :: 0 <= j < |old(segments)| && old(segments)[j] == Segment(1, range) ==>
        status == Success && segments == old(segments)[..j] + old(segments)[j + 1..] &&
        UsedBytes(segments) + Size(range) == old(UsedBytes(segments))
    {
      var s := segments;
      var k := LowerBound(s, range.front);
      var e := LowerBound(s, range.back);
      var t: seq<Segment>;
      if k < |s| && k == e {
        var seg := s[k];
        assert seg.range.front <= range.back;
        var cut := ReleaseCut(seg.range, range);
        if cut.None? {
          ReleaseMissing(s, range);
          return NotFound;
        }
        t := s[..k] + Pieces(seg, cut.value.front, cut.value.back, seg.owners - 1) + s[k + 1..];
        ReleaseInOne(s, range, t);
      } else if k + 1 == e < |s| && s[k].range.back == range.front && s[e].range.back == range.back {
        var seg := s[e];
        t := s[..e] + Pieces(seg, seg.range.front, seg.range.back, seg.owners - 1) + s[e + 1..];
        ReleaseInNext(s, range, t);
      } else {
        ReleaseMissing(s, range);
        return NotFound;
      }
      segments := t;
      status := Success;
    }

    /**
     * `retain`: one owner more on every owned address of `range`, splitting
     * the segment where the range starts or ends inside it. NotFound,
     * changing nothing, when every segment lies below the range.
     */
    method Retain(range: Range) returns (status: OsStatus)
      requires Valid() && range.front < range.back && RetainModelled(segments, range)
      modifies this
      ensures Valid()
      ensures status == Success || status == NotFound
      ensures status == NotFound ==> segments == old(segments) && Unowned(segments, range)
      ensures status == Success ==> RetainedIn(old(segments), segments, range)
      ensures UsedBytes(segments) == old(UsedBytes(segments))
      ensures forall j :: 0 <= j < |old(segments)| && old(segments)[j].range == range ==>
        status == Success && segments == old(segments)[j := old(segments)[j].(owners := old(segments)[j].owners + 1)]
    {
      var s := segments;
      var k := LowerBound(s, range.front);
      if k == |s| {
        RetainMissing(s, range);
        return NotFound;
      }
      var seg := s[k];
      var cut := RetainCut(seg.range, range);
      segments := s[..k] + Pieces(seg, cut.front, cut.back, seg.owners + 1) + s[k + 1..];
      RetainInOne(s, range, k, cut, segments);
      status := Success;
    }
  }

  // ---- Owner counts over the sorted segment list ----

  /** A segment's addresses have that segment's owner count. */
  lemma {:induction false} OwnersAtIndex(s: seq<Segment>, k: nat, x: nat)
    requires SegmentsValid(s) && k < |s| && ContainsAddr(s[k].range, x)
    ensures OwnersAt(s, x) == s[k].owners
    decreases k
  {
    if k > 0 {
      assert Precedes(s, 0, k);
      assert SegmentsValid(s[1..]) by {
        forall i, j | 0 <= i < j < |s[1..]| ensures Precedes(s[1..], i, j) {
          assert Precedes(s, i + 1, j + 1);
        }
      }
      OwnersAtIndex(s[1..], k - 1, x);
    }
  }

  /** An address no segment holds has no owner. */
  lemma {:induction false} OwnersAtNone(s: seq<Segment>, x: nat)
    requires forall i :: 0 <= i < |s| ==> !ContainsAddr(s[i].range, x)
    ensures OwnersAt(s, x) == 0
    decreases |s|
  {
    if |s| > 0 {
      OwnersAtNone(s[1..], x);
    }
  }

  /** Segments that do not hold `x` can be skipped. */
  lemma {:induction false} OwnersAtSkip(a: seq<Segment>, b: seq<Segment>, x: nat)
    requires forall i :: 0 <= i < |a| ==> !ContainsAddr(a[i].range, x)
    ensures OwnersAt(a + b, x) == OwnersAt(b, x)
    decreases |a|
  {
    if |a| > 0 {
      assert (a + b)[0] == a[0] && !ContainsAddr(a[0].range, x);
      assert (a + b)[1..] == a[1..] + b;
      OwnersAtSkip(a[1..], b, x);
    } else {
      assert a + b == b;
    }
  }

  /** A segment that holds `x` decides its count. */
  lemma {:induction false} OwnersAtFound(a: seq<Segment>, b: seq<Segment>, x: nat, k: nat)
    requires k < |a| && ContainsAddr(a[k].range, x)
    requires forall i :: 0 <= i < k ==> !ContainsAddr(a[i].range, x)
    ensures OwnersAt(a + b, x) == OwnersAt(a, x) == a[k].owners
    decreases k
  {
    if k > 0 {
      assert (a + b)[1..] == a[1..] + b;
      OwnersAtFound(a[1..], b, x, k - 1);
    }
  }

  /** An address below the back of every segment from `k` on, and above the backs before `k`, is unowned unless segment `k` holds it. */
  lemma BelowAllUnowned(s: seq<Segment>, k: nat, x: nat)
    requires SegmentsValid(s) && k <= |s|
    requires forall i :: 0 <= i < k ==> s[i].range.back <= x
    requires k < |s| ==> x < s[k].range.back && !ContainsAddr(s[k].range, x)
    ensures OwnersAt(s, x) == 0
  {
    forall i | 0 <= i < |s|
      ensures !ContainsAddr(s[i].range, x)
    {
      if i > k {
        assert Precedes(s, k, i);
      }
    }
    OwnersAtNone(s, x);
  }

  /** When every segment ends below the range's front, the range is unowned. */
  lemma UnownedAbove(s: seq<Segment>, range: Range)
    requires SegmentsValid(s) && LowerBound(s, range.front) == |s|
    ensures Unowned(s, range)
  {
    forall x: nat | ContainsAddr(range, x)
      ensures OwnersAt(s, x) == 0
    {
      BelowAllUnowned(s, |s|, x);
    }
  }

  /** A range that ends where the segment it first reaches begins is unowned. */
  lemma OnlySegmentUnowned(s: seq<Segment>, k: nat, range: Range)
    requires SegmentsValid(s) && k == LowerBound(s, range.front) < |s| && s[k].range.front == range.back
    ensures Unowned(s, range)
  {
    forall x: nat | ContainsAddr(range, x)
      ensures OwnersAt(s, x) == 0
    {
      forall i | 0 <= i < |s|
        ensures !ContainsAddr(s[i].range, x)
      {
        if i > k {
          assert Precedes(s, k, i);
        }
      }
      OwnersAtNone(s, x);
    }
  }

  /** A range that starts at or above the back of every segment is unowned. */
  lemma EveryBackBelowUnowned(s: seq<Segment>, range: Range)
    requires forall i :: 0 <= i < |s| ==> s[i].range.back <= range.front
    ensures Unowned(s, range)
  {
    forall x: nat | ContainsAddr(range, x)
      ensures OwnersAt(s, x) == 0
    {
      OwnersAtNone(s, x);
    }
  }

  /** A segment whose range is exactly `range` is the one `lower_bound` reaches, or the next when the one before touches. */
  lemma ExactSegmentIsFound(s: seq<Segment>, range: Range)
    requires SegmentsValid(s)
    ensures forall j :: 0 <= j < |s| && s[j].range == range ==>
      var k := LowerBound(s, range.front);
      LowerBound(s, range.back) == j && (k == j || (k + 1 == j && s[k].range.back == range.front))
  {
    forall j | 0 <= j < |s| && s[j].range == range
      ensures var k := LowerBound(s, range.front);
        LowerBound(s, range.back) == j && (k == j || (k + 1 == j && s[k].range.back == range.front))
    {
      forall i | 0 <= i < j
        ensures s[i].range.back < range.back
      {
        assert Precedes(s, i, j);
      }
      if j > 0 {
        assert Precedes(s, j - 1, j);
        forall i | 0 <= i < j - 1
          ensures s[i].range.back < range.front
        {
          assert Precedes(s, i, j - 1);
        }
      }
    }
  }

  /** A segment exactly `range` that retain reaches is the one it bumps. */
  lemma ExactSegmentIsKept(s: seq<Segment>, k: nat, range: Range)
    requires SegmentsValid(s) && k == LowerBound(s, range.front) < |s| && range.front < range.back
    requires k == LowerBound(s, range.back)
    ensures forall j :: 0 <= j < |s| && s[j].range == range ==> j == k
  {
    ExactSegmentIsFound(s, range);
  }

  // ---- The outcomes of release and retain ----

  /** `release` finds nothing to release: the range is unowned and no segment is exactly it. */
  lemma ReleaseMissing(s: seq<Segment>, range: Range)
    requires SegmentsValid(s) && range.front < range.back && ReleaseModelled(s, range)
    requires var k, e := LowerBound(s, range.front), LowerBound(s, range.back);
      !(k < |s| && k == e && s[k].range.front != range.back) &&
      !(k + 1 == e < |s| && s[k].range.back == range.front && s[e].range.back == range.back)
    ensures Unowned(s, range)
    ensures forall j :: 0 <= j < |s| ==> s[j].range != range
  {
    var k, e := LowerBound(s, range.front), LowerBound(s, range.back);
    ExactSegmentIsFound(s, range);
    if k == |s| {
      UnownedAbove(s, range);
    } else if k == e {
      OnlySegmentUnowned(s, k, range);
    } else {
      assert forall i :: 0 <= i < |s| ==> s[i].range.back <= range.front;
      EveryBackBelowUnowned(s, range);
    }
  }

  /** `release` within the one segment it reaches. */
  lemma ReleaseInOne(s: seq<Segment>, range: Range, t: seq<Segment>)
    requires SegmentsValid(s) && range.front < range.back
    requires var k := LowerBound(s, range.front);
      k == LowerBound(s, range.back) < |s| && s[k].range.front <= range.back &&
      var cut := ReleaseCut(s[k].range, range);
      cut.Some? && t == s[..k] + Pieces(s[k], cut.value.front, cut.value.back, s[k].owners - 1) + s[k + 1..]
    ensures SegmentsValid(t) && ReleasedIn(s, t, range) && UsedBytes(t) <= UsedBytes(s)
    ensures forall j :: 0 <= j < |s| && s[j] == Segment(1, range) ==>
      t == s[..j] + s[j + 1..] && UsedBytes(t) + Size(range) == UsedBytes(s)
  {
    var k := LowerBound(s, range.front);
    var cut := ReleaseCut(s[k].range, range);
    ExactSegmentIsFound(s, range);
    ReleasedOne(s, k, range, cut.value.front, cut.value.back);
  }

  /** `release` of the whole segment after the one whose back the range starts at. */
  lemma ReleaseInNext(s: seq<Segment>, range: Range, t: seq<Segment>)
    requires SegmentsValid(s) && range.front < range.back
    requires var k, e := LowerBound(s, range.front), LowerBound(s, range.back);
      k + 1 == e < |s| && s[k].range.back == range.front && s[e].range.back == range.back &&
      t == s[..e] + Pieces(s[e], s[e].range.front, s[e].range.back, s[e].owners - 1) + s[e + 1..]
    ensures SegmentsValid(t) && ReleasedIn(s, t, range) && UsedBytes(t) <= UsedBytes(s)
    ensures forall j :: 0 <= j < |s| && s[j] == Segment(1, range) ==>
      t == s[..j] + s[j + 1..] && UsedBytes(t) + Size(range) == UsedBytes(s)
  {
    var k := LowerBound(s, range.front);
    ExactSegmentIsFound(s, range);
    ReleasedNext(s, k, range);
  }

  /** `retain` finds every segment below the range: it is unowned and no segment is exactly it. */
  lemma RetainMissing(s: seq<Segment>, range: Range)
    requires SegmentsValid(s) && range.front < range.back && LowerBound(s, range.front) == |s|
    ensures Unowned(s, range)
    ensures forall j :: 0 <= j < |s| ==> s[j].range != range
  {
    UnownedAbove(s, range);
  }

  /** `retain` within the one segment it reaches, segment `k`, cutting `cut` out of it. */
  lemma RetainInOne(s: seq<Segment>, range: Range, k: nat, cut: Range, t: seq<Segment>)
    requires SegmentsValid(s) && range.front < range.back && RetainModelled(s, range)
    requires k == LowerBound(s, range.front) < |s| && cut == RetainCut(s[k].range, range)
    requires t == s[..k] + Pieces(s[k], cut.front, cut.back, s[k].owners + 1) + s[k + 1..]
    ensures SegmentsValid(t) && RetainedIn(s, t, range) && UsedBytes(t) == UsedBytes(s)
    ensures forall j :: 0 <= j < |s| && s[j].range == range ==> t == s[j := s[j].(owners := s[j].owners + 1)]
  {
    RetainedOne(s, k, range, cut.front, cut.back);
    ExactSegmentIsKept(s, k, range);
    forall j | 0 <= j < |s| && s[j].range == range
      ensures t == s[j := s[j].(owners := s[j].owners + 1)]
    {
      assert j == k;
    }
  }

  // ---- Replacing one segment by its pieces ----

  /** The pieces of a segment are valid, in order, and lie inside it. */
  lemma PiecesValid(seg: Segment, lo: nat, hi: nat, n: nat)
    requires seg.range.front <= lo < hi <= seg.range.back && seg.owners > 0
    ensures var p := Pieces(seg, lo, hi, n);
      SegmentsValid(p) && forall i :: 0 <= i < |p| ==> Contains(seg.range, p[i].range)
  {
    var a, m, c := Below(seg, lo), Middle(lo, hi, n), Above(seg, hi);
    var p := a + m + c;
    forall i | 0 <= i < |p|
      ensures (i < |a| ==> p[i] == a[0]) && (|a| <= i < |a| + |m| ==> p[i] == m[0]) && (|a| + |m| <= i ==> p[i] == c[0])
    {
    }
    forall i, j | 0 <= i < j < |p|
      ensures Precedes(p, i, j)
    {
    }
  }

  /** The pieces hold the segment's bytes, less the middle when it is gone. */
  lemma PiecesUsed(seg: Segment, lo: nat, hi: nat, n: nat)
    requires seg.range.front <= lo < hi <= seg.range.back
    ensures UsedBytes(Pieces(seg, lo, hi, n)) + (hi - lo) == Size(seg.range) + (if n > 0 then hi - lo else 0)
  {
    var a, m, c := Below(seg, lo), Middle(lo, hi, n), Above(seg, hi);
    UsedConcat(a + m, c);
    UsedConcat(a, m);
  }

  /** Within the segment, the middle has `n` owners and the rest keeps the segment's. */
  lemma PiecesOwners(seg: Segment, lo: nat, hi: nat, n: nat, x: nat)
    requires seg.range.front <= lo < hi <= seg.range.back && ContainsAddr(seg.range, x)
    ensures OwnersAt(Pieces(seg, lo, hi, n), x) == if lo <= x < hi then n else seg.owners
  {
    var a, m, c := Below(seg, lo), Middle(lo, hi, n), Above(seg, hi);
    assert a + m + c == a + (m + c);
    if x < lo {
      OwnersAtFound(a, m + c, x, 0);
    } else if x < hi {
      OwnersAtSkip(a, m + c, x);
      if n > 0 {
        OwnersAtFound(m, c, x, 0);
      } else {
        assert m + c == c;
        OwnersAtNone(c, x);
      }
    } else {
      OwnersAtSkip(a, m + c, x);
      OwnersAtSkip(m, c, x);
      OwnersAtFound(c, [], x, 0);
    }
  }

  lemma {:induction false} UsedConcat(a: seq<Segment>, b: seq<Segment>)
    requires forall i :: 0 <= i < |a| ==> IsValid(a[i].range)
    requires forall i :: 0 <= i < |b| ==> IsValid(b[i].range)
    ensures UsedBytes(a + b) == UsedBytes(a) + UsedBytes(b)
    decreases |a|
  {
    if |a| > 0 {
      assert (a + b)[0] == a[0] && (a + b)[1..] == a[1..] + b;
      UsedConcat(a[1..], b);
    } else {
      assert a + b == b;
    }
  }

  /**
   * Replacing segment `k` by pieces that lie inside it keeps the list
   * valid, changes the counts only on that segment's addresses, and
   * changes the bytes held by the pieces' difference.
   */
  lemma Splice(s: seq<Segment>, k: nat, p: seq<Segment>)
    requires SegmentsValid(s) && k < |s| && SegmentsValid(p)
    requires forall i :: 0 <= i < |p| ==> Contains(s[k].range, p[i].range)
    ensures var t := s[..k] + p + s[k + 1..];
      SegmentsValid(t) &&
      UsedBytes(t) + Size(s[k].range) == UsedBytes(s) + UsedBytes(p) &&
      forall x: nat :: OwnersAt(t, x) == if ContainsAddr(s[k].range, x) then OwnersAt(p, x) else OwnersAt(s, x)
  {
    var a, c := s[..k], s[k + 1..];
    var t := a + p + c;
    SpliceValid(s, k, p);
    assert s == a + [s[k]] + c;
    UsedConcat(a + p, c);
    UsedConcat(a, p);
    UsedConcat(a + [s[k]], c);
    UsedConcat(a, [s[k]]);
    forall x: nat
      ensures OwnersAt(t, x) == if ContainsAddr(s[k].range, x) then OwnersAt(p, x) else OwnersAt(s, x)
    {
      SpliceAt(s, k, p, x);
    }
  }

  lemma SpliceValid(s: seq<Segment>, k: nat, p: seq<Segment>)
    requires SegmentsValid(s) && k < |s| && SegmentsValid(p)
    requires forall i :: 0 <= i < |p| ==> Contains(s[k].range, p[i].range)
    ensures SegmentsValid(s[..k] + p + s[k + 1..])
  {
    var t := s[..k] + p + s[k + 1..];
    forall i | 0 <= i < |t|
      ensures i < k ==> t[i] == s[i]
      ensures k <= i < k + |p| ==> t[i] == p[i - k]
      ensures k + |p| <= i ==> t[i] == s[i - |p| + 1]
    {
    }
    forall i, j | 0 <= i < j < |t|
      ensures Precedes(t, i, j)
    {
      if j < k {
        assert Precedes(s, i, j);
      } else if i < k && j < k + |p| {
        assert Precedes(s, i, k);
      } else if i < k {
        assert Precedes(s, i, j - |p| + 1);
      } else if j < k + |p| {
        assert Precedes(p, i - k, j - k);
      } else if i < k + |p| {
        assert Precedes(s, k, j - |p| + 1);
      } else {
        assert Precedes(s, i - |p| + 1, j - |p| + 1);
      }
    }
  }

  lemma SpliceAt(s: seq<Segment>, k: nat, p: seq<Segment>, x: nat)
    requires SegmentsValid(s) && k < |s| && SegmentsValid(p)
    requires forall i :: 0 <= i < |p| ==> Contains(s[k].range, p[i].range)
    ensures OwnersAt(s[..k] + p + s[k + 1..], x) == if ContainsAddr(s[k].range, x) then OwnersAt(p, x) else OwnersAt(s, x)
  {
    var a, c := s[..k], s[k + 1..];
    assert s == a + ([s[k]] + c);
    assert s[..k] + p + s[k + 1..] == a + (p + c);
    SpliceParts(s, k, a, c);
    SpliceOwners(a, s[k], c, p, x);
  }

  /** The segments before `k` are in order and below it; those after it are above it. */
  lemma SpliceParts(s: seq<Segment>, k: nat, a: seq<Segment>, c: seq<Segment>)
    requires SegmentsValid(s) && k < |s| && a == s[..k] && c == s[k + 1..]
    ensures SegmentsValid(a)
    ensures forall i :: 0 <= i < |a| ==> a[i].range.back <= s[k].range.front
    ensures forall j :: 0 <= j < |c| ==> s[k].range.back <= c[j].range.front
  {
    forall i, j | 0 <= i < j < |a|
      ensures Precedes(a, i, j)
    {
      assert Precedes(s, i, j);
    }
    forall i | 0 <= i < k
      ensures a[i].range.back <= s[k].range.front
    {
      assert Precedes(s, i, k);
    }
    forall j | 0 <= j < |c|
      ensures s[k].range.back <= c[j].range.front
    {
      assert Precedes(s, k, k + 1 + j);
    }
  }

  /** Replacing `seg` between `a` and `c` by pieces inside it changes the counts on its addresses only. */
  lemma SpliceOwners(a: seq<Segment>, seg: Segment, c: seq<Segment>, p: seq<Segment>, x: nat)
    requires SegmentsValid(a) && SegmentsValid(p)
    requires forall i :: 0 <= i < |a| ==> a[i].range.back <= seg.range.front
    requires forall j :: 0 <= j < |c| ==> seg.range.back <= c[j].range.front
    requires forall i :: 0 <= i < |p| ==> Contains(seg.range, p[i].range)
    ensures OwnersAt(a + (p + c), x) == if ContainsAddr(seg.range, x) then OwnersAt(p, x) else OwnersAt(a + ([seg] + c), x)
  {
    if i :| 0 <= i < |a| && ContainsAddr(a[i].range, x) {
      forall j | 0 <= j < i
        ensures !ContainsAddr(a[j].range, x)
      {
        assert Precedes(a, j, i);
      }
      OwnersAtFound(a, p + c, x, i);
      OwnersAtFound(a, [seg] + c, x, i);
    } else {
      OwnersAtSkip(a, p + c, x);
      OwnersAtSkip(a, [seg] + c, x);
      if ContainsAddr(seg.range, x) {
        PiecesDecide(seg, c, p, x);
      } else {
        OwnersAtSkip(p, c, x);
        OwnersAtSkip([seg], c, x);
      }
    }
  }

  /** An address of `seg` has the count the pieces give it, whatever lies above. */
  lemma PiecesDecide(seg: Segment, c: seq<Segment>, p: seq<Segment>, x: nat)
    requires SegmentsValid(p) && ContainsAddr(seg.range, x)
    requires forall j :: 0 <= j < |c| ==> seg.range.back <= c[j].range.front
    requires forall i :: 0 <= i < |p| ==> Contains(seg.range, p[i].range)
    ensures OwnersAt(p + c, x) == OwnersAt(p, x)
  {
    OwnersAtNone(c, x);
    if i :| 0 <= i < |p| && ContainsAddr(p[i].range, x) {
      forall j | 0 <= j < i
        ensures !ContainsAddr(p[j].range, x)
      {
        assert Precedes(p, j, i);
      }
      OwnersAtFound(p, c, x, i);
    } else {
      OwnersAtSkip(p, c, x);
      OwnersAtNone(p, x);
    }
  }

  /**
   * Segment `k` cut at `lo` and `hi` with `n` owners in between: the list
   * stays valid, and what changes is confined to `[lo, hi)`.
   */
  lemma ReplaceOne(s: seq<Segment>, k: nat, lo: nat, hi: nat, n: nat)
    requires SegmentsValid(s) && k < |s| && s[k].range.front <= lo < hi <= s[k].range.back
    ensures var t := s[..k] + Pieces(s[k], lo, hi, n) + s[k + 1..];
      SegmentsValid(t) &&
      UsedBytes(t) + (hi - lo) == UsedBytes(s) + (if n > 0 then hi - lo else 0) &&
      forall x: nat :: OwnersAt(t, x) ==
        if ContainsAddr(s[k].range, x) then (if lo <= x < hi then n else s[k].owners) else OwnersAt(s, x)
  {
    var p := Pieces(s[k], lo, hi, n);
    PiecesValid(s[k], lo, hi, n);
    PiecesUsed(s[k], lo, hi, n);
    Splice(s, k, p);
    forall x: nat | ContainsAddr(s[k].range, x)
      ensures OwnersAt(p, x) == if lo <= x < hi then n else s[k].owners
    {
      PiecesOwners(s[k], lo, hi, n, x);
    }
  }

  /**
   * Within one segment, `[lo, hi)` is the part of the range it holds: an
   * address of the range is owned exactly when it lies in that part.
   */
  lemma CutOwners(s: seq<Segment>, k: nat, range: Range, lo: nat, hi: nat, x: nat)
    requires SegmentsValid(s) && k == LowerBound(s, range.front) == LowerBound(s, range.back) < |s|
    requires lo == Max(s[k].range.front, range.front) && hi == Min(s[k].range.back, range.back)
    ensures ContainsAddr(s[k].range, x) ==> OwnersAt(s, x) == s[k].owners > 0
    ensures ContainsAddr(range, x) && OwnersAt(s, x) > 0 <==> ContainsAddr(s[k].range, x) && lo <= x < hi
  {
    if ContainsAddr(s[k].range, x) {
      OwnersAtIndex(s, k, x);
    } else if ContainsAddr(range, x) {
      OutsideOneUnowned(s, k, range, x);
    }
  }

  /** Dropping an owner on the part of segment `k` the range covers releases the range. */
  lemma ReleasedOne(s: seq<Segment>, k: nat, range: Range, lo: nat, hi: nat)
    requires SegmentsValid(s) && k == LowerBound(s, range.front) == LowerBound(s, range.back) < |s|
    requires lo == Max(s[k].range.front, range.front) && hi == Min(s[k].range.back, range.back) && lo < hi
    ensures var t := s[..k] + Pieces(s[k], lo, hi, s[k].owners - 1) + s[k + 1..];
      SegmentsValid(t) && ReleasedIn(s, t, range) && UsedBytes(t) <= UsedBytes(s) &&
      (s[k] == Segment(1, range) ==> t == s[..k] + s[k + 1..] && UsedBytes(t) + Size(range) == UsedBytes(s))
  {
    var n := s[k].owners - 1;
    var t := s[..k] + Pieces(s[k], lo, hi, n) + s[k + 1..];
    ReplaceOne(s, k, lo, hi, n);
    forall x: nat
      ensures OwnersAt(t, x) == (if ContainsAddr(range, x) && OwnersAt(s, x) > 0 then OwnersAt(s, x) - 1 else OwnersAt(s, x))
    {
      CutOwners(s, k, range, lo, hi, x);
    }
    if s[k] == Segment(1, range) {
      assert Pieces(s[k], lo, hi, n) == [];
    }
  }

  /** Adding an owner on the part of segment `k` the range covers retains the range. */
  lemma RetainedOne(s: seq<Segment>, k: nat, range: Range, lo: nat, hi: nat)
    requires SegmentsValid(s) && k == LowerBound(s, range.front) == LowerBound(s, range.back) < |s|
    requires lo == Max(s[k].range.front, range.front) && hi == Min(s[k].range.back, range.back) && lo < hi
    ensures var t := s[..k] + Pieces(s[k], lo, hi, s[k].owners + 1) + s[k + 1..];
      SegmentsValid(t) && RetainedIn(s, t, range) && UsedBytes(t) == UsedBytes(s) &&
      (s[k].range == range ==> t == s[k := s[k].(owners := s[k].owners + 1)])
  {
    var n := s[k].owners + 1;
    var t := s[..k] + Pieces(s[k], lo, hi, n) + s[k + 1..];
    ReplaceOne(s, k, lo, hi, n);
    forall x: nat
      ensures OwnersAt(t, x) == (if ContainsAddr(range, x) && OwnersAt(s, x) > 0 then OwnersAt(s, x) + 1 else OwnersAt(s, x))
    {
      CutOwners(s, k, range, lo, hi, x);
    }
    if s[k].range == range {
      WholeSegmentBumped(s, k, n);
    }
  }

  /** Replacing a whole segment by one piece with `n` owners just changes its count. */
  lemma WholeSegmentBumped(s: seq<Segment>, k: nat, n: nat)
    requires k < |s| && n > 0
    ensures s[..k] + Pieces(s[k], s[k].range.front, s[k].range.back, n) + s[k + 1..] == s[k := s[k].(owners := n)]
  {
    assert Pieces(s[k], s[k].range.front, s[k].range.back, n) == [s[k].(owners := n)];
  }

  /** Only segment `k` can hold an address of a range that no other segment ends in. */
  lemma OutsideOneUnowned(s: seq<Segment>, k: nat, range: Range, x: nat)
    requires SegmentsValid(s) && k == LowerBound(s, range.front) == LowerBound(s, range.back) < |s|
    requires ContainsAddr(range, x) && !ContainsAddr(s[k].range, x)
    ensures OwnersAt(s, x) == 0
  {
    forall i | 0 <= i < |s|
      ensures !ContainsAddr(s[i].range, x)
    {
      if i > k {
        assert Precedes(s, k, i);
      }
    }
    OwnersAtNone(s, x);
  }

  /** Releasing the whole next segment, when the range starts at the back of the one before. */
  lemma ReleasedNext(s: seq<Segment>, k: nat, range: Range)
    requires SegmentsValid(s) && k == LowerBound(s, range.front) && k + 1 < |s|
    requires s[k].range.back == range.front && s[k + 1].range.back == range.back
    ensures var e := k + 1;
      var t := s[..e] + Pieces(s[e], s[e].range.front, s[e].range.back, s[e].owners - 1) + s[e + 1..];
      SegmentsValid(t) && ReleasedIn(s, t, range) && UsedBytes(t) <= UsedBytes(s) &&
      (s[e] == Segment(1, range) ==> t == s[..e] + s[e + 1..] && UsedBytes(t) + Size(range) == UsedBytes(s))
  {
    var e := k + 1;
    var seg := s[e];
    var n := seg.owners - 1;
    var t := s[..e] + Pieces(seg, seg.range.front, seg.range.back, n) + s[e + 1..];
    ReplaceOne(s, e, seg.range.front, seg.range.back, n);
    assert Precedes(s, k, e);
    forall x: nat
      ensures OwnersAt(t, x) == (if ContainsAddr(range, x) && OwnersAt(s, x) > 0 then OwnersAt(s, x) - 1 else OwnersAt(s, x))
    {
      if ContainsAddr(seg.range, x) {
        OwnersAtIndex(s, e, x);
      } else if ContainsAddr(range, x) {
        forall i | 0 <= i < |s|
          ensures !ContainsAddr(s[i].range, x)
        {
          if i > e {
            assert Precedes(s, e, i);
          }
        }
        OwnersAtNone(s, x);
      }
    }
    if s[e] == Segment(1, range) {
      assert Pieces(seg, seg.range.front, seg.range.back, n) == [];
    }
  }

  /** Inserting a segment disjoint from all others at its `lower_bound` position. */
  lemma InsertFacts(s: seq<Segment>, k: nat, seg: Segment)
    requires SegmentsValid(s) && seg.range.front < seg.range.back && seg.owners > 0
    requires forall i :: 0 <= i < |s| ==> Disjoint(s[i].range, seg.range)
    requires k == LowerBound(s, seg.range.back)
    ensures var t := s[..k] + [seg] + s[k..];
      SegmentsValid(t) && |t| == |s| + 1 &&
      UsedBytes(t) == UsedBytes(s) + Size(seg.range) &&
      forall x: nat :: OwnersAt(t, x) == if ContainsAddr(seg.range, x) then seg.owners else OwnersAt(s, x)
  {
    var a, c := s[..k], s[k..];
    var t := a + [seg] + c;
    assert s == a + c;
    InsertPlace(s, k, seg);
    InsertValid(s, k, seg);
    UsedConcat(a + [seg], c);
    UsedConcat(a, [seg]);
    UsedConcat(a, c);
    forall x: nat
      ensures OwnersAt(t, x) == if ContainsAddr(seg.range, x) then seg.owners else OwnersAt(s, x)
    {
      InsertOwners(s, k, seg, x);
    }
  }

  /** The new segment lies above every segment before its position and below every one from it on. */
  lemma InsertPlace(s: seq<Segment>, k: nat, seg: Segment)
    requires SegmentsValid(s) && seg.range.front < seg.range.back
    requires forall i :: 0 <= i < |s| ==> Disjoint(s[i].range, seg.range)
    requires k == LowerBound(s, seg.range.back)
    ensures forall i :: 0 <= i < k ==> s[i].range.back <= seg.range.front
    ensures forall i :: k <= i < |s| ==> seg.range.back <= s[i].range.front
  {
    forall i | k < i < |s|
      ensures s[k].range.back <= s[i].range.front
    {
      assert Precedes(s, k, i);
    }
  }

  lemma InsertValid(s: seq<Segment>, k: nat, seg: Segment)
    requires SegmentsValid(s) && seg.range.front < seg.range.back && seg.owners > 0 && k <= |s|
    requires forall i :: 0 <= i < k ==> s[i].range.back <= seg.range.front
    requires forall i :: k <= i < |s| ==> seg.range.back <= s[i].range.front
    ensures SegmentsValid(s[..k] + [seg] + s[k..])
  {
    var t := s[..k] + [seg] + s[k..];
    forall i | 0 <= i < |t|
      ensures i < k ==> t[i] == s[i]
      ensures i == k ==> t[i] == seg
      ensures k < i ==> t[i] == s[i - 1]
    {
    }
    forall i, j | 0 <= i < j < |t|
      ensures Precedes(t, i, j)
    {
      if j < k {
        assert Precedes(s, i, j);
      } else if i < k && k < j {
        assert Precedes(s, i, j - 1);
      } else if k < i {
        assert Precedes(s, i - 1, j - 1);
      }
    }
  }

  lemma InsertOwners(s: seq<Segment>, k: nat, seg: Segment, x: nat)
    requires SegmentsValid(s) && seg.range.front < seg.range.back && k <= |s|
    requires forall i :: 0 <= i < k ==> s[i].range.back <= seg.range.front
    requires forall i :: k <= i < |s| ==> seg.range.back <= s[i].range.front
    ensures OwnersAt(s[..k] + [seg] + s[k..], x) == if ContainsAddr(seg.range, x) then seg.owners else OwnersAt(s, x)
  {
    var a, c := s[..k], s[k..];
    assert s == a + c;
    assert a + [seg] + c == a + ([seg] + c);
    if i :| 0 <= i < |a| && ContainsAddr(a[i].range, x) {
      forall j | 0 <= j < i ensures !ContainsAddr(a[j].range, x) {
        assert a[j] == s[j] && a[i] == s[i];
        assert Precedes(s, j, i);
      }
      OwnersAtFound(a, [seg] + c, x, i);
      OwnersAtFound(a, c, x, i);
    } else {
      OwnersAtSkip(a, [seg] + c, x);
      OwnersAtSkip(a, c, x);
      if !ContainsAddr(seg.range, x) {
        assert ([seg] + c)[1..] == c;
      }
    }
  }

  // ---- The release of a range that starts at a segment's back ----

  /**
   * `release` as written, for a range that starts at the back of the
   * segment `lower_bound` finds while no segment ends at or beyond the
   * range's back: NotFound, whatever segments lie inside the range.
   */
  predicate ReleaseReportsNotFoundAsWritten(s: seq<Segment>, range: Range)
  {
    var k := LowerBound(s, range.front);
    var e := LowerBound(s, range.back);
    k < |s| && k != e && e == |s| && s[k].range.back == range.front
  }

  /**
   * Segments `[0, 10)` and `[20, 30)`: releasing `[10, 40)` reports
   * NotFound although `[20, 30)` lies inside it and has an owner, while
   * releasing `[11, 40)` reaches it.
   */
  lemma ReleaseAsWrittenMissesInnerSegment()
    ensures var s := [Segment(1, Range(0, 10)), Segment(1, Range(20, 30))];
      SegmentsValid(s) && ReleaseReportsNotFoundAsWritten(s, Range(10, 40)) &&
      !ReleaseFindsNothing(s, Range(10, 40)) &&
      ContainsAddr(Range(10, 40), 20) && OwnersAt(s, 20) == 1 &&
      !ReleaseReportsNotFoundAsWritten(s, Range(11, 40))
  {
    var s := [Segment(1, Range(0, 10)), Segment(1, Range(20, 30))];
    assert Precedes(s, 0, 1);
    assert s[1..][1..] == [];
    assert LowerBound(s, 10) == 0;
    assert LowerBound(s[1..], 40) == 1;
    assert LowerBound(s, 11) == 1;
  }

  /**
   * When `release` should report NotFound: no segment shares an address
   * with the range, wherever the range starts.
   */
  predicate ReleaseFindsNothing(s: seq<Segment>, range: Range)
  {
    forall i :: 0 <= i < |s| ==> Disjoint(s[i].range, range)
  }

  /** The intended NotFound holds exactly when no address of the range has an owner. */
  lemma FindsNothingIffUnowned(s: seq<Segment>, range: Range)
    requires SegmentsValid(s) && range.front < range.back
    ensures ReleaseFindsNothing(s, range) <==> Unowned(s, range)
  {
    if ReleaseFindsNothing(s, range) {
      forall x: nat | ContainsAddr(range, x)
        ensures OwnersAt(s, x) == 0
      {
        forall i | 0 <= i < |s|
          ensures !ContainsAddr(s[i].range, x)
        {
          assert Disjoint(s[i].range, range);
        }
        OwnersAtNone(s, x);
      }
    } else {
      var i :| 0 <= i < |s| && !Disjoint(s[i].range, range);
      var x := Max(s[i].range.front, range.front);
      OwnersAtIndex(s, i, x);
      assert ContainsAddr(range, x) && OwnersAt(s, x) > 0;
    }
  }
}
