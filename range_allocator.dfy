/**
 * The range-list allocator of memory/range_allocator.hpp: a list of free
 * address ranges that is merged, marked as used, and split to hand out
 * allocations. The list is a `seq<Range>`; `ranges.remove(i)` is
 * `RemoveAt`, which shifts the later ranges down, and `ranges.add(x)`
 * appends.
 */
module RangeAllocation {
  import opened Util
  import opened Ranges
  import opened Seqs

  /** Some range of the list holds the address. */
  ghost predicate Covers(rs: seq<Range>, x: nat)
  {
    exists r :: r in rs && ContainsAddr(r, x)
  }

  predicate AllValid(rs: seq<Range>)
  {
    forall i :: 0 <= i < |rs| ==> IsValid(rs[i])
  }

  /** No two ranges of the list (at different positions) share an address. */
  predicate PairwiseDisjoint(rs: seq<Range>)
  {
    forall i, j {:trigger Disjoint(rs[i], rs[j])} :: 0 <= i < j < |rs| ==> Disjoint(rs[i], rs[j])
  }

  predicate SortedByFront(rs: seq<Range>)
  {
    forall i, j :: 0 <= i < j < |rs| ==> rs[i].front <= rs[j].front
  }

  /**
   * The normal form `MergeRanges` produces: no empty range, and each range
   * ends strictly before the next one starts.
   */
  predicate Merged(rs: seq<Range>)
  {
    (forall i :: 0 <= i < |rs| ==> IsValid(rs[i]) && !IsEmpty(rs[i]))
    && (forall i :: 0 <= i < |rs| - 1 ==> rs[i].back < rs[i + 1].front)
  }

  /** A merged list is sorted, and no two of its ranges are `interval`-related. */
  lemma {:induction false} MergedIsSeparated(rs: seq<Range>)
    requires Merged(rs)
    ensures forall i, j :: 0 <= i < j < |rs| ==> rs[i].back < rs[j].front
    ensures SortedByFront(rs) && PairwiseDisjoint(rs) && AllValid(rs)
    ensures forall i, j :: 0 <= i < j < |rs| ==> !Interval(rs[i], rs[j]) && !Interval(rs[j], rs[i])
  {
    forall i, j | 0 <= i < j < |rs|
      ensures rs[i].back < rs[j].front
    {
      ChainGap(rs, i, j);
    }
    forall i, j | 0 <= i < j < |rs|
      ensures !Interval(rs[i], rs[j]) && !Interval(rs[j], rs[i])
    {
      IntervalIffNoGap(rs[i], rs[j]);
      IntervalIffNoGap(rs[j], rs[i]);
    }
  }

  lemma {:induction false} ChainGap(rs: seq<Range>, i: nat, j: nat)
    requires Merged(rs) && i < j < |rs|
    ensures rs[i].back < rs[j].front
    decreases j - i
  {
    if i + 1 < j {
      ChainGap(rs, i + 1, j);
    }
  }

  // ---------------------------------------------------------------------
  // SortRanges

  predicate SortedAdjacent(rs: seq<Range>)
  {
    forall i :: 0 <= i < |rs| - 1 ==> rs[i].front <= rs[i + 1].front
  }

  lemma {:induction false} AdjacentSorted(rs: seq<Range>)
    requires SortedAdjacent(rs)
    ensures SortedByFront(rs)
  {
    forall i, j | 0 <= i < j < |rs|
      ensures rs[i].front <= rs[j].front
    {
      AdjacentSortedStep(rs, i, j);
    }
  }

  lemma {:induction false} AdjacentSortedStep(rs: seq<Range>, i: nat, j: nat)
    requires SortedAdjacent(rs) && i < j < |rs|
    ensures rs[i].front <= rs[j].front
    decreases j - i
  {
    if i + 1 < j {
      AdjacentSortedStep(rs, i + 1, j);
    }
  }

  function InsertByFront(r: Range, rs: seq<Range>): (t: seq<Range>)
    requires SortedAdjacent(rs)
    ensures SortedAdjacent(t) && |t| == |rs| + 1
    ensures multiset(t) == multiset(rs) + multiset{r}
    ensures t[0] == r || (|rs| > 0 && t[0] == rs[0])
  {
    if |rs| == 0 then [r]
    else if r.front <= rs[0].front then [r] + rs
    else
      assert rs == [rs[0]] + rs[1..];
      [rs[0]] + InsertByFront(r, rs[1..])
  }

  /**
   * `SortRanges`: the list ordered by front. `std::sort` is modelled by one
   * particular sort (insertion by front).
   */
  function SortRanges(rs: seq<Range>): (t: seq<Range>)
    ensures SortedByFront(t) && |t| == |rs|
    ensures multiset(t) == multiset(rs)
  {
    var t := SortRangesAdjacent(rs);
    AdjacentSorted(t);
    t
  }

  function SortRangesAdjacent(rs: seq<Range>): (t: seq<Range>)
    ensures SortedAdjacent(t) && |t| == |rs|
    ensures multiset(t) == multiset(rs)
  {
    if |rs| == 0 then []
    else
      assert rs == [rs[0]] + rs[1..];
      InsertByFront(rs[0], SortRangesAdjacent(rs[1..]))
  }

  /** A permutation covers the same addresses and keeps validity. */
  lemma PermutationKeepsCover(s: seq<Range>, t: seq<Range>)
    requires multiset(s) == multiset(t)
    ensures forall x :: Covers(s, x) <==> Covers(t, x)
    ensures AllValid(s) <==> AllValid(t)
  {
    forall r
      ensures r in s <==> r in t
    {
      assert r in s <==> r in multiset(s);
      assert r in t <==> r in multiset(t);
    }
    if AllValid(s) {
      forall i | 0 <= i < |t|
        ensures IsValid(t[i])
      {
        assert t[i] in s;
      }
    }
    if AllValid(t) {
      forall i | 0 <= i < |s|
        ensures IsValid(s[i])
      {
        assert s[i] in t;
      }
    }
  }

  /** A value that occurs twice in a list occupies two positions. */
  lemma {:induction false} TwoPositions(s: seq<Range>, v: Range)
    requires multiset(s)[v] >= 2
    ensures exists i, j :: 0 <= i < j < |s| && s[i] == v && s[j] == v
  {
    assert s == [s[0]] + s[1..];
    if s[0] == v {
      assert v in multiset(s[1..]);
      var j :| 0 <= j < |s[1..]| && s[1..][j] == v;
      assert s[j + 1] == v;
    } else {
      TwoPositions(s[1..], v);
      var i, j :| 0 <= i < j < |s[1..]| && s[1..][i] == v && s[1..][j] == v;
      assert s[i + 1] == v && s[j + 1] == v;
    }
  }

  /** Disjointness of a list depends only on its multiset. */
  lemma PermutationKeepsDisjoint(s: seq<Range>, t: seq<Range>)
    requires multiset(s) == multiset(t) && PairwiseDisjoint(s)
    ensures PairwiseDisjoint(t)
  {
    forall i, j | 0 <= i < j < |t|
      ensures Disjoint(t[i], t[j])
    {
      assert t[i] in multiset(s) && t[j] in multiset(s);
      if t[i] == t[j] {
        assert multiset(t)[t[i]] >= 2 by {
          var rest := t[..i] + t[i + 1..];
          assert t == t[..i] + [t[i]] + t[i + 1..];
          assert t[j] in rest by {
            assert rest[j - 1] == t[j];
          }
          assert multiset(t) == multiset(rest) + multiset{t[i]};
        }
        TwoPositions(s, t[i]);
      } else {
        var a :| 0 <= a < |s| && s[a] == t[i];
        var b :| 0 <= b < |s| && s[b] == t[j];
        if a < b {
          assert Disjoint(s[a], s[b]);
        } else {
          assert Disjoint(s[b], s[a]);
          DisjointIff(s[b], s[a]);
        }
      }
    }
  }

  // ---------------------------------------------------------------------
  // MergeRanges

  lemma RemoveEmptyKeepsCover(rs: seq<Range>, i: nat)
    requires i < |rs| && IsEmpty(rs[i])
    ensures forall x :: Covers(RemoveAt(rs, i), x) <==> Covers(rs, x)
  {
    forall x
      ensures Covers(RemoveAt(rs, i), x) <==> Covers(rs, x)
    {
      if Covers(rs, x) {
        var r :| r in rs && ContainsAddr(r, x);
        InRemoveAt(rs, i, r);
      }
      if Covers(RemoveAt(rs, i), x) {
        var r :| r in RemoveAt(rs, i) && ContainsAddr(r, x);
        InRemoveAt(rs, i, r);
      }
    }
  }

  /** Replacing two interval-related ranges by their merge keeps the covered addresses. */
  lemma MergeStepKeepsCover(rs: seq<Range>, i: nat, j: nat)
    requires i < j < |rs| && IsValid(rs[i]) && IsValid(rs[j]) && Interval(rs[i], rs[j])
    ensures forall x :: Covers(RemoveAt(rs[i := Merge(rs[i], rs[j])], j), x) <==> Covers(rs, x)
  {
    var m := Merge(rs[i], rs[j]);
    var t := RemoveAt(rs[i := m], j);
    MergeOfIntervalIsUnion(rs[i], rs[j]);
    assert t[i] == m;
    forall x
      ensures Covers(t, x) <==> Covers(rs, x)
    {
      if Covers(rs, x) {
        var k :| 0 <= k < |rs| && ContainsAddr(rs[k], x);
        if k == i || k == j {
          assert m in t;
        } else if k < j {
          assert t[k] == rs[k];
        } else {
          assert t[k - 1] == rs[k];
        }
      }
      if Covers(t, x) {
        var k :| 0 <= k < |t| && ContainsAddr(t[k], x);
        if k == i {
          assert rs[i] in rs && rs[j] in rs;
        } else if k < j {
          assert rs[k] in rs;
        } else {
          assert rs[k + 1] in rs;
        }
      }
    }
  }

  /** Past a separated neighbour, no later range of a sorted list can touch `rs[i]`. */
  lemma SeparatedPastNext(rs: seq<Range>, i: nat, j: nat)
    requires i < j < |rs| && AllValid(rs) && SortedByFront(rs)
    requires forall m :: i < m < j ==> rs[i].back < rs[m].front
    ensures i + 1 < j ==> !Interval(rs[i], rs[j])
  {
    if i + 1 < j {
      assert rs[i + 1].front <= rs[j].front;
      IntervalIffNoGap(rs[i], rs[j]);
    }
  }

  /** One merge of the inner loop keeps what the loop relies on. */
  lemma MergeStepFacts(rs: seq<Range>, i: nat, j: nat)
    requires i < j < |rs| && AllValid(rs) && SortedByFront(rs) && !IsEmpty(rs[i])
    requires Interval(rs[i], rs[j])
    requires forall m :: i < m < j ==> rs[i].back < rs[m].front
    ensures j == i + 1
    ensures var t := RemoveAt(rs[i := Merge(rs[i], rs[j])], j);
      AllValid(t) && SortedByFront(t) && t[..i] == rs[..i]
      && t[i].front == rs[i].front && !IsEmpty(t[i])
      && (forall x :: Covers(t, x) <==> Covers(rs, x))
  {
    SeparatedPastNext(rs, i, j);
    IntervalIffNoGap(rs[i], rs[j]);
    MergeStepKeepsCover(rs, i, j);
  }

  /**
   * The inner loop of `MergeRanges`: merges into `rs[i]` every later range
   * it is `interval`-related to, removing the absorbed ranges.
   */
  method MergeFollowing(rs0: seq<Range>, i: nat) returns (rs: seq<Range>)
    requires i < |rs0| && AllValid(rs0) && SortedByFront(rs0) && !IsEmpty(rs0[i])
    ensures i < |rs| <= |rs0| && rs[..i] == rs0[..i]
    ensures rs[i].front == rs0[i].front && !IsEmpty(rs[i])
    ensures AllValid(rs) && SortedByFront(rs)
    ensures forall m :: i < m < |rs| ==> rs[i].back < rs[m].front
    ensures forall x :: Covers(rs, x) <==> Covers(rs0, x)
  {
    rs := rs0;
    var j := i + 1;
    while j < |rs|
      invariant i < j <= |rs| <= |rs0| && rs[..i] == rs0[..i]
      invariant rs[i].front == rs0[i].front && !IsEmpty(rs[i])
      invariant AllValid(rs) && SortedByFront(rs)
      invariant forall m :: i < m < j ==> rs[i].back < rs[m].front
      invariant forall x :: Covers(rs, x) <==> Covers(rs0, x)
      decreases |rs| - j
    {
      if Interval(rs[i], rs[j]) {
        MergeStepFacts(rs, i, j);
        rs := RemoveAt(rs[i := Merge(rs[i], rs[j])], j);
      } else {
        IntervalIffNoGap(rs[i], rs[j]);
        j := j + 1;
      }
    }
  }

  /** The outer loop of `MergeRanges` has merged the first `i` ranges. */
  ghost predicate MergedPrefix(rs: seq<Range>, i: nat, ranges: seq<Range>)
  {
    i <= |rs| && AllValid(rs) && SortedByFront(rs)
    && (forall k :: 0 <= k < i ==> !IsEmpty(rs[k]))
    && (i < |rs| ==> forall k :: 0 <= k < i ==> rs[k].back < rs[i].front)
    && (forall k :: 0 <= k < i - 1 ==> rs[k].back < rs[k + 1].front)
    && (forall x :: Covers(rs, x) <==> Covers(ranges, x))
  }

  lemma DropEmptyStep(rs: seq<Range>, i: nat, ranges: seq<Range>)
    requires MergedPrefix(rs, i, ranges) && i < |rs| && IsEmpty(rs[i])
    ensures MergedPrefix(RemoveAt(rs, i), i, ranges)
  {
    RemoveEmptyKeepsCover(rs, i);
    var t := RemoveAt(rs, i);
    if i < |t| {
      assert t[i] == rs[i + 1];
      assert rs[i].front <= rs[i + 1].front;
    }
  }

  lemma MergeFollowingStep(rs: seq<Range>, t: seq<Range>, i: nat, ranges: seq<Range>)
    requires MergedPrefix(rs, i, ranges) && i < |rs|
    requires i < |t| && t[..i] == rs[..i]
    requires t[i].front == rs[i].front && !IsEmpty(t[i])
    requires AllValid(t) && SortedByFront(t)
    requires forall m :: i < m < |t| ==> t[i].back < t[m].front
    requires forall x :: Covers(t, x) <==> Covers(rs, x)
    ensures MergedPrefix(t, i + 1, ranges)
  {
    assert forall k :: 0 <= k < i ==> t[k] == rs[k];
    if i + 1 < |t| {
      forall k | 0 <= k < i + 1
        ensures t[k].back < t[i + 1].front
      {
        if k < i {
          assert t[i].front <= t[i + 1].front;
        }
      }
    }
  }

  /**
   * `MergeRanges`: sorts the list, drops empty ranges and merges every pair
   * of `interval`-related ranges. The result is in merged normal form and
   * covers exactly the addresses the input covered.
   */
  method MergeRanges(ranges: seq<Range>) returns (rs: seq<Range>)
    requires AllValid(ranges)
    ensures Merged(rs)
    ensures forall x :: Covers(rs, x) <==> Covers(ranges, x)
  {
    rs := SortRanges(ranges);
    PermutationKeepsCover(ranges, rs);
    var i: nat := 0;
    while i < |rs|
      invariant MergedPrefix(rs, i, ranges)
      decreases |rs| - i
    {
      if IsEmpty(rs[i]) {
        DropEmptyStep(rs, i, ranges);
        rs := RemoveAt(rs, i);
        continue;
      }
      var merged := MergeFollowing(rs, i);
      MergeFollowingStep(rs, merged, i, ranges);
      rs := merged;
      i := i + 1;
    }
  }

  // ---------------------------------------------------------------------
  // MarkUsedArea

  /** The number of ranges in `rs` that contain `used`. */
  function CountContaining(rs: seq<Range>, used: Range): (n: nat)
    ensures n <= |rs|
  {
    if |rs| == 0 then 0
    else (if Contains(rs[0], used) then 1 else 0) + CountContaining(rs[1..], used)
  }

  lemma {:induction false} CountAppend(s: seq<Range>, t: seq<Range>, used: Range)
    ensures CountContaining(s + t, used) == CountContaining(s, used) + CountContaining(t, used)
  {
    if |s| > 0 {
      assert (s + t)[1..] == s[1..] + t;
      CountAppend(s[1..], t, used);
    } else {
      assert s + t == t;
    }
  }

  /** An address of a range is not an address of a range disjoint from it. */
  lemma DisjointAddr(a: Range, b: Range, x: nat)
    requires Disjoint(a, b) && ContainsAddr(a, x)
    ensures !ContainsAddr(b, x)
  {
  }

  /** Ranges without a common address are disjoint. */
  lemma DisjointByAddrs(a: Range, b: Range)
    requires forall x :: ContainsAddr(a, x) ==> !ContainsAddr(b, x)
    ensures Disjoint(a, b)
  {
    DisjointIff(a, b);
  }

  /**
   * One pass of the loop body of `MarkUsedArea` at index `i`: a range that
   * `used` contains is removed and `i` stays; a range that contains `used`
   * is replaced by the two pieces around it, appended at the end, and `i`
   * moves on (so the range that shifted into position `i` is skipped); a
   * range that `overlaps` (as written) is cut; any other range is kept.
   */
  function MarkUsedStep(rs: seq<Range>, i: nat, used: Range): (next: (seq<Range>, nat))
    requires i < |rs| && AllValid(rs) && IsValid(used)
    ensures AllValid(next.0) && next.1 <= |next.0|
  {
    var a := rs[i];
    if Contains(used, a) then
      (RemoveAt(rs, i), i)
    else if Contains(a, used) then
      var halves := SplitAround(a, used);
      (RemoveAt(rs, i) + [halves.0, halves.1], i + 1)
    else if OverlapsAsWritten(a, used) then
      (rs[i := Cut(a, used)], i + 1)
    else
      (rs, i + 1)
  }

  /** The facts the `MarkUsedArea` loop keeps, with `done` ranges already clear of `used`. */
  ghost predicate MarkInvariant(rs: seq<Range>, done: nat, ranges: seq<Range>, used: Range)
  {
    done <= |rs| && AllValid(rs) && PairwiseDisjoint(rs)
    && (forall k :: 0 <= k < done ==> Disjoint(rs[k], used))
    && (forall x :: Covers(rs, x) && !ContainsAddr(used, x) <==> Covers(ranges, x) && !ContainsAddr(used, x))
  }

  lemma MarkRemoveKeeps(rs: seq<Range>, i: nat, ranges: seq<Range>, used: Range)
    requires i < |rs| && MarkInvariant(rs, i, ranges, used) && Contains(used, rs[i])
    ensures MarkInvariant(RemoveAt(rs, i), i, ranges, used)
  {
    var t := RemoveAt(rs, i);
    forall x
      ensures Covers(t, x) && !ContainsAddr(used, x) <==> Covers(rs, x) && !ContainsAddr(used, x)
    {
      if Covers(t, x) {
        var r :| r in t && ContainsAddr(r, x);
        InRemoveAt(rs, i, r);
      }
      if Covers(rs, x) && !ContainsAddr(used, x) {
        var r :| r in rs && ContainsAddr(r, x);
        InRemoveAt(rs, i, r);
      }
    }
  }

  /** The list after a split step: the range at `i` replaced by the two pieces, at the end. */
  lemma MarkSplitShape(rs: seq<Range>, i: nat, used: Range)
    requires i < |rs| && AllValid(rs) && IsValid(used)
    requires Contains(rs[i], used) && !Contains(used, rs[i])
    ensures MarkUsedStep(rs, i, used) ==
      (RemoveAt(rs, i) + [SplitAround(rs[i], used).0, SplitAround(rs[i], used).1], i + 1)
  {
  }

  lemma MarkSplitDisjoint(rs: seq<Range>, i: nat, a: Range, l: Range, r: Range)
    requires i < |rs| && a == rs[i] && PairwiseDisjoint(rs)
    requires IsValid(l) && IsValid(r) && Contains(a, l) && Contains(a, r) && l.back <= r.front
    ensures PairwiseDisjoint(RemoveAt(rs, i) + [l, r])
  {
    var rest := RemoveAt(rs, i);
    var t := rest + [l, r];
    forall m, n | 0 <= m < n < |t|
      ensures Disjoint(t[m], t[n])
    {
      if n < |rest| {
        var m', n' := if m < i then m else m + 1, if n < i then n else n + 1;
        assert t[m] == rs[m'] && t[n] == rs[n'] && m' < n';
      } else if m < |rest| {
        var m' := if m < i then m else m + 1;
        assert t[m] == rs[m'] && m' != i;
        if m' < i {
          assert Disjoint(rs[m'], a);
          DisjointIff(rs[m'], a);
        }
        DisjointSubrange(a, t[n], rs[m']);
        DisjointIff(t[n], rs[m']);
      }
    }
  }

  lemma MarkSplitCover(rs: seq<Range>, i: nat, used: Range, l: Range, r: Range)
    requires i < |rs| && IsValid(used)
    requires forall x :: ContainsAddr(rs[i], x) <==> ContainsAddr(l, x) || ContainsAddr(used, x) || ContainsAddr(r, x)
    requires Contains(rs[i], l) && Contains(rs[i], r)
    ensures forall x :: Covers(RemoveAt(rs, i) + [l, r], x) && !ContainsAddr(used, x) <==>
      Covers(rs, x) && !ContainsAddr(used, x)
  {
    var a := rs[i];
    var rest := RemoveAt(rs, i);
    var t := rest + [l, r];
    forall x
      ensures Covers(t, x) && !ContainsAddr(used, x) <==> Covers(rs, x) && !ContainsAddr(used, x)
    {
      if Covers(t, x) {
        var w :| w in t && ContainsAddr(w, x);
        if w in rest {
          InRemoveAt(rs, i, w);
        } else {
          assert a in rs;
        }
      }
      if Covers(rs, x) && !ContainsAddr(used, x) {
        var w :| w in rs && ContainsAddr(w, x);
        if w == a {
          assert l in t && r in t;
        } else {
          InRemoveAt(rs, i, w);
          assert w in t;
        }
      }
    }
  }

  lemma MarkSplitCount(rs: seq<Range>, i: nat, used: Range, l: Range, r: Range)
    requires i < |rs| && Contains(rs[i], used) && !Contains(l, used) && !Contains(r, used)
    ensures CountContaining((RemoveAt(rs, i) + [l, r])[i + 1..], used) < CountContaining(rs[i..], used)
  {
    var t := RemoveAt(rs, i) + [l, r];
    assert rs[i..][1..] == rs[i + 1..];
    if i + 1 < |rs| {
      assert t[i + 1..] == rs[i + 2..] + [l, r];
      assert rs[i + 1..][1..] == rs[i + 2..];
      CountAppend(rs[i + 2..], [l, r], used);
      assert [l, r][1..] == [r];
    } else {
      assert t[i + 1..] == [r];
    }
  }

  lemma MarkSplitKeeps(rs: seq<Range>, i: nat, ranges: seq<Range>, used: Range)
    requires i < |rs| && MarkInvariant(rs, i, ranges, used)
    requires IsValid(used) && !IsEmpty(used) && Contains(rs[i], used) && !Contains(used, rs[i])
    ensures MarkInvariant(MarkUsedStep(rs, i, used).0, i + 1, ranges, used)
    ensures CountContaining(MarkUsedStep(rs, i, used).0[i + 1..], used) < CountContaining(rs[i..], used)
  {
    var a := rs[i];
    var halves := SplitAround(a, used);
    var l, r := halves.0, halves.1;
    var t := RemoveAt(rs, i) + [l, r];
    MarkSplitShape(rs, i, used);
    MarkSplitDisjoint(rs, i, a, l, r);
    MarkSplitCover(rs, i, used, l, r);
    MarkSplitCount(rs, i, used, l, r);
    // the range that moves into position `i` is skipped: it is clear of `used`
    forall k | 0 <= k < i + 1
      ensures Disjoint(t[k], used)
    {
      if k == i && i + 1 < |rs| {
        assert t[i] == rs[i + 1];
        DisjointSubrange(a, used, rs[i + 1]);
      } else if k < i {
        assert t[k] == rs[k];
      }
    }
  }

  lemma MarkCutKeeps(rs: seq<Range>, i: nat, ranges: seq<Range>, used: Range)
    requires i < |rs| && MarkInvariant(rs, i, ranges, used) && IsValid(used) && !IsEmpty(used)
    requires !Contains(rs[i], used) && !Contains(used, rs[i])
    ensures MarkInvariant(MarkUsedStep(rs, i, used).0, i + 1, ranges, used)
    ensures MarkUsedStep(rs, i, used).0[i + 1..] == rs[i + 1..]
  {
    var a := rs[i];
    if !OverlapsAsWritten(a, used) {
      if !IsEmpty(a) {
        OverlapsAsWrittenDiffers(a, used);
        OverlapsMeaning(a, used);
        DisjointIff(a, used);
      }
      return;
    }
    var c := Cut(a, used);
    var t := rs[i := c];
    assert t == MarkUsedStep(rs, i, used).0;
    assert forall x :: ContainsAddr(c, x) <==> ContainsAddr(a, x) && !ContainsAddr(used, x);
    DisjointByAddrs(c, used);
    forall m, n | 0 <= m < n < |t|
      ensures Disjoint(t[m], t[n])
    {
      if m == i {
        forall x | ContainsAddr(c, x)
          ensures !ContainsAddr(t[n], x)
        {
          DisjointAddr(a, rs[n], x);
        }
        DisjointByAddrs(c, t[n]);
      } else if n == i {
        DisjointIff(rs[m], a);
        forall x | ContainsAddr(c, x)
          ensures !ContainsAddr(t[m], x)
        {
          DisjointAddr(a, rs[m], x);
        }
        DisjointByAddrs(c, t[m]);
        DisjointIff(c, t[m]);
      }
    }
    forall x
      ensures Covers(t, x) && !ContainsAddr(used, x) <==> Covers(rs, x) && !ContainsAddr(used, x)
    {
      if Covers(t, x) {
        var k :| 0 <= k < |t| && ContainsAddr(t[k], x);
        assert rs[k] in rs;
      }
      if Covers(rs, x) && !ContainsAddr(used, x) {
        var k :| 0 <= k < |rs| && ContainsAddr(rs[k], x);
        assert t[k] in t;
      }
    }
  }

  /** Up to `n` passes of the `MarkUsedArea` loop, stopping when the index reaches the end. */
  function MarkUsedRun(rs: seq<Range>, i: nat, used: Range, n: nat): (state: (seq<Range>, nat))
    requires i <= |rs| && AllValid(rs) && IsValid(used)
    ensures AllValid(state.0) && state.1 <= |state.0|
    ensures n == 0 ==> state == (rs, i)
    decreases n
  {
    if n == 0 || i == |rs| then (rs, i)
    else
      var next := MarkUsedStep(rs, i, used);
      MarkUsedRun(next.0, next.1, used, n - 1)
  }

  /**
   * With an empty `used` range inside a free range the loop never ends: the
   * piece `[used.front, back)` contains the empty range again and is split
   * into an empty piece and itself, appended after the index each time.
   */
  lemma {:induction false} EmptyUsedKeepsSplitting(rs: seq<Range>, n: nat)
    requires |rs| > 0 && AllValid(rs) && rs[|rs| - 1] == Range(0x2000, 0x3000)
    ensures var state := MarkUsedRun(rs, |rs| - 1, Range(0x2000, 0x2000), n);
      state.1 == |state.0| - 1 && state.0[state.1] == Range(0x2000, 0x3000)
    decreases n
  {
    if n > 0 {
      var next := EmptyUsedSplitsLast(rs);
      EmptyUsedKeepsSplitting(next, n - 1);
    }
  }

  /** One step of that loop: the last piece is split into an empty piece and itself. */
  lemma EmptyUsedSplitsLast(rs: seq<Range>) returns (next: seq<Range>)
    requires |rs| > 0 && AllValid(rs) && rs[|rs| - 1] == Range(0x2000, 0x3000)
    ensures MarkUsedStep(rs, |rs| - 1, Range(0x2000, 0x2000)) == (next, |rs|)
    ensures |next| == |rs| + 1 && AllValid(next) && next[|rs|] == Range(0x2000, 0x3000)
  {
    var used := Range(0x2000, 0x2000);
    MarkSplitShape(rs, |rs| - 1, used);
    next := RemoveAt(rs, |rs| - 1) + [Range(0x2000, 0x2000), Range(0x2000, 0x3000)];
  }

  /** Reserving the empty range at 0x2000 out of the free range [0x1000, 0x3000) never finishes. */
  lemma MarkUsedAreaEmptyNeverEnds(n: nat)
    ensures var state := MarkUsedRun([Range(0x1000, 0x3000)], 0, Range(0x2000, 0x2000), n);
      state.1 < |state.0|
  {
    var used := Range(0x2000, 0x2000);
    if n > 0 {
      var start := [Range(0x1000, 0x3000)];
      MarkSplitShape(start, 0, used);
      var next := MarkUsedStep(start, 0, used);
      assert RemoveAt(start, 0) == [];
      assert SplitAround(start[0], used) == (Range(0x1000, 0x2000), Range(0x2000, 0x3000));
      assert [] + [Range(0x1000, 0x2000), Range(0x2000, 0x3000)] == [Range(0x1000, 0x2000), Range(0x2000, 0x3000)];
      assert next == ([Range(0x1000, 0x2000), Range(0x2000, 0x3000)], 1);
      EmptyUsedKeepsSplitting(next.0, n - 1);
    }
  }

  /**
   * `MarkUsedArea`: removes the addresses of `used` from a list of disjoint
   * free ranges. Afterwards no range shares an address with `used`, the
   * list is still pairwise disjoint, and every address outside `used` is
   * free exactly when it was free before. An empty `used` range leaves the
   * list as it is (see the finding on `MarkUsedStep`).
   */
  method MarkUsedArea(ranges: seq<Range>, used: Range) returns (rs: seq<Range>)
    requires AllValid(ranges) && PairwiseDisjoint(ranges) && IsValid(used)
    ensures AllValid(rs) && PairwiseDisjoint(rs)
    ensures forall k :: 0 <= k < |rs| ==> Disjoint(rs[k], used)
    ensures forall x :: Covers(rs, x) <==> Covers(ranges, x) && !ContainsAddr(used, x)
  {
    rs := ranges;
    if IsEmpty(used) {
      return;
    }
    var i: nat := 0;
    while i < |rs|
      invariant MarkInvariant(rs, i, ranges, used)
      decreases CountContaining(rs[i..], used), |rs| - i
    {
      var a := rs[i];
      if Contains(used, a) {
        MarkRemoveKeeps(rs, i, ranges, used);
        assert RemoveAt(rs, i)[i..] == rs[i + 1..];
        assert rs[i..][1..] == rs[i + 1..];
      } else if Contains(a, used) {
        MarkSplitKeeps(rs, i, ranges, used);
      } else {
        MarkCutKeeps(rs, i, ranges, used);
        assert rs[i..][1..] == rs[i + 1..];
      }
      rs, i := MarkUsedStep(rs, i, used).0, MarkUsedStep(rs, i, used).1;
    }
    forall x | Covers(rs, x)
      ensures !ContainsAddr(used, x)
    {
      var k :| 0 <= k < |rs| && ContainsAddr(rs[k], x);
      DisjointAddr(rs[k], used, x);
    }
  }

  // ---------------------------------------------------------------------
  // Handing out a range: split, add both pieces, remove the original

  /** `freeSpace`: the total size of the free ranges (a left fold, as `std::accumulate`). */
  function SumSizes(rs: seq<Range>): nat
    requires AllValid(rs)
  {
    if |rs| == 0 then 0 else SumSizes(rs[..|rs| - 1]) + Size(rs[|rs| - 1])
  }

  lemma SumAppend(rs: seq<Range>, r: Range)
    requires AllValid(rs) && IsValid(r)
    ensures AllValid(rs + [r]) && SumSizes(rs + [r]) == SumSizes(rs) + Size(r)
  {
    assert (rs + [r])[..|rs|] == rs;
  }

  lemma {:induction false} SumRemoveAt(rs: seq<Range>, k: nat)
    requires k < |rs| && AllValid(rs)
    ensures SumSizes(RemoveAt(rs, k)) + Size(rs[k]) == SumSizes(rs)
  {
    var n := |rs| - 1;
    if k == n {
      assert RemoveAt(rs, k) == rs[..n];
    } else {
      assert RemoveAt(rs, k) == RemoveAt(rs[..n], k) + [rs[n]];
      SumRemoveAt(rs[..n], k);
      SumAppend(RemoveAt(rs[..n], k), rs[n]);
    }
  }

  /** No range of a disjoint list other than `rs[k]` holds an address of a part of `rs[k]`. */
  lemma OthersExclude(rs: seq<Range>, k: nat, taken: Range, x: nat)
    requires k < |rs| && PairwiseDisjoint(rs) && Contains(rs[k], taken) && ContainsAddr(taken, x)
    ensures forall w :: w in RemoveAt(rs, k) ==> !ContainsAddr(w, x)
  {
    forall w | w in RemoveAt(rs, k)
      ensures !ContainsAddr(w, x)
    {
      var m :| 0 <= m < |RemoveAt(rs, k)| && RemoveAt(rs, k)[m] == w;
      var m' := if m < k then m else m + 1;
      assert w == rs[m'];
      if m' < k {
        assert Disjoint(rs[m'], rs[k]);
      } else {
        assert Disjoint(rs[k], rs[m']);
        DisjointIff(rs[k], rs[m']);
      }
      DisjointIff(rs[k], w);
      DisjointAddr(rs[k], w, x);
    }
  }

  /**
   * The list after `taken` is handed out of `rs[k]`: the pieces of `rs[k]`
   * either side of `taken` are added at the end and `rs[k]` is removed.
   * The list stays well formed and the free total drops by the size of
   * `taken`; `SplitOutCovers` says which addresses stay free.
   */
  function SplitOut(rs: seq<Range>, k: nat, taken: Range): (t: seq<Range>)
    requires k < |rs| && AllValid(rs) && PairwiseDisjoint(rs)
    requires IsValid(taken) && Contains(rs[k], taken)
    ensures AllValid(t) && PairwiseDisjoint(t)
    ensures SumSizes(t) + Size(taken) == SumSizes(rs)
  {
    var halves := SplitAround(rs[k], taken);
    var l, r := halves.0, halves.1;
    var rest := RemoveAt(rs, k);
    var t := rest + [l, r];
    MarkSplitDisjoint(rs, k, rs[k], l, r);
    SumRemoveAt(rs, k);
    SumAppend(rest, l);
    SumAppend(rest + [l], r);
    assert rest + [l] + [r] == t;
    t
  }

  /** Exactly the addresses of `taken` stop being free when it is split out. */
  lemma SplitOutCovers(rs: seq<Range>, k: nat, taken: Range)
    requires k < |rs| && AllValid(rs) && PairwiseDisjoint(rs)
    requires IsValid(taken) && Contains(rs[k], taken)
    ensures forall x :: Covers(SplitOut(rs, k, taken), x) <==> Covers(rs, x) && !ContainsAddr(taken, x)
  {
    var halves := SplitAround(rs[k], taken);
    var l, r := halves.0, halves.1;
    var t := RemoveAt(rs, k) + [l, r];
    assert t == SplitOut(rs, k, taken);
    MarkSplitCover(rs, k, taken, l, r);
    forall x | ContainsAddr(taken, x)
      ensures !Covers(t, x) && Covers(rs, x)
    {
      OthersExclude(rs, k, taken, x);
      assert rs[k] in rs;
    }
  }

  /**
   * The outcome of an allocation from the free list: either `{}` with the
   * list unchanged, or a range inside one free range, split out of it.
   */
  ghost predicate HandedOut(ranges: seq<Range>, rs: seq<Range>, r: Range)
    requires AllValid(ranges) && PairwiseDisjoint(ranges)
  {
    (r == Empty && rs == ranges)
    || exists k :: 0 <= k < |ranges| && IsValid(r) && Contains(ranges[k], r) && rs == SplitOut(ranges, k, r)
  }

  /**
   * After an allocation the list is still well formed, exactly the handed
   * out addresses stop being free, they were free before, and the free
   * total drops by the size handed out.
   */
  lemma HandedOutFacts(ranges: seq<Range>, rs: seq<Range>, r: Range)
    requires AllValid(ranges) && PairwiseDisjoint(ranges) && HandedOut(ranges, rs, r)
    ensures AllValid(rs) && PairwiseDisjoint(rs) && IsValid(r)
    ensures forall x :: Covers(rs, x) <==> Covers(ranges, x) && !ContainsAddr(r, x)
    ensures forall x :: ContainsAddr(r, x) ==> Covers(ranges, x)
    ensures SumSizes(rs) + Size(r) == SumSizes(ranges)
  {
    if r == Empty && rs == ranges {
      forall x ensures !ContainsAddr(r, x) {}
    } else {
      var k :| 0 <= k < |ranges| && IsValid(r) && Contains(ranges[k], r) && rs == SplitOut(ranges, k, r);
      SplitOutCovers(ranges, k, r);
      forall x | ContainsAddr(r, x) ensures Covers(ranges, x) {
        assert ranges[k] in ranges && ContainsAddr(ranges[k], x);
      }
    }
  }

  // ---------------------------------------------------------------------
  // AllocateSpaceAligned

  /** The free range has room for `size` bytes from its first multiple of `align`. */
  predicate Fits(range: Range, size: nat, align: nat)
    requires IsValid(range) && align > 0
  {
    Size(range) >= size && RoundUp(range.front, align) + size <= range.back
  }

  /** The index of the first range that fits, or `|rs|` when none does. */
  function FirstFit(rs: seq<Range>, size: nat, align: nat): (k: nat)
    requires AllValid(rs) && align > 0
    ensures k <= |rs| && (k < |rs| ==> Fits(rs[k], size, align))
    ensures forall m :: 0 <= m < k ==> !Fits(rs[m], size, align)
  {
    if |rs| == 0 then 0
    else if Fits(rs[0], size, align) then 0
    else 1 + FirstFit(rs[1..], size, align)
  }

  /** The block of `size` bytes a fitting range hands out: at its first multiple of `align`. */
  function AlignedBlock(range: Range, size: nat, align: nat): (r: Range)
    requires IsValid(range) && align > 0 && Fits(range, size, align)
    ensures IsValid(r) && Size(r) == size && IsAligned(r.front, align) && Contains(range, r)
    ensures forall p: nat :: IsAligned(p, align) && range.front <= p ==> r.front <= p
  {
    var front := RoundUp(range.front, align);
    forall p: nat | IsAligned(p, align) && range.front <= p
      ensures front <= p
    {
      RoundUpIsLeast(p, range.front, align);
    }
    Range(front, front + size)
  }

  /**
   * `AllocateSpaceAligned`: the first range with room for `size` bytes at
   * an `align`-aligned address gives them up; without one the list is
   * unchanged and `{}` is returned.
   */
  method AllocateSpaceAligned(ranges: seq<Range>, size: nat, align: nat) returns (rs: seq<Range>, r: Range)
    requires align > 0 && AllValid(ranges) && PairwiseDisjoint(ranges)
    ensures HandedOut(ranges, rs, r)
    ensures var k := FirstFit(ranges, size, align);
      if k < |ranges| then
        r == AlignedBlock(ranges[k], size, align) && rs == SplitOut(ranges, k, r)
      else
        r == Empty && rs == ranges
  {
    var i := 0;
    while i < |ranges|
      invariant i <= |ranges|
      invariant forall m :: 0 <= m < i ==> !Fits(ranges[m], size, align)
    {
      var range := ranges[i];
      if Size(range) >= size {
        var front := RoundUp(range.front, align);
        var back := front + size;
        var aligned := Range(front, back);
        if back <= range.back {
          assert FirstFit(ranges, size, align) == i;
          assert aligned == AlignedBlock(range, size, align);
          rs := SplitOut(ranges, i, aligned);
          r := aligned;
          return;
        }
      }
      i := i + 1;
    }
    assert FirstFit(ranges, size, align) == |ranges|;
    rs, r := ranges, Empty;
  }

  // ---------------------------------------------------------------------
  // ClaimRangeIfAvailable

  /** The index of the first range that contains `request`, or `|rs|` when none does. */
  function FirstContaining(rs: seq<Range>, request: Range): (k: nat)
    ensures k <= |rs| && (k < |rs| ==> Contains(rs[k], request))
    ensures forall m :: 0 <= m < k ==> !Contains(rs[m], request)
  {
    if |rs| == 0 then 0
    else if Contains(rs[0], request) then 0
    else 1 + FirstContaining(rs[1..], request)
  }

  /** The first index whose range contains `request` is `FirstContaining`. */
  lemma FirstContainingIs(rs: seq<Range>, request: Range, i: nat)
    requires i <= |rs| && (i < |rs| ==> Contains(rs[i], request))
    requires forall m :: 0 <= m < i ==> !Contains(rs[m], request)
    ensures FirstContaining(rs, request) == i
  {
  }

  /**
   * `ClaimRangeIfAvailable`: a request that lies inside one free range is
   * handed out of the first such range; otherwise nothing changes and `{}`
   * is returned.
   */
  method ClaimRangeIfAvailable(ranges: seq<Range>, request: Range) returns (rs: seq<Range>, r: Range)
    requires AllValid(ranges) && PairwiseDisjoint(ranges) && IsValid(request)
    ensures HandedOut(ranges, rs, r)
    ensures var k := FirstContaining(ranges, request);
      if k < |ranges| then
        r == request && rs == SplitOut(ranges, k, request)
      else
        r == Empty && rs == ranges
  {
    var i := 0;
    while i < |ranges|
      invariant i <= |ranges|
      invariant forall m :: 0 <= m < i ==> !Contains(ranges[m], request)
    {
      var range := ranges[i];
      if Contains(range, request) {
        assert FirstContaining(ranges, request) == i;
        rs, r := SplitOut(ranges, i, request), request;
        return;
      }
      i := i + 1;
    }
    assert FirstContaining(ranges, request) == |ranges|;
    rs, r := ranges, Empty;
  }

  // ---------------------------------------------------------------------
  // FitDistance and AllocateSpaceHint

  /** `std::numeric_limits<intptr_t>::max()`, the starting "no candidate" distance. */
  const IntptrMax: int := 0x7FFF_FFFF_FFFF_FFFF

  /** `sm::magnitude`: the absolute value. */
  function Magnitude(d: int): nat
  {
    if d < 0 then -d else d
  }

  /** `FitDistance`: how far `other` has to move to end up inside `range`. */
  function FitDistance(range: Range, other: Range): (d: int)
  {
    if other.front < range.front then range.front - other.front
    else range.back - other.back
  }

  /** `other` moved by `d` bytes. */
  function Shift(other: Range, d: int): (moved: Range)
    requires IsValid(other) && other.front + d >= 0
    ensures moved.back - moved.front == other.back - other.front
    ensures moved.front - other.front == d
  {
    Range(other.front + d, other.back + d)
  }

  /**
   * Moving `other` by `FitDistance` puts it inside `range` whenever it is
   * no larger, and no shorter move does so.
   */
  lemma FitDistanceIsLeast(range: Range, other: Range)
    requires IsValid(range) && IsValid(other) && Size(range) >= Size(other)
    ensures other.front + FitDistance(range, other) >= 0
    ensures Contains(range, Shift(other, FitDistance(range, other)))
    ensures forall e: int :: other.front + e >= 0 && Contains(range, Shift(other, e)) ==>
      Magnitude(FitDistance(range, other)) <= Magnitude(e) || Contains(range, other)
  {
  }

  /** The range can hold the hint once shrunk to `align`-aligned bounds. */
  predicate Candidate(range: Range, align: nat, hint: Range)
    requires IsValid(range) && IsValid(hint) && align > 0
  {
    Size(Aligned(range, align)) >= Size(hint)
  }

  /** The signed move that fits the hint into the aligned part of the range. */
  function HintDistance(range: Range, align: nat, hint: Range): int
    requires IsValid(range) && align > 0
  {
    FitDistance(Aligned(range, align), hint)
  }

  /** How far (either way) the hint would move to fit the aligned part of the range. */
  function Distance(range: Range, align: nat, hint: Range): nat
    requires IsValid(range) && align > 0
  {
    Magnitude(HintDistance(range, align, hint))
  }

  /**
   * `j` is the candidate a scan of the first `n` ranges settles on: its
   * distance is below `IntptrMax`, strictly smaller than every earlier
   * candidate's and no larger than any later one's (the first of the
   * closest).
   */
  predicate ClosestAmongFirst(rs: seq<Range>, align: nat, hint: Range, j: nat, n: nat)
    requires AllValid(rs) && IsValid(hint) && align > 0 && n <= |rs|
  {
    j < n && Candidate(rs[j], align, hint)
    && Distance(rs[j], align, hint) < IntptrMax
    && (forall m {:trigger Candidate(rs[m], align, hint)} :: 0 <= m < j && Candidate(rs[m], align, hint) ==>
          Distance(rs[j], align, hint) < Distance(rs[m], align, hint))
    && (forall m {:trigger Candidate(rs[m], align, hint)} :: j < m < n && Candidate(rs[m], align, hint) ==>
          Distance(rs[j], align, hint) <= Distance(rs[m], align, hint))
  }

  /** None of the first `n` ranges is a candidate closer than `IntptrMax`. */
  predicate NoCandidateAmongFirst(rs: seq<Range>, align: nat, hint: Range, n: nat)
    requires AllValid(rs) && IsValid(hint) && align > 0 && n <= |rs|
  {
    forall m {:trigger Candidate(rs[m], align, hint)} :: 0 <= m < n && Candidate(rs[m], align, hint) ==>
      Distance(rs[m], align, hint) >= IntptrMax
  }

  /** `j` is the closest candidate of the whole list. */
  predicate IsClosest(rs: seq<Range>, align: nat, hint: Range, j: nat)
    requires AllValid(rs) && IsValid(hint) && align > 0
  {
    ClosestAmongFirst(rs, align, hint, j, |rs|)
  }

  /**
   * One more range examined by the scan of `AllocateSpaceHint`: a candidate
   * strictly closer than the one kept so far (or than `IntptrMax` when none
   * is kept) becomes the closest.
   */
  lemma ScanTake(rs: seq<Range>, align: nat, hint: Range, i: nat, found: bool, j: nat)
    requires AllValid(rs) && IsValid(hint) && align > 0 && i < |rs|
    requires found ==> ClosestAmongFirst(rs, align, hint, j, i)
    requires !found ==> NoCandidateAmongFirst(rs, align, hint, i)
    requires Candidate(rs[i], align, hint)
    requires Distance(rs[i], align, hint) < (if found then Distance(rs[j], align, hint) else IntptrMax)
    ensures ClosestAmongFirst(rs, align, hint, i, i + 1)
  {
    forall m | 0 <= m < i && Candidate(rs[m], align, hint)
      ensures Distance(rs[i], align, hint) < Distance(rs[m], align, hint)
    {
      if found && m != j {
        assert Distance(rs[j], align, hint) <= Distance(rs[m], align, hint);
      }
    }
  }

  /** Any other range leaves the closest so far, or the absence of one, in place. */
  lemma ScanKeep(rs: seq<Range>, align: nat, hint: Range, i: nat, found: bool, j: nat)
    requires AllValid(rs) && IsValid(hint) && align > 0 && i < |rs|
    requires found ==> ClosestAmongFirst(rs, align, hint, j, i)
    requires !found ==> NoCandidateAmongFirst(rs, align, hint, i)
    requires !(Candidate(rs[i], align, hint)
      && Distance(rs[i], align, hint) < (if found then Distance(rs[j], align, hint) else IntptrMax))
    ensures found ==> ClosestAmongFirst(rs, align, hint, j, i + 1)
    ensures !found ==> NoCandidateAmongFirst(rs, align, hint, i + 1)
  {
    if found {
      KeepClosest(rs, align, hint, i, j);
    } else {
      KeepNone(rs, align, hint, i);
    }
  }

  /** A range no closer than the closest so far leaves it the closest. */
  lemma KeepClosest(rs: seq<Range>, align: nat, hint: Range, i: nat, j: nat)
    requires AllValid(rs) && IsValid(hint) && align > 0 && i < |rs|
    requires ClosestAmongFirst(rs, align, hint, j, i)
    requires !(Candidate(rs[i], align, hint) && Distance(rs[i], align, hint) < Distance(rs[j], align, hint))
    ensures ClosestAmongFirst(rs, align, hint, j, i + 1)
  {
    var dj := Distance(rs[j], align, hint);
    forall m | j < m < i + 1 && Candidate(rs[m], align, hint)
      ensures dj <= Distance(rs[m], align, hint)
    {
      if m == i {
        assert !(Distance(rs[i], align, hint) < dj);
      }
    }
  }

  /** Without a closest so far, a range that is no close candidate leaves none. */
  lemma KeepNone(rs: seq<Range>, align: nat, hint: Range, i: nat)
    requires AllValid(rs) && IsValid(hint) && align > 0 && i < |rs|
    requires NoCandidateAmongFirst(rs, align, hint, i)
    requires !(Candidate(rs[i], align, hint) && Distance(rs[i], align, hint) < IntptrMax)
    ensures NoCandidateAmongFirst(rs, align, hint, i + 1)
  {
  }

  /** At most one range is the closest candidate. */
  lemma ClosestIsUnique(rs: seq<Range>, align: nat, hint: Range, j: nat, j': nat)
    requires AllValid(rs) && IsValid(hint) && align > 0
    requires IsClosest(rs, align, hint, j) && IsClosest(rs, align, hint, j')
    ensures j == j'
  {
  }

  /** The hint moved into a candidate's aligned part lies inside that range. */
  lemma CandidateHolds(range: Range, align: nat, hint: Range)
    requires IsValid(range) && IsValid(hint) && !IsEmpty(hint) && align > 0
    requires Candidate(range, align, hint)
    ensures hint.front + HintDistance(range, align, hint) >= 0
    ensures Contains(range, Shift(hint, HintDistance(range, align, hint)))
  {
    FitDistanceIsLeast(Aligned(range, align), hint);
  }

  /** The hint moved into the aligned part of `range`. */
  function Moved(range: Range, align: nat, hint: Range): (moved: Range)
    requires IsValid(range) && IsValid(hint) && !IsEmpty(hint) && align > 0
    requires Candidate(range, align, hint)
    ensures IsValid(moved) && Size(moved) == Size(hint) && Contains(range, moved)
  {
    CandidateHolds(range, align, hint);
    Shift(hint, HintDistance(range, align, hint))
  }

  /**
   * What `AllocateSpaceHint` hands out: the hint itself, out of the first
   * free range containing it; failing that the hint moved into the closest
   * candidate; failing that `{}` with the list unchanged.
   */
  ghost predicate HintOutcome(ranges: seq<Range>, align: nat, hint: Range, rs: seq<Range>, r: Range)
    requires align > 0 && AllValid(ranges) && PairwiseDisjoint(ranges)
    requires IsValid(hint) && !IsEmpty(hint)
  {
    HandedOut(ranges, rs, r)
    && var k := FirstContaining(ranges, hint);
    if k < |ranges| then
      r == hint && rs == SplitOut(ranges, k, hint)
    else
      (exists j: nat :: IsClosest(ranges, align, hint, j)
        && r == Moved(ranges[j], align, hint) && rs == SplitOut(ranges, j, r))
      || ((forall j :: 0 <= j < |ranges| && Candidate(ranges[j], align, hint) ==>
            Distance(ranges[j], align, hint) >= IntptrMax)
        && r == Empty && rs == ranges)
  }

  /** A free range contains the hint: the first such one gives it up. */
  lemma HintContained(ranges: seq<Range>, align: nat, hint: Range, k: nat)
    requires align > 0 && AllValid(ranges) && PairwiseDisjoint(ranges)
    requires IsValid(hint) && !IsEmpty(hint)
    requires k == FirstContaining(ranges, hint) && k < |ranges|
    ensures HintOutcome(ranges, align, hint, SplitOut(ranges, k, hint), hint)
  {
  }

  /** No free range contains the hint, and `j` is the closest candidate. */
  lemma HintMoved(ranges: seq<Range>, align: nat, hint: Range, j: nat)
    requires align > 0 && AllValid(ranges) && PairwiseDisjoint(ranges)
    requires IsValid(hint) && !IsEmpty(hint)
    requires FirstContaining(ranges, hint) == |ranges| && IsClosest(ranges, align, hint, j)
    ensures var r := Moved(ranges[j], align, hint);
      HintOutcome(ranges, align, hint, SplitOut(ranges, j, r), r)
  {
    var r := Moved(ranges[j], align, hint);
    assert Contains(ranges[j], r);
  }

  /** No free range contains the hint and no candidate is closer than `IntptrMax`. */
  lemma HintRefused(ranges: seq<Range>, align: nat, hint: Range)
    requires align > 0 && AllValid(ranges) && PairwiseDisjoint(ranges)
    requires IsValid(hint) && !IsEmpty(hint)
    requires FirstContaining(ranges, hint) == |ranges|
    requires NoCandidateAmongFirst(ranges, align, hint, |ranges|)
    ensures HintOutcome(ranges, align, hint, ranges, Empty)
  {
  }

  /** None of the first `n` ranges contains the hint. */
  ghost predicate NoneContain(ranges: seq<Range>, hint: Range, n: nat)
    requires n <= |ranges|
  {
    forall m :: 0 <= m < n ==> !Contains(ranges[m], hint)
  }

  lemma NoneContainUpTo(ranges: seq<Range>, hint: Range, i: nat)
    requires i < |ranges| && !Contains(ranges[i], hint) && NoneContain(ranges, hint, i)
    ensures NoneContain(ranges, hint, i + 1)
  {
  }

  /**
   * The loop of `AllocateSpaceHint`: walks the free list until a range
   * contains the hint (`i` is then its index), keeping the closest
   * candidate seen so far and the hint moved into it.
   */
  method ScanForHint(ranges: seq<Range>, align: nat, hint: Range)
    returns (i: nat, found: bool, closestIdx: nat, closest: Range)
    requires align > 0 && AllValid(ranges) && IsValid(hint) && !IsEmpty(hint)
    ensures i <= |ranges| && (i < |ranges| ==> Contains(ranges[i], hint))
    ensures forall m :: 0 <= m < i ==> !Contains(ranges[m], hint)
    ensures i == |ranges| && found ==>
      IsClosest(ranges, align, hint, closestIdx) && closest == Moved(ranges[closestIdx], align, hint)
    ensures i == |ranges| && !found ==> NoCandidateAmongFirst(ranges, align, hint, |ranges|)
  {
    closest := Empty;
    var closestDistance := IntptrMax;
    found := false;
    closestIdx := 0;

    i := 0;
    while i < |ranges|
      invariant i <= |ranges|
      invariant NoneContain(ranges, hint, i)
      invariant found ==> ClosestAmongFirst(ranges, align, hint, closestIdx, i)
      invariant !found ==> NoCandidateAmongFirst(ranges, align, hint, i)
      invariant found ==> closestDistance == HintDistance(ranges[closestIdx], align, hint)
      invariant !found ==> closestDistance == IntptrMax
      invariant found ==> closest == Moved(ranges[closestIdx], align, hint)
    {
      var range := ranges[i];
      if Contains(range, hint) {
        return;
      }
      NoneContainUpTo(ranges, hint, i);
      var alignedRange := Aligned(range, align);
      var distance := 0;
      var closer := false;
      if Size(alignedRange) >= Size(hint) {
        distance := FitDistance(alignedRange, hint);
        closer := Magnitude(distance) < Magnitude(closestDistance);
      }
      assert closer <==> (Candidate(range, align, hint)
        && Distance(range, align, hint) < (if found then Distance(ranges[closestIdx], align, hint) else IntptrMax));
      if closer {
        ScanTake(ranges, align, hint, i, found, closestIdx);
        closest := Moved(range, align, hint);
        closestDistance := distance;
        closestIdx := i;
        found := true;
      } else {
        ScanKeep(ranges, align, hint, i, found, closestIdx);
      }
      i := i + 1;
    }
  }

  /**
   * `AllocateSpaceHint`: the hint itself when a free range contains it;
   * otherwise the hint moved into the closest candidate range; otherwise
   * `{}` with the list unchanged.
   */
  method AllocateSpaceHint(ranges: seq<Range>, align: nat, hint: Range) returns (rs: seq<Range>, r: Range)
    requires align > 0 && AllValid(ranges) && PairwiseDisjoint(ranges)
    requires IsValid(hint) && !IsEmpty(hint)
    ensures HintOutcome(ranges, align, hint, rs, r)
  {
    var i, found, closestIdx, closest := ScanForHint(ranges, align, hint);
    FirstContainingIs(ranges, hint, i);
    if i < |ranges| {
      HintContained(ranges, align, hint, i);
      rs, r := SplitOut(ranges, i, hint), hint;
    } else if found {
      HintMoved(ranges, align, hint, closestIdx);
      rs, r := SplitOut(ranges, closestIdx, closest), closest;
    } else {
      HintRefused(ranges, align, hint);
      rs, r := ranges, Empty;
    }
  }

  // ---------------------------------------------------------------------
  // RangeAllocator

  /** `RangeAllocateRequest`: a size, an alignment and an optional start address (0 for none). */
  datatype Request = Request(size: nat, align: nat, hint: nat)

  /** `hintRange`: the `size` bytes starting at the hint. */
  function HintRange(request: Request): (r: Range)
    ensures IsValid(r) && r.front == request.hint && Size(r) == request.size
  {
    Range(request.hint, request.hint + request.size)
  }

  /**
   * What `allocate(request)` hands out: without a hint (0) the first block
   * `AllocateSpaceAligned` finds, with one what `AllocateSpaceHint` hands
   * out for the `size` bytes at the hint.
   */
  ghost predicate AllocationOf(ranges: seq<Range>, request: Request, rs: seq<Range>, r: Range)
    requires AllValid(ranges) && PairwiseDisjoint(ranges) && request.align > 0
  {
    HandedOut(ranges, rs, r)
    && (request.hint == 0 ==>
          var k := FirstFit(ranges, request.size, request.align);
          (k < |ranges| ==> r == AlignedBlock(ranges[k], request.size, request.align))
          && (k == |ranges| ==> r == Empty && rs == ranges))
    && (request.hint != 0 && request.size > 0 ==>
          HintOutcome(ranges, request.align, HintRange(request), rs, r))
  }

  /** The dispatch of `allocate(request)` on whether a hint is given. */
  method AllocateFrom(ranges: seq<Range>, request: Request) returns (rs: seq<Range>, r: Range)
    requires AllValid(ranges) && PairwiseDisjoint(ranges) && request.align > 0
    requires request.hint != 0 ==> request.size > 0
    ensures AllocationOf(ranges, request, rs, r)
  {
    if request.hint == 0 {
      rs, r := AllocateSpaceAligned(ranges, request.size, request.align);
    } else {
      rs, r := AllocateSpaceHint(ranges, request.align, HintRange(request));
    }
  }

  /**
   * `RangeAllocator`: the free ranges of an address space. The spin lock
   * that guards `mAvailable` is not modelled; every method runs as one
   * step.
   */
  class RangeAllocator {
    var available: seq<Range>

    /** The free list is well formed and its ranges do not share addresses. */
    ghost predicate Valid()
      reads this
    {
      AllValid(available) && PairwiseDisjoint(available)
    }

    /** `RangeAllocator(range)`: the whole range starts out free. */
    constructor(range: Range)
      requires IsValid(range)
      ensures Valid() && available == [range]
    {
      available := [range];
    }

    /** `freeSpace`: the number of free bytes. */
    function FreeSpace(): nat
      requires Valid()
      reads this
    {
      SumSizes(available)
    }

    /** `reserve`: marks `range` as used, then sorts the free list. */
    method Reserve(range: Range)
      requires Valid() && IsValid(range)
      modifies this
      ensures Valid() && SortedByFront(available)
      ensures forall x :: Covers(available, x) <==> Covers(old(available), x) && !ContainsAddr(range, x)
    {
      var rs := MarkUsedArea(available, range);
      var sorted := SortRanges(rs);
      PermutationKeepsCover(rs, sorted);
      PermutationKeepsDisjoint(rs, sorted);
      available := sorted;
    }

    /**
     * `allocate(request)`: without a hint, the first fitting aligned block;
     * with one, the hint or the hint moved to the closest candidate. The
     * addresses handed out stop being free and the free total drops by
     * their size.
     */
    method Allocate(request: Request) returns (r: Range)
      requires Valid() && request.align > 0
      requires request.hint != 0 ==> request.size > 0
      modifies this
      ensures Valid() && IsValid(r)
      ensures AllocationOf(old(available), request, available, r)
      ensures forall x :: Covers(available, x) <==> Covers(old(available), x) && !ContainsAddr(r, x)
      ensures forall x :: ContainsAddr(r, x) ==> Covers(old(available), x)
      ensures FreeSpace() + Size(r) == old(FreeSpace())
    {
      var rs;
      rs, r := AllocateFrom(available, request);
      HandedOutFacts(available, rs, r);
      available := rs;
    }

    /** `allocate(size)`: `size` bytes at any byte alignment. */
    method AllocateSize(size: nat) returns (r: Range)
      requires Valid()
      modifies this
      ensures Valid() && IsValid(r)
      ensures var k := FirstFit(old(available), size, 1);
        (k < |old(available)| ==> r == Of(old(available)[k].front, size))
        && (k == |old(available)| ==> r == Empty && available == old(available))
      ensures forall x :: Covers(available, x) <==> Covers(old(available), x) && !ContainsAddr(r, x)
      ensures FreeSpace() + Size(r) == old(FreeSpace())
    {
      r := Allocate(Request(size, 1, 0));
    }

    /** `release`: adds the range back and merges the free list. */
    method Release(range: Range)
      requires Valid() && IsValid(range)
      modifies this
      ensures Valid() && Merged(available)
      ensures forall x :: Covers(available, x) <==> Covers(old(available), x) || ContainsAddr(range, x)
    {
      var all := available + [range];
      assert forall x :: Covers(all, x) <==> Covers(available, x) || ContainsAddr(range, x) by {
        assert range in all;
        forall w | w in available
          ensures w in all
        {
        }
      }
      available := MergeRanges(all);
      MergedIsSeparated(available);
    }
  }
}
