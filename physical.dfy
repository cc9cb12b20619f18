/**
 * The boot-time physical memory map (kernel/src/memory/physical.cpp): each
 * bootloader entry becomes a [front, back) range, saturated at the top of
 * the address space; `sanitize` then drops empty ranges, gives up when no
 * usable range is left, sorts the ranges by front address and merges those
 * that overlap or touch.
 *
 * Ranges that overlap are merged into the range ending at the larger of the
 * two backs. `physical.cpp` keeps the back of the later range, which shrinks the
 * merged range when the later one lies inside the earlier one; that rule is
 * kept as `TakeLastBack` for comparison.
 */
module Physical {
  import opened Util
  import opened Ranges

  /** `UINTPTR_MAX`. */
  const AddressLimit: nat := 0xFFFF_FFFF_FFFF_FFFF

  // ---------------------------------------------------------------------
  // Bootloader entries
  // ---------------------------------------------------------------------

  /** The range of one memory map entry, and whether its end overflowed. */
  datatype EntryRange = EntryRange(range: Range, overflow: bool)

  /**
   * `GetMemoryRange`: [base, base + length), or [base, UINTPTR_MAX) when the
   * sum does not fit in 64 bits, which is reported.
   */
  function GetMemoryRange(base: nat, length: nat): (r: EntryRange)
    requires base <= AddressLimit && length <= AddressLimit
    ensures IsValid(r.range) && r.range.front == base && r.range.back <= AddressLimit
    ensures r.overflow <==> base + length > AddressLimit
    ensures !r.overflow ==> Size(r.range) == length
    ensures r.overflow ==> r.range.back == AddressLimit && Size(r.range) < length
  {
    if base + length > AddressLimit then EntryRange(Range(base, AddressLimit), true)
    else EntryRange(Range(base, base + length), false)
  }

  // ---------------------------------------------------------------------
  // Coverage
  // ---------------------------------------------------------------------

  /** Address `x` lies in one of the ranges. */
  ghost predicate Covers(s: seq<Range>, x: nat)
  {
    exists k :: 0 <= k < |s| && ContainsAddr(s[k], x)
  }

  lemma CoversAppend(a: seq<Range>, b: seq<Range>, x: nat)
    ensures Covers(a + b, x) <==> Covers(a, x) || Covers(b, x)
  {
    if Covers(a + b, x) {
      var k :| 0 <= k < |a + b| && ContainsAddr((a + b)[k], x);
      if k < |a| {
        assert ContainsAddr(a[k], x);
      } else {
        assert ContainsAddr(b[k - |a|], x);
      }
    }
    if Covers(a, x) {
      var k :| 0 <= k < |a| && ContainsAddr(a[k], x);
      assert (a + b)[k] == a[k];
    }
    if Covers(b, x) {
      var k :| 0 <= k < |b| && ContainsAddr(b[k], x);
      assert (a + b)[|a| + k] == b[k];
    }
  }

  lemma CoversOne(r: Range, x: nat)
    ensures Covers([r], x) <==> ContainsAddr(r, x)
  {
    if ContainsAddr(r, x) {
      assert [r][0] == r;
    }
  }

  /** Rearranging ranges covers the same addresses. */
  lemma CoversPermutation(a: seq<Range>, b: seq<Range>, x: nat)
    requires multiset(a) == multiset(b)
    ensures Covers(a, x) <==> Covers(b, x)
  {
    if Covers(a, x) {
      var k :| 0 <= k < |a| && ContainsAddr(a[k], x);
      assert a[k] in multiset(b);
      var j :| 0 <= j < |b| && b[j] == a[k];
    }
    if Covers(b, x) {
      var k :| 0 <= k < |b| && ContainsAddr(b[k], x);
      assert b[k] in multiset(a);
      var j :| 0 <= j < |a| && a[j] == b[k];
    }
  }

  // ---------------------------------------------------------------------
  // EraseEmptyRanges
  // ---------------------------------------------------------------------

  /** The ranges that are not empty, in their order. */
  function NonEmpty(s: seq<Range>): (r: seq<Range>)
    ensures |r| <= |s|
  {
    if |s| == 0 then []
    else if IsEmpty(s[0]) then NonEmpty(s[1..])
    else [s[0]] + NonEmpty(s[1..])
  }

  /** Exactly the empty ranges are dropped, and no address is lost. */
  lemma {:induction false} NonEmptyKeeps(s: seq<Range>)
    ensures forall r :: r in NonEmpty(s) <==> r in s && !IsEmpty(r)
    ensures forall x :: Covers(NonEmpty(s), x) <==> Covers(s, x)
  {
    if |s| > 0 {
      NonEmptyKeeps(s[1..]);
      assert s == [s[0]] + s[1..];
      forall x
        ensures Covers(NonEmpty(s), x) <==> Covers(s, x)
      {
        CoversAppend([s[0]], s[1..], x);
        CoversOne(s[0], x);
        if !IsEmpty(s[0]) {
          CoversAppend([s[0]], NonEmpty(s[1..]), x);
        }
      }
    }
  }

  /** Dropping the range at `i` when it is empty. */
  lemma NonEmptyStep(s: seq<Range>, i: nat)
    requires i < |s|
    ensures NonEmpty(s[i..]) == if IsEmpty(s[i]) then NonEmpty(s[i + 1..]) else [s[i]] + NonEmpty(s[i + 1..])
  {
    assert s[i..][1..] == s[i + 1..];
  }

  /** Removing the last element of the prefix `a[..i + 1]` from the front of a sequence. */
  lemma RemoveFromPrefix<T>(a: seq<T>, i: nat, tail: seq<T>)
    requires i < |a|
    ensures var r := a[..i + 1] + tail; r[..i] + r[i + 1..] == a[..i] + tail
  {
    var r := a[..i + 1] + tail;
    assert r[..i] == a[..i];
    assert r[i + 1..] == tail;
  }

  /**
   * `EraseEmptyRanges`: walks the vector from the back and removes each empty
   * range in place. The vector is returned as its new contents.
   */
  method EraseEmptyRanges(ranges: seq<Range>) returns (result: seq<Range>)
    ensures result == NonEmpty(ranges)
  {
    result := ranges;
    var i := |ranges| as int - 1;
    while i >= 0
      invariant -1 <= i < |ranges|
      invariant result == ranges[..i + 1] + NonEmpty(ranges[i + 1..])
    {
      NonEmptyStep(ranges, i);
      if IsEmpty(result[i]) {
        assert result[i] == ranges[i];
        RemoveFromPrefix(ranges, i, NonEmpty(ranges[i + 1..]));
        result := result[..i] + result[i + 1..];
      } else {
        assert ranges[..i + 1] == ranges[..i] + [ranges[i]];
      }
      i := i - 1;
    }
    assert ranges[..0] == [];
    assert ranges[0..] == ranges;
  }

  // ---------------------------------------------------------------------
  // SortMemoryRanges
  // ---------------------------------------------------------------------

  predicate SortedByFront(s: seq<Range>)
  {
    forall i, j :: 0 <= i < j < |s| ==> s[i].front <= s[j].front
  }

  /** A range no later than the head of a sorted sequence may be put in front. */
  lemma SortedCons(h: Range, t: seq<Range>)
    requires SortedByFront(t) && (|t| == 0 || h.front <= t[0].front)
    ensures SortedByFront([h] + t)
  {
    var u := [h] + t;
    forall i, j | 0 <= i < j < |u|
      ensures u[i].front <= u[j].front
    {
      assert u[j] == t[j - 1];
      if i > 0 {
        assert u[i] == t[i - 1];
      } else {
        assert t[0].front <= t[j - 1].front;
      }
    }
  }

  /** `r` placed before the first range with a larger front. */
  function InsertByFront(s: seq<Range>, r: Range): (t: seq<Range>)
    requires SortedByFront(s)
    ensures |t| == |s| + 1 && SortedByFront(t)
    ensures t[0] == r || (|s| > 0 && t[0] == s[0])
  {
    if |s| == 0 then [r]
    else if r.front <= s[0].front then
      SortedCons(r, s);
      [r] + s
    else
      var rest := InsertByFront(s[1..], r);
      assert |s| > 1 ==> s[0].front <= s[1].front;
      SortedCons(s[0], rest);
      [s[0]] + rest
  }

  /** Inserting keeps every range and adds exactly `r`. */
  lemma {:induction false} InsertByFrontPermutes(s: seq<Range>, r: Range)
    requires SortedByFront(s)
    ensures multiset(InsertByFront(s, r)) == multiset(s) + multiset{r}
  {
    if |s| > 0 && r.front > s[0].front {
      InsertByFrontPermutes(s[1..], r);
      assert s == [s[0]] + s[1..];
    }
  }

  /**
   * `SortMemoryRanges`: `std::sort` by front address. Ranges with equal
   * fronts come out in one of the orders `std::sort` may leave them in.
   */
  function SortMemoryRanges(s: seq<Range>): (r: seq<Range>)
    ensures SortedByFront(r) && multiset(r) == multiset(s)
  {
    if |s| == 0 then []
    else
      assert s == s[..|s| - 1] + [s[|s| - 1]];
      InsertByFrontPermutes(SortMemoryRanges(s[..|s| - 1]), s[|s| - 1]);
      InsertByFront(SortMemoryRanges(s[..|s| - 1]), s[|s| - 1])
  }

  // ---------------------------------------------------------------------
  // MergeMemoryRanges
  // ---------------------------------------------------------------------

  /** How the back of two merged ranges is chosen. */
  datatype MergeRule = TakeLastBack | TakeFurthestBack

  /** The range that replaces `prev` when `next` is merged into it. */
  function Join(rule: MergeRule, prev: Range, next: Range): Range
  {
    match rule
    case TakeLastBack => Range(prev.front, next.back)
    case TakeFurthestBack => Range(prev.front, Max(prev.back, next.back))
  }

  /** `next` overlaps or touches the end of `prev`. */
  predicate Meets(prev: Range, next: Range)
  {
    prev.back >= next.front
  }

  /**
   * Merging the ranges of `rest` one at a time into `done`, whose last range
   * is the one `rest[0]` is compared with.
   */
  function MergeFrom(rule: MergeRule, done: seq<Range>, rest: seq<Range>): (r: seq<Range>)
    requires |done| > 0
    ensures |r| > 0
    decreases |rest|
  {
    if |rest| == 0 then done
    else
      var prev := done[|done| - 1];
      if Meets(prev, rest[0]) then MergeFrom(rule, done[..|done| - 1] + [Join(rule, prev, rest[0])], rest[1..])
      else MergeFrom(rule, done + [rest[0]], rest[1..])
  }

  /** The vector after merging, under `rule`. */
  function Merged(rule: MergeRule, s: seq<Range>): seq<Range>
  {
    if |s| == 0 then [] else MergeFrom(rule, [s[0]], s[1..])
  }

  /** No two neighbours overlap or touch. */
  predicate Separated(s: seq<Range>)
  {
    forall j :: 1 <= j < |s| ==> s[j - 1].back < s[j].front
  }

  /** One iteration of the merge loop on the vector `r`, at index `i`. */
  lemma MergeStep(r: seq<Range>, i: nat)
    requires 1 <= i < |r|
    ensures var prev := r[i - 1];
      MergeFrom(TakeFurthestBack, r[..i], r[i..]) ==
        if Meets(prev, r[i]) then
          MergeFrom(TakeFurthestBack, (r[..i - 1] + [Join(TakeFurthestBack, prev, r[i])] + r[i + 1..])[..i],
            (r[..i - 1] + [Join(TakeFurthestBack, prev, r[i])] + r[i + 1..])[i..])
        else MergeFrom(TakeFurthestBack, r[..i + 1], r[i + 1..])
  {
    var prev := r[i - 1];
    assert r[..i][..i - 1] == r[..i - 1];
    assert r[i..][1..] == r[i + 1..];
    assert r[..i] + [r[i]] == r[..i + 1];
    var t := r[..i - 1] + [Join(TakeFurthestBack, prev, r[i])] + r[i + 1..];
    assert t[..i] == r[..i - 1] + [Join(TakeFurthestBack, prev, r[i])];
    assert t[i..] == r[i + 1..];
  }

  /**
   * `MergeMemoryRanges`: each range that overlaps or touches the one before it
   * is folded into it and removed; the loop index stays put after a removal.
   * The merged range ends at the larger back (see `MergedAsWritten`).
   */
  method MergeMemoryRanges(ranges: seq<Range>) returns (result: seq<Range>)
    ensures result == Merged(TakeFurthestBack, ranges)
    ensures Separated(result)
  {
    result := ranges;
    if |ranges| == 0 {
      return;
    }
    var i := 1;
    assert result[..1] == [ranges[0]] && result[1..] == ranges[1..];
    while i < |result|
      invariant 1 <= i <= |result|
      invariant MergeFrom(TakeFurthestBack, result[..i], result[i..]) == Merged(TakeFurthestBack, ranges)
      invariant Separated(result[..i])
      decreases |result|, |result| - i
    {
      MergeStep(result, i);
      var prev := result[i - 1];
      if prev.back >= result[i].front {
        var joined := Range(prev.front, Max(prev.back, result[i].back));
        result := result[..i - 1] + [joined] + result[i + 1..];
        assert result[..i] == result[..i - 1] + [joined];
      } else {
        SeparatedExtend(result, i);
        i := i + 1;
      }
    }
    assert result[..i] == result;
    assert result[i..] == [];
  }

  lemma SeparatedExtend(r: seq<Range>, i: nat)
    requires 1 <= i < |r| && Separated(r[..i]) && r[i - 1].back < r[i].front
    ensures Separated(r[..i + 1])
  {
    var a, b := r[..i], r[..i + 1];
    forall j | 1 <= j < i + 1
      ensures b[j - 1].back < b[j].front
    {
      if j < i {
        assert b[j - 1] == a[j - 1] && b[j] == a[j];
      }
    }
  }

  /** Joining ranges that meet, the second starting no earlier, covers exactly what they cover. */
  lemma JoinCovers(prev: Range, next: Range, x: nat)
    requires Meets(prev, next) && prev.front <= next.front
    ensures ContainsAddr(Join(TakeFurthestBack, prev, next), x) <==> ContainsAddr(prev, x) || ContainsAddr(next, x)
  {
  }

  /** The rest of a sorted sequence is sorted and starts no earlier than its first range. */
  lemma SortedTail(rest: seq<Range>)
    requires |rest| > 0 && SortedByFront(rest)
    ensures SortedByFront(rest[1..])
    ensures forall k :: 0 <= k < |rest| - 1 ==> rest[0].front <= rest[1..][k].front
  {
    forall k | 0 <= k < |rest| - 1
      ensures rest[0].front <= rest[1..][k].front
    {
      assert rest[1..][k] == rest[k + 1];
    }
  }

  /** Replacing the last range of `done` and the first of `rest` by their join keeps the coverage. */
  lemma JoinStepCovers(done: seq<Range>, rest: seq<Range>, x: nat)
    requires |done| > 0 && |rest| > 0
    requires Meets(done[|done| - 1], rest[0]) && done[|done| - 1].front <= rest[0].front
    ensures var joined := Join(TakeFurthestBack, done[|done| - 1], rest[0]);
      Covers(done[..|done| - 1] + [joined] + rest[1..], x) <==> Covers(done + rest, x)
  {
    var prev := done[|done| - 1];
    var next := rest[0];
    var joined := Join(TakeFurthestBack, prev, next);
    var front := done[..|done| - 1];
    assert done == front + [prev];
    assert rest == [next] + rest[1..];
    assert done + rest == front + ([prev] + ([next] + rest[1..]));
    assert front + [joined] + rest[1..] == front + ([joined] + rest[1..]);
    CoversAppend(front, [prev] + ([next] + rest[1..]), x);
    CoversAppend([prev], [next] + rest[1..], x);
    CoversAppend([next], rest[1..], x);
    CoversAppend(front, [joined] + rest[1..], x);
    CoversAppend([joined], rest[1..], x);
    CoversOne(prev, x);
    CoversOne(next, x);
    CoversOne(joined, x);
    JoinCovers(prev, next, x);
  }

  /** Each step of the merge keeps the addresses covered, when fronts never decrease. */
  lemma {:induction false} MergeFromCovers(done: seq<Range>, rest: seq<Range>, x: nat)
    requires |done| > 0 && SortedByFront(rest)
    requires forall k :: 0 <= k < |rest| ==> done[|done| - 1].front <= rest[k].front
    ensures Covers(MergeFrom(TakeFurthestBack, done, rest), x) <==> Covers(done + rest, x)
    decreases |rest|
  {
    if |rest| > 0 {
      var prev := done[|done| - 1];
      var next := rest[0];
      SortedTail(rest);
      if Meets(prev, next) {
        var done' := done[..|done| - 1] + [Join(TakeFurthestBack, prev, next)];
        assert done'[|done'| - 1].front == prev.front;
        assert forall k :: 0 <= k < |rest| - 1 ==> prev.front <= rest[1..][k].front;
        assert MergeFrom(TakeFurthestBack, done, rest) == MergeFrom(TakeFurthestBack, done', rest[1..]);
        MergeFromCovers(done', rest[1..], x);
        JoinStepCovers(done, rest, x);
      } else {
        var done' := done + [next];
        assert done'[|done'| - 1] == next;
        assert MergeFrom(TakeFurthestBack, done, rest) == MergeFrom(TakeFurthestBack, done', rest[1..]);
        MergeFromCovers(done', rest[1..], x);
        assert done' + rest[1..] == done + rest;
      }
    } else {
      assert done + rest == done;
    }
  }

  /** Merging sorted ranges covers exactly the addresses they covered. */
  lemma MergedCovers(s: seq<Range>, x: nat)
    requires SortedByFront(s)
    ensures Covers(Merged(TakeFurthestBack, s), x) <==> Covers(s, x)
  {
    if |s| > 0 {
      MergeFromCovers([s[0]], s[1..], x);
      assert [s[0]] + s[1..] == s;
    }
  }

  /**
   * As written, a range inside the one before it cuts that range short:
   * [0, 100) and [10, 20) merge into [0, 20), and address 50 is lost.
   */
  lemma MergedAsWritten()
    ensures Merged(TakeLastBack, [Range(0, 100), Range(10, 20)]) == [Range(0, 20)]
    ensures Covers([Range(0, 100), Range(10, 20)], 50) && !Covers(Merged(TakeLastBack, [Range(0, 100), Range(10, 20)]), 50)
    ensures Merged(TakeFurthestBack, [Range(0, 100), Range(10, 20)]) == [Range(0, 100)]
  {
    var s := [Range(0, 100), Range(10, 20)];
    assert s[1..] == [Range(10, 20)];
    assert [Range(0, 100)][..0] + [Range(0, 20)] == [Range(0, 20)];
    assert ContainsAddr(s[0], 50);
    assert !Covers([Range(0, 20)], 50) by {
      CoversOne(Range(0, 20), 50);
    }
  }

  // ---------------------------------------------------------------------
  // The layout
  // ---------------------------------------------------------------------

  /** `PhysicalMemoryLayout`: the usable and the reserved ranges. */
  class PhysicalMemoryLayout {
    var freeMemory: seq<Range>
    var reservedMemory: seq<Range>

    constructor (freeMemory: seq<Range>, reservedMemory: seq<Range>)
      ensures this.freeMemory == freeMemory && this.reservedMemory == reservedMemory
    {
      this.freeMemory := freeMemory;
      this.reservedMemory := reservedMemory;
    }

    /**
     * The part of `sanitize` before reserved ranges are cut out of usable
     * ones. `fatal` is the fatal error raised when no usable range is left.
     */
    method Sanitize() returns (fatal: bool)
      modifies this
      ensures fatal <==> NonEmpty(old(freeMemory)) == []
      ensures fatal ==> freeMemory == [] && reservedMemory == NonEmpty(old(reservedMemory))
      ensures !fatal ==> freeMemory == Merged(TakeFurthestBack, SortMemoryRanges(NonEmpty(old(freeMemory))))
      ensures !fatal ==> reservedMemory == Merged(TakeFurthestBack, SortMemoryRanges(NonEmpty(old(reservedMemory))))
      ensures !fatal ==> Separated(freeMemory) && Separated(reservedMemory)
      ensures !fatal ==> forall x :: Covers(freeMemory, x) <==> Covers(old(freeMemory), x)
      ensures !fatal ==> forall x :: Covers(reservedMemory, x) <==> Covers(old(reservedMemory), x)
    {
      ghost var free0, reserved0 := freeMemory, reservedMemory;
      freeMemory := EraseEmptyRanges(freeMemory);
      reservedMemory := EraseEmptyRanges(reservedMemory);

      if |freeMemory| == 0 {
        return true;
      }

      freeMemory := SortMemoryRanges(freeMemory);
      reservedMemory := SortMemoryRanges(reservedMemory);

      ghost var sortedFree, sortedReserved := freeMemory, reservedMemory;
      freeMemory := MergeMemoryRanges(freeMemory);
      reservedMemory := MergeMemoryRanges(reservedMemory);
      fatal := false;

      NonEmptyKeeps(free0);
      NonEmptyKeeps(reserved0);
      forall x
        ensures Covers(freeMemory, x) <==> Covers(free0, x)
        ensures Covers(reservedMemory, x) <==> Covers(reserved0, x)
      {
        MergedCovers(sortedFree, x);
        MergedCovers(sortedReserved, x);
        CoversPermutation(sortedFree, NonEmpty(free0), x);
        CoversPermutation(sortedReserved, NonEmpty(reserved0), x);
      }
    }
  }
}
