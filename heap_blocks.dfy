/**
 * The block list of the TLSF heap (memory/heap.cpp) as a value. The heap
 * keeps its physical blocks linked in address order; here they are a
 * sequence, lowest address first, whose last element is the heap's "null
 * block": the free space at the top of the heap, which may be empty. Each
 * heap operation is a function from one block list to the next, and
 * heap.dfy applies them to the heap object.
 */
module HeapBlocks {
  import opened Status
  import opened Ranges
  import Tlsf

  /** A physical block: its address, its size and whether it is free (`isFree`) or allocated. */
  datatype HeapBlock = HeapBlock(offset: nat, size: nat, free: bool)

  /** What an operation that can fail produces: its status, the new block list and the block it hands back. */
  datatype HeapResult = HeapResult(status: OsStatus, blocks: seq<HeapBlock>, index: nat)

  function End(b: HeapBlock): nat { b.offset + b.size }

  function BlockRange(b: HeapBlock): Range { Range(b.offset, End(b)) }

  /** Block `k` starts where block `k - 1` ends. */
  predicate Abuts(s: seq<HeapBlock>, k: nat)
    requires 0 < k < |s|
  {
    End(s[k - 1]) == s[k].offset
  }

  /** Each block ends where the next one starts. */
  predicate Contiguous(s: seq<HeapBlock>)
  {
    forall k :: 0 < k < |s| ==> Abuts(s, k)
  }

  /** A block list of the heap: contiguous and ending in the free null block. */
  predicate WellFormed(s: seq<HeapBlock>)
  {
    |s| > 0 && s[|s| - 1].free && Contiguous(s)
  }

  /** Blocks `k - 1` and `k` are not both free. */
  predicate Apart(s: seq<HeapBlock>, k: nat)
    requires 0 < k < |s|
  {
    !(s[k - 1].free && s[k].free)
  }

  /** No two neighbouring blocks are both free. */
  predicate Coalesced(s: seq<HeapBlock>)
  {
    forall k :: 0 < k < |s| ==> Apart(s, k)
  }

  /** The bytes the blocks span. */
  function TotalSize(s: seq<HeapBlock>): nat
  {
    if |s| == 0 then 0 else s[0].size + TotalSize(s[1..])
  }

  /** The bytes of the free blocks, the null block included. */
  function FreeMemory(s: seq<HeapBlock>): nat
  {
    if |s| == 0 then 0 else (if s[0].free then s[0].size else 0) + FreeMemory(s[1..])
  }

  lemma {:induction false} SumsConcat(a: seq<HeapBlock>, b: seq<HeapBlock>)
    ensures TotalSize(a + b) == TotalSize(a) + TotalSize(b)
    ensures FreeMemory(a + b) == FreeMemory(a) + FreeMemory(b)
    decreases |a|
  {
    if |a| > 0 {
      assert (a + b)[1..] == a[1..] + b;
      SumsConcat(a[1..], b);
    } else {
      assert a + b == b;
    }
  }

  lemma SumsSingle(b: HeapBlock)
    ensures TotalSize([b]) == b.size
    ensures FreeMemory([b]) == (if b.free then b.size else 0)
  {
    assert [b][1..] == [];
  }

  lemma SumsPair(a: HeapBlock, b: HeapBlock)
    ensures TotalSize([a, b]) == a.size + b.size
    ensures FreeMemory([a, b]) == (if a.free then a.size else 0) + (if b.free then b.size else 0)
  {
    SumsSingle(a);
    SumsSingle(b);
    SumsConcat([a], [b]);
    assert [a] + [b] == [a, b];
  }

  lemma ContiguousSlice(s: seq<HeapBlock>, lo: nat, hi: nat)
    requires Contiguous(s) && lo <= hi <= |s|
    ensures Contiguous(s[lo..hi])
  {
    forall k | 0 < k < hi - lo
      ensures Abuts(s[lo..hi], k)
    {
      assert Abuts(s, lo + k);
      assert s[lo..hi][k - 1] == s[lo + k - 1] && s[lo..hi][k] == s[lo + k];
    }
  }

  /** Contiguous blocks tile the addresses from the first block's offset to the last block's end. */
  lemma {:induction false} Tiling(s: seq<HeapBlock>)
    requires |s| > 0 && Contiguous(s)
    ensures End(s[|s| - 1]) == s[0].offset + TotalSize(s)
    decreases |s|
  {
    if |s| > 1 {
      assert Abuts(s, 1);
      ContiguousSlice(s, 1, |s|);
      assert s[1..|s|] == s[1..];
      Tiling(s[1..]);
    }
  }

  /**
   * The step every operation is made of: a run of blocks is replaced by
   * blocks that tile the same addresses. The list stays well formed and
   * spans as many bytes; its free memory changes by the difference.
   */
  lemma ReplaceRun(s: seq<HeapBlock>, i: nat, j: nat, mid: seq<HeapBlock>)
    requires WellFormed(s) && i < j <= |s| && |mid| > 0 && Contiguous(mid)
    requires mid[0].offset == s[i].offset && End(mid[|mid| - 1]) == End(s[j - 1])
    requires j == |s| ==> mid[|mid| - 1].free
    ensures WellFormed(s[..i] + mid + s[j..])
    ensures TotalSize(s[..i] + mid + s[j..]) == TotalSize(s)
    ensures FreeMemory(s[..i] + mid + s[j..]) + FreeMemory(s[i..j]) == FreeMemory(s) + FreeMemory(mid)
  {
    ReplaceRunWellFormed(s, i, j, mid);
    ReplaceRunSameSpan(s, i, j, mid);
    ReplaceRunSums(s, i, j, mid);
  }

  lemma ReplaceRunWellFormed(s: seq<HeapBlock>, i: nat, j: nat, mid: seq<HeapBlock>)
    requires WellFormed(s) && i < j <= |s| && |mid| > 0 && Contiguous(mid)
    requires mid[0].offset == s[i].offset && End(mid[|mid| - 1]) == End(s[j - 1])
    requires j == |s| ==> mid[|mid| - 1].free
    ensures WellFormed(s[..i] + mid + s[j..])
  {
    var r := s[..i] + mid + s[j..];
    assert i > 0 ==> Abuts(s, i);
    assert j < |s| ==> Abuts(s, j);
    ReplaceRunContiguous(s, i, j, mid);
    assert r[|r| - 1] == if j < |s| then s[|s| - 1] else mid[|mid| - 1];
  }

  /** A run and the blocks that replace it span the same number of bytes. */
  lemma ReplaceRunSameSpan(s: seq<HeapBlock>, i: nat, j: nat, mid: seq<HeapBlock>)
    requires Contiguous(s) && i < j <= |s| && |mid| > 0 && Contiguous(mid)
    requires mid[0].offset == s[i].offset && End(mid[|mid| - 1]) == End(s[j - 1])
    ensures TotalSize(s[i..j]) == TotalSize(mid)
  {
    ContiguousSlice(s, i, j);
    Tiling(s[i..j]);
    Tiling(mid);
    assert s[i..j][0] == s[i] && s[i..j][j - i - 1] == s[j - 1];
  }

  lemma ReplaceRunContiguous(s: seq<HeapBlock>, i: nat, j: nat, mid: seq<HeapBlock>)
    requires Contiguous(s) && i < j <= |s| && |mid| > 0 && Contiguous(mid)
    requires (i > 0 ==> End(s[i - 1]) == mid[0].offset) && (j < |s| ==> End(mid[|mid| - 1]) == s[j].offset)
    ensures Contiguous(s[..i] + mid + s[j..])
  {
    var r := s[..i] + mid + s[j..];
    var n := |mid|;
    forall k | 0 < k < |r|
      ensures Abuts(r, k)
    {
      if k < i {
        assert Abuts(s, k);
        assert r[k - 1] == s[k - 1] && r[k] == s[k];
      } else if k == i {
        assert r[k - 1] == s[k - 1] && r[k] == mid[0];
      } else if k < i + n {
        assert Abuts(mid, k - i);
        assert r[k - 1] == mid[k - i - 1] && r[k] == mid[k - i];
      } else if k == i + n {
        assert r[k - 1] == mid[n - 1] && r[k] == s[j];
      } else {
        assert Abuts(s, k - i - n + j);
        assert r[k - 1] == s[k - i - n + j - 1] && r[k] == s[k - i - n + j];
      }
    }
  }

  lemma ReplaceRunSums(s: seq<HeapBlock>, i: nat, j: nat, mid: seq<HeapBlock>)
    requires i <= j <= |s|
    ensures TotalSize(s[..i] + mid + s[j..]) + TotalSize(s[i..j]) == TotalSize(s) + TotalSize(mid)
    ensures FreeMemory(s[..i] + mid + s[j..]) + FreeMemory(s[i..j]) == FreeMemory(s) + FreeMemory(mid)
  {
    assert s == s[..i] + s[i..j] + s[j..];
    SumsConcat(s[..i] + s[i..j], s[j..]);
    SumsConcat(s[..i], s[i..j]);
    SumsConcat(s[..i] + mid, s[j..]);
    SumsConcat(s[..i], mid);
  }

  /** `ReplaceRun` for a list `t` already known to be the result. */
  lemma ReplaceRunAt(s: seq<HeapBlock>, i: nat, j: nat, mid: seq<HeapBlock>, t: seq<HeapBlock>)
    requires WellFormed(s) && i < j <= |s| && |mid| > 0 && Contiguous(mid)
    requires mid[0].offset == s[i].offset && End(mid[|mid| - 1]) == End(s[j - 1])
    requires j == |s| ==> mid[|mid| - 1].free
    requires t == s[..i] + mid + s[j..]
    ensures WellFormed(t) && TotalSize(t) == TotalSize(s)
    ensures FreeMemory(t) + FreeMemory(s[i..j]) == FreeMemory(s) + FreeMemory(mid)
    ensures |t| == |s| - (j - i) + |mid| && t[..i] == s[..i] && t[i] == mid[0]
  {
    ReplaceRun(s, i, j, mid);
  }

  /** One block replaced by two that tile it: the step `split`, `reserveBlock` and its alignment step share. */
  lemma ReplaceByPair(s: seq<HeapBlock>, k: nat, a: HeapBlock, b: HeapBlock, t: seq<HeapBlock>)
    requires WellFormed(s) && k < |s| && a.offset == s[k].offset && End(a) == b.offset && End(b) == End(s[k])
    requires k == |s| - 1 ==> b.free
    requires t == s[..k] + [a, b] + s[k + 1..]
    ensures WellFormed(t) && TotalSize(t) == TotalSize(s) && |t| == |s| + 1
    ensures FreeMemory(t) + (if s[k].free then s[k].size else 0) == FreeMemory(s) + (if a.free then a.size else 0) + (if b.free then b.size else 0)
    ensures t[..k] == s[..k] && t[k] == a && t[k + 1] == b && t[k + 2..] == s[k + 1..]
  {
    assert Abuts([a, b], 1);
    SumsPair(a, b);
    SumsSingle(s[k]);
    assert s[k..k + 1] == [s[k]];
    ReplaceRunAt(s, k, k + 1, [a, b], t);
    assert t[k + 1] == b && t[k + 2..] == s[k + 1..];
  }

  /** `mergeBlock(block, prev)`: the block at `j + 1` absorbs the one before it and keeps its own state. */
  function MergeBlock(s: seq<HeapBlock>, j: nat): (r: seq<HeapBlock>)
    requires j + 1 < |s|
    ensures |r| == |s| - 1
  {
    s[..j] + [HeapBlock(s[j].offset, s[j].size + s[j + 1].size, s[j + 1].free)] + s[j + 2..]
  }

  /**
   * `free`: an allocated block is merged into a free predecessor, then
   * either marked free or merged into a free successor (the null block
   * included).
   */
  function FreeAt(s: seq<HeapBlock>, i: nat): seq<HeapBlock>
    requires WellFormed(s) && i < |s| && !s[i].free
  {
    var mergePrev := i > 0 && s[i - 1].free;
    var j := if mergePrev then i - 1 else i;
    var t := if mergePrev then MergeBlock(s, i - 1) else s;
    if !t[j + 1].free then t[j := t[j].(free := true)] else MergeBlock(t, j)
  }

  /** The run of blocks a free coalesces: the freed block with a free predecessor and a free successor, when there are. */
  function FreedRun(s: seq<HeapBlock>, i: nat): (run: (nat, nat))
    requires WellFormed(s) && i < |s| && !s[i].free
    ensures run.0 <= i < run.1 <= |s|
  {
    (if i > 0 && s[i - 1].free then i - 1 else i, if s[i + 1].free then i + 2 else i + 1)
  }

  /** Freeing replaces the freed block's run by one free block spanning it; nothing else changes. */
  lemma FreeMergesNeighbours(s: seq<HeapBlock>, i: nat)
    requires WellFormed(s) && i < |s| && !s[i].free
    ensures var (lo, hi) := FreedRun(s, i);
      FreeAt(s, i) == s[..lo] + [HeapBlock(s[lo].offset, TotalSize(s[lo..hi]), true)] + s[hi..]
  {
    if i > 0 && s[i - 1].free {
      if s[i + 1].free {
        FreeMergesBoth(s, i);
      } else {
        FreeMergesPrev(s, i);
      }
    } else if s[i + 1].free {
      FreeMergesNext(s, i);
    } else {
      FreeMergesNone(s, i);
    }
  }

  /** The bytes of the freed run. */
  lemma RunSize(s: seq<HeapBlock>, i: nat, lo: nat, hi: nat)
    requires WellFormed(s) && i < |s| && !s[i].free && (lo, hi) == FreedRun(s, i)
    ensures TotalSize(s[lo..hi]) == (if lo < i then s[i - 1].size else 0) + s[i].size + (if hi > i + 1 then s[i + 1].size else 0)
  {
    var b := s[i];
    SumsSingle(b);
    var left := s[lo..i];
    var right := s[i + 1..hi];
    assert s[lo..hi] == left + [b] + right;
    SumsConcat(left + [b], right);
    SumsConcat(left, [b]);
    if lo < i {
      assert left == [s[i - 1]];
      SumsSingle(s[i - 1]);
    } else {
      assert left == [];
    }
    if hi > i + 1 {
      assert right == [s[i + 1]];
      SumsSingle(s[i + 1]);
    } else {
      assert right == [];
    }
  }

  /** Freeing between two free neighbours: all three become one free block. */
  lemma FreeMergesBoth(s: seq<HeapBlock>, i: nat)
    requires WellFormed(s) && i < |s| && !s[i].free && i > 0 && s[i - 1].free && s[i + 1].free
    ensures FreeAt(s, i) == s[..i - 1] + [HeapBlock(s[i - 1].offset, TotalSize(s[i - 1..i + 2]), true)] + s[i + 2..]
  {
    RunSize(s, i, i - 1, i + 2);
    var m := HeapBlock(s[i - 1].offset, s[i - 1].size + s[i].size, false);
    var t := MergeBlock(s, i - 1);
    assert FreeAt(s, i) == MergeBlock(t, i - 1);
    MergeTwice(s, i, m, t);
  }

  /** Freeing after a free block and before an allocated one: the two become one free block. */
  lemma FreeMergesPrev(s: seq<HeapBlock>, i: nat)
    requires WellFormed(s) && i < |s| && !s[i].free && i > 0 && s[i - 1].free && !s[i + 1].free
    ensures FreeAt(s, i) == s[..i - 1] + [HeapBlock(s[i - 1].offset, TotalSize(s[i - 1..i + 1]), true)] + s[i + 1..]
  {
    RunSize(s, i, i - 1, i + 1);
    var m := HeapBlock(s[i - 1].offset, s[i - 1].size + s[i].size, false);
    var t := MergeBlock(s, i - 1);
    assert t == s[..i - 1] + [m] + s[i + 1..];
    assert t[i - 1] == m && t[i] == s[i + 1];
    assert FreeAt(s, i) == t[i - 1 := m.(free := true)];
    MarkFreeIn(s[..i - 1], m, s[i + 1..], t);
  }

  /** Freeing before a free block with no free block below: the two become one free block. */
  lemma FreeMergesNext(s: seq<HeapBlock>, i: nat)
    requires WellFormed(s) && i < |s| && !s[i].free && !(i > 0 && s[i - 1].free) && s[i + 1].free
    ensures FreeAt(s, i) == s[..i] + [HeapBlock(s[i].offset, TotalSize(s[i..i + 2]), true)] + s[i + 2..]
  {
    RunSize(s, i, i, i + 2);
    assert FreeAt(s, i) == MergeBlock(s, i);
  }

  /** Freeing between allocated blocks: the block is marked free. */
  lemma FreeMergesNone(s: seq<HeapBlock>, i: nat)
    requires WellFormed(s) && i < |s| && !s[i].free && !(i > 0 && s[i - 1].free) && !s[i + 1].free
    ensures FreeAt(s, i) == s[..i] + [HeapBlock(s[i].offset, TotalSize(s[i..i + 1]), true)] + s[i + 1..]
  {
    RunSize(s, i, i, i + 1);
    assert FreeAt(s, i) == s[i := s[i].(free := true)];
    MarkFreeIn(s[..i], s[i], s[i + 1..], s);
  }

  /** Marking the middle block of a list free. */
  lemma MarkFreeIn(a: seq<HeapBlock>, m: HeapBlock, c: seq<HeapBlock>, t: seq<HeapBlock>)
    requires t == a + [m] + c
    ensures t[|a| := m.(free := true)] == a + [m.(free := true)] + c
  {
  }

  lemma MergeTwice(s: seq<HeapBlock>, i: nat, m: HeapBlock, t: seq<HeapBlock>)
    requires 0 < i && i + 1 < |s| && t == s[..i - 1] + [m] + s[i + 1..]
    ensures MergeBlock(t, i - 1) == s[..i - 1] + [HeapBlock(m.offset, m.size + s[i + 1].size, s[i + 1].free)] + s[i + 2..]
  {
    assert t[..i - 1] == s[..i - 1] && t[i - 1] == m;
    assert t[i] == s[i + 1] && t[i + 1..] == s[i + 2..];
  }

  /** Freeing keeps the list well formed and its span, adds the block to the free memory, and keeps a coalesced list coalesced. */
  lemma FreeAtFacts(s: seq<HeapBlock>, i: nat)
    requires WellFormed(s) && i < |s| && !s[i].free
    ensures WellFormed(FreeAt(s, i)) && TotalSize(FreeAt(s, i)) == TotalSize(s)
    ensures FreeMemory(FreeAt(s, i)) == FreeMemory(s) + s[i].size
    ensures Coalesced(s) ==> Coalesced(FreeAt(s, i))
  {
    FreeMergesNeighbours(s, i);
    var (lo, hi) := FreedRun(s, i);
    var m := HeapBlock(s[lo].offset, TotalSize(s[lo..hi]), true);
    FreedRunReplaced(s, i, lo, hi, m);
    if Coalesced(s) {
      FreeKeepsCoalesced(s, i, lo, hi, m);
    }
  }

  lemma FreedRunReplaced(s: seq<HeapBlock>, i: nat, lo: nat, hi: nat, m: HeapBlock)
    requires WellFormed(s) && i < |s| && !s[i].free && (lo, hi) == FreedRun(s, i)
    requires m == HeapBlock(s[lo].offset, TotalSize(s[lo..hi]), true)
    ensures WellFormed(s[..lo] + [m] + s[hi..]) && TotalSize(s[..lo] + [m] + s[hi..]) == TotalSize(s)
    ensures FreeMemory(s[..lo] + [m] + s[hi..]) == FreeMemory(s) + s[i].size
  {
    ContiguousSlice(s, lo, hi);
    Tiling(s[lo..hi]);
    SumsSingle(m);
    ReplaceRun(s, lo, hi, [m]);
    RunFreeMemory(s, i, lo, hi);
  }

  lemma FreeKeepsCoalesced(s: seq<HeapBlock>, i: nat, lo: nat, hi: nat, m: HeapBlock)
    requires WellFormed(s) && Coalesced(s) && i < |s| && !s[i].free && (lo, hi) == FreedRun(s, i) && m.free
    ensures Coalesced(s[..lo] + [m] + s[hi..])
  {
    var r := s[..lo] + [m] + s[hi..];
    assert lo > 0 ==> !s[lo - 1].free by {
      if lo > 0 && lo < i {
        assert Apart(s, lo);
      }
    }
    assert hi < |s| ==> !s[hi].free by {
      if hi < |s| && hi > i + 1 {
        assert Apart(s, hi);
      }
    }
    forall k | 0 < k < |r|
      ensures Apart(r, k)
    {
      if k < lo {
        assert Apart(s, k);
        assert r[k - 1] == s[k - 1] && r[k] == s[k];
      } else if k == lo {
        assert r[k - 1] == s[lo - 1];
      } else if k == lo + 1 {
        assert r[k] == s[hi];
      } else {
        assert Apart(s, k - lo + hi - 1);
        assert r[k - 1] == s[k - lo - 2 + hi] && r[k] == s[k - lo - 1 + hi];
      }
    }
  }

  /** In the freed run only the freed block is allocated. */
  lemma RunFreeMemory(s: seq<HeapBlock>, i: nat, lo: nat, hi: nat)
    requires WellFormed(s) && i < |s| && !s[i].free && (lo, hi) == FreedRun(s, i)
    ensures FreeMemory(s[lo..hi]) + s[i].size == TotalSize(s[lo..hi])
  {
    var b := s[i];
    SumsSingle(b);
    var left := s[lo..i];
    var right := s[i + 1..hi];
    assert s[lo..hi] == left + [b] + right;
    SumsConcat(left + [b], right);
    SumsConcat(left, [b]);
    if lo < i {
      assert left == [s[i - 1]];
      SumsSingle(s[i - 1]);
    } else {
      assert left == [];
    }
    if hi > i + 1 {
      assert right == [s[i + 1]];
      SumsSingle(s[i + 1]);
    } else {
      assert right == [];
    }
  }

  /** `split`'s checks on the midpoint: inside the block and not on its first byte. */
  function SplitStatus(b: HeapBlock, midpoint: nat): OsStatus
  {
    if midpoint < b.offset || midpoint >= End(b) then InvalidInput
    else if midpoint - b.offset == b.size || midpoint - b.offset > b.size || midpoint - b.offset == 0 then InvalidInput
    else Success
  }

  /** `splitBlock`: the block becomes two allocated blocks meeting at the midpoint. */
  function SplitBlocks(s: seq<HeapBlock>, i: nat, midpoint: nat): seq<HeapBlock>
    requires i < |s| && s[i].offset <= midpoint <= End(s[i])
  {
    s[..i] + [HeapBlock(s[i].offset, midpoint - s[i].offset, false), HeapBlock(midpoint, End(s[i]) - midpoint, false)] + s[i + 1..]
  }

  /** `split`: the low half keeps the block's place, the high half follows it. */
  function Split(s: seq<HeapBlock>, i: nat, midpoint: nat): HeapResult
    requires i < |s|
  {
    if SplitStatus(s[i], midpoint) != Success then HeapResult(SplitStatus(s[i], midpoint), s, i)
    else HeapResult(Success, SplitBlocks(s, i, midpoint), i)
  }

  /**
   * A split succeeds exactly for a midpoint strictly inside the block; the
   * halves are allocated, meet at the midpoint and tile the block, and the
   * list keeps its shape, span and free memory. A failed split changes
   * nothing.
   */
  lemma SplitFacts(s: seq<HeapBlock>, i: nat, midpoint: nat)
    requires WellFormed(s) && i < |s| && !s[i].free
    ensures var r := Split(s, i, midpoint);
      (r.status == Success <==> s[i].offset < midpoint < End(s[i])) &&
      (r.status != Success ==> r.status == InvalidInput && r.blocks == s)
    ensures var r := Split(s, i, midpoint);
      r.status == Success ==>
        WellFormed(r.blocks) && TotalSize(r.blocks) == TotalSize(s) && FreeMemory(r.blocks) == FreeMemory(s) &&
        |r.blocks| == |s| + 1 && r.index == i && r.blocks[..i] == s[..i] && r.blocks[i + 2..] == s[i + 1..] &&
        !r.blocks[i].free && !r.blocks[i + 1].free &&
        r.blocks[i].offset == s[i].offset && End(r.blocks[i]) == midpoint == r.blocks[i + 1].offset &&
        End(r.blocks[i + 1]) == End(s[i])
  {
    if s[i].offset < midpoint < End(s[i]) {
      SplitBlocksShape(s, i, midpoint);
    }
  }

  /** The blocks of a successful split: two allocated halves that tile the block, in a list that keeps its shape, span and free memory. */
  lemma SplitBlocksShape(s: seq<HeapBlock>, i: nat, midpoint: nat)
    requires WellFormed(s) && i < |s| && !s[i].free && s[i].offset < midpoint < End(s[i])
    ensures var t := SplitBlocks(s, i, midpoint);
      WellFormed(t) && TotalSize(t) == TotalSize(s) && FreeMemory(t) == FreeMemory(s) &&
      |t| == |s| + 1 && t[..i] == s[..i] && t[i + 2..] == s[i + 1..] && !t[i].free && !t[i + 1].free &&
      t[i].offset == s[i].offset && End(t[i]) == midpoint == t[i + 1].offset && End(t[i + 1]) == End(s[i])
  {
    var lo := HeapBlock(s[i].offset, midpoint - s[i].offset, false);
    var hi := HeapBlock(midpoint, End(s[i]) - midpoint, false);
    ReplaceByPair(s, i, lo, hi, SplitBlocks(s, i, midpoint));
  }

  /** The part of `SplitBlocksShape` that `shrink` needs to free the high half. */
  lemma SplitBlocksFormed(s: seq<HeapBlock>, i: nat, midpoint: nat)
    requires WellFormed(s) && i < |s| && !s[i].free && s[i].offset < midpoint < End(s[i])
    ensures var t := SplitBlocks(s, i, midpoint); WellFormed(t) && |t| == |s| + 1 && !t[i + 1].free
  {
    SplitBlocksShape(s, i, midpoint);
  }

  /** `grow`'s own check: it stops the kernel rather than consume the whole null block. */
  predicate GrowConsumesNullBlock(s: seq<HeapBlock>, i: nat, size: nat)
    requires i + 1 < |s|
  {
    i + 1 == |s| - 1 && size > s[i].size && s[i + 1].size == size - s[i].size
  }

  /**
   * `grow`, as evidently intended: an allocation grows in place into a free
   * successor, which gives up the bytes it needs or, when it has exactly
   * that many, disappears.
   */
  function Grow(s: seq<HeapBlock>, i: nat, size: nat): HeapResult
    requires WellFormed(s) && i < |s| && !s[i].free && !GrowConsumesNullBlock(s, i, size)
  {
    var b := s[i];
    var next := s[i + 1];
    if size == b.size then HeapResult(Success, s, i)
    else if size < b.size then HeapResult(InvalidInput, s, i)
    else if !next.free then HeapResult(OutOfMemory, s, i)
    else if next.size >= size - b.size then HeapResult(Success, s[..i] + GrowMid(b, next, size) + s[i + 2..], i)
    else HeapResult(OutOfMemory, s, i)
  }

  /** The blocks that replace an allocation and its free successor when it grows: it takes the bytes it needs from the front of the successor, which disappears when it has no more. */
  function GrowMid(b: HeapBlock, next: HeapBlock, size: nat): seq<HeapBlock>
    requires b.size < size <= b.size + next.size
  {
    var extra := size - b.size;
    if next.size == extra then [b.(size := size)]
    else [b.(size := size), HeapBlock(next.offset + extra, next.size - extra, true)]
  }

  lemma GrowMidFacts(b: HeapBlock, next: HeapBlock, size: nat)
    requires End(b) == next.offset && b.size < size <= b.size + next.size
    ensures var m := GrowMid(b, next, size);
      |m| > 0 && Contiguous(m) && m[0] == b.(size := size) && End(m[|m| - 1]) == End(next) &&
      (next.size != size - b.size ==> m[|m| - 1].free) &&
      FreeMemory(m) + size == b.size + next.size + (if b.free then size else 0)
  {
    var extra := size - b.size;
    var g := b.(size := size);
    if next.size == extra {
      SumsSingle(g);
    } else {
      SumsPair(g, HeapBlock(next.offset + extra, next.size - extra, true));
    }
  }

  /**
   * Growing succeeds for the same size, or when the successor is free and
   * large enough; a smaller size is invalid input, and anything else is out
   * of memory with nothing changed. On success the allocation keeps its
   * address, has the new size, and the list keeps its shape and span.
   */
  lemma GrowFacts(s: seq<HeapBlock>, i: nat, size: nat)
    requires WellFormed(s) && i < |s| && !s[i].free && !GrowConsumesNullBlock(s, i, size)
    ensures var r := Grow(s, i, size);
      (r.status == Success <==> size == s[i].size || (size > s[i].size && s[i + 1].free && s[i + 1].size >= size - s[i].size)) &&
      (r.status == InvalidInput <==> size < s[i].size) &&
      (r.status != Success ==> (r.status == InvalidInput || r.status == OutOfMemory) && r.blocks == s)
    ensures var r := Grow(s, i, size);
      r.status == Success ==>
        WellFormed(r.blocks) && TotalSize(r.blocks) == TotalSize(s) && r.index == i &&
        r.blocks[i] == HeapBlock(s[i].offset, size, false) && r.blocks[..i] == s[..i] &&
        FreeMemory(r.blocks) + size == FreeMemory(s) + s[i].size
  {
    var b := s[i];
    var next := s[i + 1];
    if size > b.size && next.free && next.size >= size - b.size {
      GrowInPlace(s, i, size);
    } else {
      assert Grow(s, i, size).blocks == s;
    }
  }

  lemma GrowInPlace(s: seq<HeapBlock>, i: nat, size: nat)
    requires WellFormed(s) && i < |s| && !s[i].free && !GrowConsumesNullBlock(s, i, size)
    requires size > s[i].size && s[i + 1].free && s[i + 1].size >= size - s[i].size
    ensures var r := Grow(s, i, size);
      r.status == Success && WellFormed(r.blocks) && TotalSize(r.blocks) == TotalSize(s) && r.index == i &&
      r.blocks[i] == HeapBlock(s[i].offset, size, false) && r.blocks[..i] == s[..i] &&
      FreeMemory(r.blocks) + size == FreeMemory(s) + s[i].size
  {
    assert Grow(s, i, size) == HeapResult(Success, s[..i] + GrowMid(s[i], s[i + 1], size) + s[i + 2..], i);
    GrowTail(s, i, size);
  }

  /** The list after an allocation takes bytes from its free successor. */
  lemma GrowTail(s: seq<HeapBlock>, i: nat, size: nat)
    requires WellFormed(s) && i + 1 < |s| && !s[i].free && !GrowConsumesNullBlock(s, i, size)
    requires size > s[i].size && s[i + 1].free && s[i + 1].size >= size - s[i].size
    ensures var t := s[..i] + GrowMid(s[i], s[i + 1], size) + s[i + 2..];
      WellFormed(t) && TotalSize(t) == TotalSize(s) &&
      t[i] == HeapBlock(s[i].offset, size, false) && t[..i] == s[..i] &&
      FreeMemory(t) + size == FreeMemory(s) + s[i].size
  {
    var b := s[i];
    var next := s[i + 1];
    var mid := GrowMid(b, next, size);
    assert s[i..i + 2] == [b, next];
    SumsPair(b, next);
    assert Abuts(s, i + 1);
    GrowMidFacts(b, next, size);
    ReplaceRunAt(s, i, i + 2, mid, s[..i] + mid + s[i + 2..]);
  }

  /** `resizeBlock` as written: the size changes only when it moves the block to another free list. */
  function ResizeBlockAsWritten(b: HeapBlock, newSize: nat): HeapBlock
    requires 0 < b.size < Tlsf.SizeLimit && 0 < newSize < Tlsf.SizeLimit
  {
    if Tlsf.GetListIndexOfSize(b.size) != Tlsf.GetListIndexOfSize(newSize) then b.(size := newSize) else b
  }

  /**
   * `grow` as written: when the successor is used up it absorbs the grown
   * block, whose size already includes the extra bytes; otherwise the
   * successor moves up but `resizeBlock` may leave its size alone.
   */
  function GrowAsWritten(s: seq<HeapBlock>, i: nat, size: nat): HeapResult
    requires WellFormed(s) && i < |s| && !s[i].free && !GrowConsumesNullBlock(s, i, size)
    requires s[i + 1].size < Tlsf.SizeLimit
  {
    var b := s[i];
    var next := s[i + 1];
    if size == b.size then HeapResult(Success, s, i)
    else if size < b.size then HeapResult(InvalidInput, s, i)
    else if !next.free then HeapResult(OutOfMemory, s, i)
    else if next.size >= size - b.size then
      var extra := size - b.size;
      var moved := next.(offset := next.offset + extra);
      if next.size == extra then HeapResult(Success, s[..i] + [HeapBlock(b.offset, extra + size, false)] + s[i + 2..], i)
      else if i + 1 < |s| - 1 then
        HeapResult(Success, s[..i] + [b.(size := size), ResizeBlockAsWritten(moved, next.size - extra)] + s[i + 2..], i)
      else HeapResult(Success, s[..i] + [b.(size := size), moved.(size := next.size - extra)] + s[i + 2..], i)
    else HeapResult(OutOfMemory, s, i)
  }

  /** Growing a 16-byte allocation to 32 into a 16-byte free neighbour yields a 48-byte block that overlaps the next one. */
  lemma GrowAsWrittenOverlapsNext()
    ensures var s := [HeapBlock(0, 16, false), HeapBlock(16, 16, true), HeapBlock(32, 16, false), HeapBlock(48, 0, true)];
      var r := GrowAsWritten(s, 0, 32);
      WellFormed(s) && r.status == Success && r.blocks[0] == HeapBlock(0, 48, false) && !WellFormed(r.blocks) &&
      Grow(s, 0, 32).blocks[0] == HeapBlock(0, 32, false) && WellFormed(Grow(s, 0, 32).blocks)
  {
    var s := [HeapBlock(0, 16, false), HeapBlock(16, 16, true), HeapBlock(32, 16, false), HeapBlock(48, 0, true)];
    var r := GrowAsWritten(s, 0, 32);
    assert r.blocks == [HeapBlock(0, 48, false), HeapBlock(32, 16, false), HeapBlock(48, 0, true)];
    assert !Abuts(r.blocks, 1);
    GrowFacts(s, 0, 32);
  }

  /** Growing by 2 bytes into a 100-byte free neighbour leaves that neighbour's size at 100, overlapping the block after it. */
  lemma GrowAsWrittenKeepsStaleSize()
    ensures var s := [HeapBlock(0, 16, false), HeapBlock(16, 100, true), HeapBlock(116, 16, false), HeapBlock(132, 0, true)];
      var r := GrowAsWritten(s, 0, 18);
      WellFormed(s) && r.status == Success && r.blocks[1] == HeapBlock(18, 100, true) && !WellFormed(r.blocks) &&
      Grow(s, 0, 18).blocks[1] == HeapBlock(18, 98, true) && WellFormed(Grow(s, 0, 18).blocks)
  {
    var s := [HeapBlock(0, 16, false), HeapBlock(16, 100, true), HeapBlock(116, 16, false), HeapBlock(132, 0, true)];
    assert Tlsf.GetListIndexOfSize(100) == 12 == Tlsf.GetListIndexOfSize(98);
    var r := GrowAsWritten(s, 0, 18);
    assert r.blocks == [HeapBlock(0, 18, false), HeapBlock(18, 100, true), HeapBlock(116, 16, false), HeapBlock(132, 0, true)];
    assert !Abuts(r.blocks, 2);
    GrowFacts(s, 0, 18);
  }

  /** `shrink`: the allocation is split at its new end and the tail is freed. */
  function Shrink(s: seq<HeapBlock>, i: nat, size: nat): HeapResult
    requires WellFormed(s) && i < |s| && !s[i].free
  {
    var b := s[i];
    if size == b.size then HeapResult(Success, s, i)
    else if size > b.size then HeapResult(InvalidInput, s, i)
    else
      var mid := b.offset + size;
      if SplitStatus(b, mid) != Success then HeapResult(SplitStatus(b, mid), s, i)
      else
        SplitBlocksShape(s, i, mid);
        HeapResult(Success, FreeAt(SplitBlocks(s, i, mid), i + 1), i)
  }

  /**
   * Shrinking succeeds for the same size or a smaller non-zero one; a larger
   * size or zero is invalid input and changes nothing. On success the
   * allocation keeps its address and has the new size, the blocks before it
   * are untouched and the cut-off bytes become free.
   */
  lemma ShrinkFacts(s: seq<HeapBlock>, i: nat, size: nat)
    requires WellFormed(s) && i < |s| && !s[i].free
    ensures var r := Shrink(s, i, size);
      (r.status == Success <==> size == s[i].size || 0 < size < s[i].size) &&
      (r.status != Success ==> r.status == InvalidInput && r.blocks == s)
    ensures var r := Shrink(s, i, size);
      r.status == Success ==>
        WellFormed(r.blocks) && TotalSize(r.blocks) == TotalSize(s) && r.index == i &&
        r.blocks[i] == HeapBlock(s[i].offset, size, false) && r.blocks[..i] == s[..i] &&
        FreeMemory(r.blocks) + size == FreeMemory(s) + s[i].size
  {
    var b := s[i];
    SplitFacts(s, i, b.offset + size);
    if 0 < size < b.size {
      ShrinkInPlace(s, i, size);
    }
  }

  lemma ShrinkInPlace(s: seq<HeapBlock>, i: nat, size: nat)
    requires WellFormed(s) && i < |s| && !s[i].free && 0 < size < s[i].size
    ensures var r := Shrink(s, i, size);
      r.status == Success && WellFormed(r.blocks) && TotalSize(r.blocks) == TotalSize(s) && r.index == i &&
      r.blocks[i] == HeapBlock(s[i].offset, size, false) && r.blocks[..i] == s[..i] &&
      FreeMemory(r.blocks) + size == FreeMemory(s) + s[i].size
  {
    ShrinkIs(s, i, size);
    ShrinkTail(s, i, size);
  }

  lemma ShrinkIs(s: seq<HeapBlock>, i: nat, size: nat)
    requires WellFormed(s) && i < |s| && !s[i].free && 0 < size < s[i].size
    ensures s[i].offset < s[i].offset + size < End(s[i])
    ensures var t := SplitBlocks(s, i, s[i].offset + size); WellFormed(t) && |t| == |s| + 1 && !t[i + 1].free
    ensures Shrink(s, i, size) == HeapResult(Success, FreeAt(SplitBlocks(s, i, s[i].offset + size), i + 1), i)
  {
    var mid := s[i].offset + size;
    SplitBlocksFormed(s, i, mid);
    assert SplitStatus(s[i], mid) == Success;
    assert Shrink(s, i, size).status == Success;
    assert Shrink(s, i, size).index == i;
  }

  /** Freeing the high half of a split allocation leaves the low half in place and frees the cut-off bytes. */
  lemma ShrinkTail(s: seq<HeapBlock>, i: nat, size: nat)
    requires WellFormed(s) && i < |s| && !s[i].free && 0 < size < s[i].size
    ensures s[i].offset < s[i].offset + size < End(s[i])
    ensures var t := SplitBlocks(s, i, s[i].offset + size); WellFormed(t) && |t| == |s| + 1 && !t[i + 1].free
    ensures var r := FreeAt(SplitBlocks(s, i, s[i].offset + size), i + 1);
      WellFormed(r) && TotalSize(r) == TotalSize(s) && r[i] == HeapBlock(s[i].offset, size, false) && r[..i] == s[..i] &&
      FreeMemory(r) + size == FreeMemory(s) + s[i].size
  {
    var t := SplitBlocks(s, i, s[i].offset + size);
    SplitBlocksShape(s, i, s[i].offset + size);
    var r := FreeAt(t, i + 1);
    FreeAtFacts(t, i + 1);
    assert t[i + 1].size + size == s[i].size;
    FreeKeepsPrefix(t, i + 1, r);
    assert r[..i] == t[..i];
  }

  /** Freeing a block whose predecessor is allocated leaves every block before it alone. */
  lemma FreeKeepsPrefix(t: seq<HeapBlock>, j: nat, r: seq<HeapBlock>)
    requires WellFormed(t) && 0 < j < |t| && !t[j].free && !t[j - 1].free && r == FreeAt(t, j)
    ensures |r| >= j && r[..j] == t[..j]
  {
    if t[j + 1].free {
      FreeMergesNext(t, j);
    } else {
      FreeMergesNone(t, j);
    }
    assert r[..j] == t[..j];
  }

  /** `resize`: zero is invalid input, a smaller size shrinks, a larger one grows. */
  function Resize(s: seq<HeapBlock>, i: nat, size: nat): HeapResult
    requires WellFormed(s) && i < |s| && !s[i].free && !GrowConsumesNullBlock(s, i, size)
  {
    if size == 0 then HeapResult(InvalidInput, s, i)
    else if size == s[i].size then HeapResult(Success, s, i)
    else if size < s[i].size then Shrink(s, i, size)
    else Grow(s, i, size)
  }

  /** A successful resize leaves the allocation at its address with the requested size; a failed one changes nothing. */
  lemma ResizeFacts(s: seq<HeapBlock>, i: nat, size: nat)
    requires WellFormed(s) && i < |s| && !s[i].free && !GrowConsumesNullBlock(s, i, size)
    ensures var r := Resize(s, i, size);
      (size == 0 ==> r.status == InvalidInput) &&
      (0 < size <= s[i].size ==> r.status == Success) &&
      (r.status != Success ==> r.blocks == s)
    ensures var r := Resize(s, i, size);
      r.status == Success ==>
        WellFormed(r.blocks) && TotalSize(r.blocks) == TotalSize(s) && r.index == i &&
        r.blocks[i] == HeapBlock(s[i].offset, size, false)
  {
    ShrinkFacts(s, i, size);
    GrowFacts(s, i, size);
  }

  /** The walk of `reserve` from the null block down: the highest block below `n` that contains the range. */
  function LastContaining(s: seq<HeapBlock>, range: Range, n: nat): (k: Option<nat>)
    requires n <= |s|
    ensures k.Some? ==> k.value < n && Contains(BlockRange(s[k.value]), range) &&
                        forall j :: k.value < j < n ==> !Contains(BlockRange(s[j]), range)
    ensures k.None? ==> forall j :: 0 <= j < n ==> !Contains(BlockRange(s[j]), range)
  {
    if n == 0 then None
    else if Contains(BlockRange(s[n - 1]), range) then Some(n - 1)
    else LastContaining(s, range, n - 1)
  }

  /**
   * `splitBlockForAllocationIfRequired` and the alignment step of
   * `reserveBlock`: the bytes of a free block below `front` become a free
   * block of their own, so that the block at the returned index starts at
   * `front`. In a coalesced list the predecessor of a free block is in
   * use, so `reserveBlock`'s path that grows a free predecessor is never
   * taken and is not modelled.
   */
  function CarveFront(s: seq<HeapBlock>, k: nat, front: nat): (r: (seq<HeapBlock>, nat))
    requires k < |s| && s[k].offset <= front <= End(s[k])
  {
    var missing := front - s[k].offset;
    var rest := HeapBlock(front, End(s[k]) - front, s[k].free);
    if missing == 0 then (s, k)
    else (s[..k] + [HeapBlock(s[k].offset, missing, true), rest] + s[k + 1..], k + 1)
  }

  /**
   * The rest of `reserveBlock`: the block at `m` keeps `size` bytes and is
   * allocated; what is left above becomes a free block, which is the new
   * null block when the null block was reserved.
   */
  function CarveBack(t: seq<HeapBlock>, m: nat, size: nat): seq<HeapBlock>
    requires m < |t| && size <= t[m].size
  {
    var b := t[m];
    if b.size == size then
      if m == |t| - 1 then t[..m] + [b.(free := false), HeapBlock(End(b), 0, true)] else t[m := b.(free := false)]
    else t[..m] + [HeapBlock(b.offset, size, false), HeapBlock(b.offset + size, b.size - size, true)] + t[m + 1..]
  }

  /** `reserve` on a compacted list: allocate exactly the given range. */
  function ReserveIn(s: seq<HeapBlock>, range: Range): HeapResult
    requires WellFormed(s) && Coalesced(s) && IsValid(range)
  {
    match LastContaining(s, range, |s|)
    case None => HeapResult(NotFound, s, 0)
    case Some(k) =>
      if !s[k].free then HeapResult(NotAvailable, s, k)
      else
        var (t, m) := CarveFront(s, k, range.front);
        HeapResult(Success, CarveBack(t, m, Size(range)), m)
  }

  /**
   * Reserving fails with NotFound when no block contains the range and
   * with NotAvailable when the highest block that does is allocated,
   * changing nothing; otherwise the block handed back is exactly the range,
   * allocated, the list keeps its shape and span, and the free memory drops
   * by the range's size.
   */
  lemma ReserveFacts(s: seq<HeapBlock>, range: Range)
    requires WellFormed(s) && Coalesced(s) && IsValid(range)
    ensures var r := ReserveIn(s, range);
      (r.status == NotFound <==> forall j :: 0 <= j < |s| ==> !Contains(BlockRange(s[j]), range)) &&
      (r.status == NotAvailable <==> LastContaining(s, range, |s|).Some? && !s[LastContaining(s, range, |s|).value].free) &&
      (r.status == Success || r.status == NotFound || r.status == NotAvailable) &&
      (r.status != Success ==> r.blocks == s)
    ensures var r := ReserveIn(s, range);
      r.status == Success ==>
        WellFormed(r.blocks) && TotalSize(r.blocks) == TotalSize(s) && r.index < |r.blocks| &&
        r.blocks[r.index] == HeapBlock(range.front, Size(range), false) &&
        FreeMemory(r.blocks) + Size(range) == FreeMemory(s)
  {
    var found := LastContaining(s, range, |s|);
    if found.Some? && s[found.value].free {
      var k := found.value;
      var (t, m) := CarveFront(s, k, range.front);
      CarveFrontFacts(s, k, range.front);
      CarveBackFacts(t, m, Size(range));
    }
  }

  lemma CarveFrontFacts(s: seq<HeapBlock>, k: nat, front: nat)
    requires WellFormed(s) && k < |s| && s[k].free && s[k].offset <= front <= End(s[k])
    ensures var (t, m) := CarveFront(s, k, front);
      WellFormed(t) && TotalSize(t) == TotalSize(s) && FreeMemory(t) == FreeMemory(s) &&
      m < |t| && t[m] == HeapBlock(front, End(s[k]) - front, true)
  {
    var missing := front - s[k].offset;
    if missing > 0 {
      var low := HeapBlock(s[k].offset, missing, true);
      var rest := HeapBlock(front, End(s[k]) - front, true);
      ReplaceByPair(s, k, low, rest, CarveFront(s, k, front).0);
    }
  }

  lemma CarveBackFacts(t: seq<HeapBlock>, m: nat, size: nat)
    requires WellFormed(t) && m < |t| && t[m].free && size <= t[m].size
    ensures var r := CarveBack(t, m, size);
      WellFormed(r) && TotalSize(r) == TotalSize(t) && m < |r| &&
      r[m] == HeapBlock(t[m].offset, size, false) && FreeMemory(r) + size == FreeMemory(t)
  {
    var b := t[m];
    var used := HeapBlock(b.offset, size, false);
    var r := CarveBack(t, m, size);
    if b.size == size {
      if m == |t| - 1 {
        ReplaceByPair(t, m, used, HeapBlock(End(b), 0, true), r);
      } else {
        CarveWholeInner(t, m, r);
      }
    } else {
      ReplaceByPair(t, m, used, HeapBlock(b.offset + size, b.size - size, true), r);
    }
  }

  /** A free block below the last one, taken whole, is marked used in place. */
  lemma CarveWholeInner(t: seq<HeapBlock>, m: nat, r: seq<HeapBlock>)
    requires WellFormed(t) && m < |t| - 1 && t[m].free && r == t[m := t[m].(free := false)]
    ensures WellFormed(r) && TotalSize(r) == TotalSize(t) && |r| == |t|
    ensures r[m] == HeapBlock(t[m].offset, t[m].size, false) && FreeMemory(r) + t[m].size == FreeMemory(t)
  {
    var b := t[m];
    var used := HeapBlock(b.offset, b.size, false);
    SumsSingle(b);
    SumsSingle(used);
    assert t[m..m + 1] == [b];
    assert r == t[..m] + [used] + t[m + 1..];
    ReplaceRunAt(t, m, m + 1, [used], r);
  }

  /**
   * One step of `compact`'s walk from the null block down: `cur` is the
   * block under the cursor, `prefix` the blocks below it and `done` those
   * above it. A free block absorbs a free predecessor; otherwise the
   * cursor moves down.
   */
  function CompactFrom(prefix: seq<HeapBlock>, cur: HeapBlock, done: seq<HeapBlock>): seq<HeapBlock>
    decreases |prefix|
  {
    if |prefix| == 0 then [cur] + done
    else
      var prev := prefix[|prefix| - 1];
      if cur.free && prev.free then CompactFrom(prefix[..|prefix| - 1], HeapBlock(prev.offset, prev.size + cur.size, cur.free), done)
      else CompactFrom(prefix[..|prefix| - 1], prev, [cur] + done)
  }

  /** `compact`: the whole walk. */
  function Compact(s: seq<HeapBlock>): seq<HeapBlock>
    requires |s| > 0
  {
    CompactFrom(s[..|s| - 1], s[|s| - 1], [])
  }

  lemma {:induction false} CompactFromFacts(prefix: seq<HeapBlock>, cur: HeapBlock, done: seq<HeapBlock>)
    requires WellFormed(prefix + [cur] + done) && Coalesced([cur] + done)
    ensures var r := CompactFrom(prefix, cur, done);
      WellFormed(r) && Coalesced(r) && TotalSize(r) == TotalSize(prefix + [cur] + done) &&
      FreeMemory(r) == FreeMemory(prefix + [cur] + done)
    decreases |prefix|, 1
  {
    if |prefix| == 0 {
      assert prefix + [cur] + done == [cur] + done;
    } else if cur.free && prefix[|prefix| - 1].free {
      CompactFromMerge(prefix, cur, done);
    } else {
      CompactFromPush(prefix, cur, done);
    }
  }

  /** The merging step of `CompactFromFacts`. */
  lemma {:induction false} CompactFromMerge(prefix: seq<HeapBlock>, cur: HeapBlock, done: seq<HeapBlock>)
    requires WellFormed(prefix + [cur] + done) && Coalesced([cur] + done)
    requires |prefix| > 0 && cur.free && prefix[|prefix| - 1].free
    ensures var r := CompactFrom(prefix, cur, done);
      WellFormed(r) && Coalesced(r) && TotalSize(r) == TotalSize(prefix + [cur] + done) &&
      FreeMemory(r) == FreeMemory(prefix + [cur] + done)
    decreases |prefix|, 0
  {
    var n := |prefix| - 1;
    var prev := prefix[n];
    var init := prefix[..n];
    assert prefix + [cur] + done == init + [prev, cur] + done;
    CompactMergeStep(init, prev, cur, done);
    CompactFromFacts(init, HeapBlock(prev.offset, prev.size + cur.size, cur.free), done);
  }

  /** The stepping step of `CompactFromFacts`. */
  lemma {:induction false} CompactFromPush(prefix: seq<HeapBlock>, cur: HeapBlock, done: seq<HeapBlock>)
    requires WellFormed(prefix + [cur] + done) && Coalesced([cur] + done)
    requires |prefix| > 0 && !(cur.free && prefix[|prefix| - 1].free)
    ensures var r := CompactFrom(prefix, cur, done);
      WellFormed(r) && Coalesced(r) && TotalSize(r) == TotalSize(prefix + [cur] + done) &&
      FreeMemory(r) == FreeMemory(prefix + [cur] + done)
    decreases |prefix|, 0
  {
    var n := |prefix| - 1;
    var prev := prefix[n];
    var init := prefix[..n];
    CompactPushStep(prev, cur, done);
    assert prefix + [cur] + done == init + [prev] + ([cur] + done);
    CompactFromFacts(init, prev, [cur] + done);
  }

  /** A free block absorbing its free predecessor keeps the list's shape, span, free memory and base. */
  lemma CompactMergeStep(init: seq<HeapBlock>, prev: HeapBlock, cur: HeapBlock, done: seq<HeapBlock>)
    requires WellFormed(init + [prev, cur] + done) && prev.free && cur.free
    ensures var m := HeapBlock(prev.offset, prev.size + cur.size, cur.free);
      var whole := init + [prev, cur] + done;
      var t := init + [m] + done;
      WellFormed(t) && TotalSize(t) == TotalSize(whole) && FreeMemory(t) == FreeMemory(whole) &&
      (Coalesced([cur] + done) ==> Coalesced([m] + done))
  {
    var m := HeapBlock(prev.offset, prev.size + cur.size, cur.free);
    var whole := init + [prev, cur] + done;
    var n := |init|;
    assert whole[n] == prev && whole[n + 1] == cur;
    assert Abuts(whole, n + 1);
    assert whole[..n] == init && whole[n + 2..] == done && whole[n..n + 2] == [prev] + [cur];
    SumsSingle(prev);
    SumsSingle(cur);
    SumsSingle(m);
    SumsConcat([prev], [cur]);
    ReplaceRunAt(whole, n, n + 2, [m], init + [m] + done);
    if Coalesced([cur] + done) {
      forall k | 0 < k < |[m] + done|
        ensures Apart([m] + done, k)
      {
        assert Apart([cur] + done, k);
        assert ([cur] + done)[k] == ([m] + done)[k];
        assert ([cur] + done)[k - 1].free == ([m] + done)[k - 1].free;
      }
    }
  }

  /** Moving the cursor past an allocated block, or past a free one after an allocated one, keeps the walked part coalesced. */
  lemma CompactPushStep(prev: HeapBlock, cur: HeapBlock, done: seq<HeapBlock>)
    requires Coalesced([cur] + done) && !(prev.free && cur.free)
    ensures Coalesced([prev] + ([cur] + done))
  {
    var r := [prev] + ([cur] + done);
    forall k | 0 < k < |r|
      ensures Apart(r, k)
    {
      if k > 1 {
        assert Apart([cur] + done, k - 1);
        assert r[k - 1] == ([cur] + done)[k - 2] && r[k] == ([cur] + done)[k - 1];
      } else {
        assert r[0] == prev && r[1] == cur;
      }
    }
  }

  /** Compacting merges every run of free blocks: the list keeps its shape, span and free memory and comes out coalesced. */
  lemma CompactFacts(s: seq<HeapBlock>)
    requires WellFormed(s)
    ensures WellFormed(Compact(s)) && Coalesced(Compact(s))
    ensures TotalSize(Compact(s)) == TotalSize(s) && FreeMemory(Compact(s)) == FreeMemory(s)
    ensures Compact(s)[0].offset == s[0].offset
  {
    assert s == s[..|s| - 1] + [s[|s| - 1]] + [];
    CompactFromFacts(s[..|s| - 1], s[|s| - 1], []);
    CompactKeepsBase(s[..|s| - 1], s[|s| - 1], []);
  }

  /** Compacting never moves the bottom of the heap. */
  lemma {:induction false} CompactKeepsBase(prefix: seq<HeapBlock>, cur: HeapBlock, done: seq<HeapBlock>)
    ensures var r := CompactFrom(prefix, cur, done);
      |r| > 0 && r[0].offset == (prefix + [cur] + done)[0].offset
    decreases |prefix|
  {
    if |prefix| > 0 {
      var n := |prefix| - 1;
      var prev := prefix[n];
      var init := prefix[..n];
      assert (prefix + [cur] + done)[0] == (if n == 0 then prev else init[0]);
      if cur.free && prev.free {
        CompactKeepsBase(init, HeapBlock(prev.offset, prev.size + cur.size, cur.free), done);
        assert (init + [HeapBlock(prev.offset, prev.size + cur.size, cur.free)] + done)[0].offset == (prefix + [cur] + done)[0].offset;
      } else {
        CompactKeepsBase(init, prev, [cur] + done);
        assert (init + [prev] + ([cur] + done))[0] == (prefix + [cur] + done)[0];
      }
    }
  }
}
