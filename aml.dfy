/**
 * The AML byte-code cursor (`acpi::AmlParser`), the `_aml` name literal
 * and the header table of the AML node buffer (`acpi::AmlNodeBuffer`).
 *
 * The cursor's offset is a `uint32_t`: `skip`, `consumeSeq` and `subspan`
 * add to it modulo 2^32. The node buffer's objects themselves live in an
 * arena that is not part of this model: a term is known by the offset of
 * its object there.
 */
module Aml {
  import opened Util
  import opened Status

  const U32: int := 0x1_0000_0000

  /** A `uint32_t` value. */
  type Word32 = x: int | 0 <= x < U32

  /** `a + b` on `uint32_t`. */
  function Add32(a: Word32, b: Word32): (r: Word32)
    ensures a + b < U32 ==> r == a + b
    ensures a + b >= U32 ==> r == a + b - U32
  {
    (a + b) % U32
  }

  // ---------------------------------------------------------------------
  // The cursor, as functions of the code and the offset
  // ---------------------------------------------------------------------

  /** The byte under the cursor, if the cursor is inside the code. */
  function PeekAt(code: seq<Octet>, offset: Word32): (r: Option<Octet>)
    ensures r.Some? <==> offset < |code|
    ensures r.Some? ==> r.value == code[offset]
  {
    if offset < |code| then Some(code[offset]) else None
  }

  /**
   * `match`: the cursor steps over the byte under it when `accept` takes
   * that byte, and stays put otherwise (also at the end of the code).
   */
  function MatchStep(code: seq<Octet>, offset: Word32, accept: Octet -> bool): (r: (bool, Word32))
    ensures r.0 <==> offset < |code| && accept(code[offset])
    ensures r.1 == if r.0 then Add32(offset, 1) else offset
  {
    match PeekAt(code, offset)
    case Some(b) => if accept(b) then (true, Add32(offset, 1)) else (false, offset)
    case None => (false, offset)
  }

  /** `consume`: step over `v` when it is the byte under the cursor. */
  function ConsumeStep(code: seq<Octet>, offset: Word32, v: Octet): (r: (bool, Word32))
    ensures r.0 <==> offset < |code| && code[offset] == v
    ensures r.1 == if r.0 then Add32(offset, 1) else offset
  {
    MatchStep(code, offset, c => c == v)
  }

  /**
   * `consumeSeq`: step over `s` when the code holds all of it at the
   * cursor; a sequence that runs past the end never matches.
   */
  function ConsumeSeqStep(code: seq<Octet>, offset: Word32, s: seq<Octet>): (r: (bool, Word32))
    ensures r.0 <==> offset + |s| <= |code| && code[offset..offset + |s|] == s
    ensures !r.0 ==> r.1 == offset
    ensures r.0 ==> r.1 == (offset + |s|) % U32
  {
    if offset + |s| > |code| then (false, offset)
    else if code[offset..offset + |s|] == s then (true, (offset + |s|) % U32)
    else (false, offset)
  }

  /** A one-byte sequence is consumed exactly as the byte alone. */
  lemma ConsumeSeqSingle(code: seq<Octet>, offset: Word32, v: Octet)
    ensures ConsumeSeqStep(code, offset, [v]) == ConsumeStep(code, offset, v)
  {
    if offset + 1 <= |code| {
      assert code[offset..offset + 1] == [code[offset]];
    }
  }

  /**
   * Consuming `s + t` is consuming `s` and then `t`, for code that a
   * `uint32_t` offset spans.
   */
  lemma ConsumeSeqConcat(code: seq<Octet>, offset: Word32, s: seq<Octet>, t: seq<Octet>)
    requires |code| < U32
    ensures var first := ConsumeSeqStep(code, offset, s);
      var second := ConsumeSeqStep(code, first.1, t);
      var both := ConsumeSeqStep(code, offset, s + t);
      (both.0 <==> first.0 && second.0) && (both.0 ==> both.1 == second.1)
  {
    var first := ConsumeSeqStep(code, offset, s);
    var both := ConsumeSeqStep(code, offset, s + t);
    var n := offset + |s|;
    if n + |t| <= |code| {
      SliceConcat(code, offset, n, n + |t|, s, t);
      if first.0 {
        assert first.1 == n;
      }
    } else {
      assert !both.0;
    }
  }

  /** A slice matches `s + t` when its two parts match `s` and `t`. */
  lemma SliceConcat(code: seq<Octet>, i: nat, j: nat, k: nat, s: seq<Octet>, t: seq<Octet>)
    requires i <= j <= k <= |code| && j - i == |s| && k - j == |t|
    ensures code[i..k] == s + t <==> code[i..j] == s && code[j..k] == t
  {
    assert code[i..k] == code[i..j] + code[j..k];
    if code[i..k] == s + t {
      assert code[i..k][..|s|] == code[i..j] && (s + t)[..|s|] == s;
      assert code[i..k][|s|..] == code[j..k] && (s + t)[|s|..] == t;
    }
  }

  // ---------------------------------------------------------------------
  // AmlParser
  // ---------------------------------------------------------------------

  /** `acpi::AmlParser`: a cursor over a span of AML byte code. */
  class Parser {
    /** Where `code` starts in the table the parse began on. */
    const start: Word32
    const code: seq<Octet>
    var offset: Word32

    constructor (code: seq<Octet>, start: Word32)
      ensures this.code == code && this.start == start && offset == 0
    {
      this.code := code;
      this.start := start;
      offset := 0;
    }

    /** `absOffset`: the cursor's position in the whole table. */
    function AbsOffset(): Word32
      reads this`offset
    {
      Add32(start, offset)
    }

    /** `eof` and `done`: the cursor is at or past the end of the code. */
    predicate Eof()
      reads this`offset
    {
      offset >= |code|
    }

    /** `skip`. */
    method Skip(count: Word32)
      modifies this`offset
      ensures offset == Add32(old(offset), count)
    {
      offset := Add32(offset, count);
    }

    /** `advance`. */
    method Advance()
      modifies this`offset
      ensures offset == Add32(old(offset), 1)
    {
      Skip(1);
    }

    /** `match`. */
    method Match(accept: Octet -> bool) returns (matched: bool)
      modifies this`offset
      ensures (matched, offset) == MatchStep(code, old(offset), accept)
    {
      var b := PeekAt(code, offset);
      if b.Some? && accept(b.value) {
        Advance();
        return true;
      }
      return false;
    }

    /** `consume`. */
    method Consume(v: Octet) returns (matched: bool)
      modifies this`offset
      ensures (matched, offset) == ConsumeStep(code, old(offset), v)
    {
      matched := Match(c => c == v);
    }

    /** `consumeSeq`. */
    method ConsumeSeq(s: seq<Octet>) returns (matched: bool)
      modifies this`offset
      ensures (matched, offset) == ConsumeSeqStep(code, old(offset), s)
    {
      if offset + |s| > |code| {
        return false;
      }
      matched := code[offset..offset + |s|] == s;
      if matched {
        offset := (offset + |s|) % U32;
      }
    }

    /**
     * `subspan`: a cursor over the next `count` bytes, whose absolute
     * offsets continue this cursor's; this cursor moves past them.
     */
    method Subspan(count: Word32) returns (p: Parser)
      requires offset <= |code| && count <= |code| - offset
      modifies this`offset
      ensures fresh(p)
      ensures p.code == code[old(offset)..old(offset) + count] && p.offset == 0
      ensures p.AbsOffset() == old(AbsOffset())
      ensures offset == Add32(old(offset), count)
    {
      var at := offset;
      offset := Add32(offset, count);
      p := new Parser(code[at..at + count], Add32(at, start));
    }
  }

  // ---------------------------------------------------------------------
  // The `_aml` literal
  // ---------------------------------------------------------------------

  /** `acpi::AmlName`: the parent prefix, the root flag and the segments. */
  datatype AmlName = AmlName(prefix: Octet, useroot: bool, segments: seq<seq<char>>)

  /** The segment list's capacity: a `StaticVector<Segment, 8>`. */
  const MaxSegments: nat := 8

  /** The character the literal reads at `i`: the terminator past the end. */
  function At(s: seq<char>, i: nat): char
  {
    if i < |s| then s[i] else '\0'
  }

  /** `n` padding characters. */
  function Pad(n: nat): (r: seq<char>)
    ensures |r| == n && forall k :: 0 <= k < n ==> r[k] == '_'
  {
    if n == 0 then [] else Pad(n - 1) + ['_']
  }

  /** The number of parent prefixes `^` that `s` begins with. */
  function Carets(s: seq<char>): (n: nat)
    ensures n <= |s|
    ensures forall k :: 0 <= k < n ==> s[k] == '^'
    ensures At(s, n) != '^'
  {
    if s != [] && s[0] == '^' then 1 + Carets(s[1..]) else 0
  }

  /**
   * Characters `k` to 3 of the segment that `s` begins, and how many
   * characters of `s` the scan takes: a `.` ends the segment early and is
   * taken, and the end of the literal pads the rest.
   */
  function ChunkFrom(s: seq<char>, k: nat): (r: (seq<char>, nat))
    requires k <= 4
    ensures |r.0| + k == 4 && r.1 <= |s|
    ensures k < 4 && s != [] ==> 0 < r.1
    decreases 4 - k
  {
    if k == 4 then ([], 0)
    else if s != [] then
      if s[0] == '.' then (Pad(4 - k), 1)
      else var rest := ChunkFrom(s[1..], k + 1); ([s[0]] + rest.0, 1 + rest.1)
    else (Pad(4 - k), 0)
  }

  /** Where the next segment begins, once the scan took `n` characters. */
  function NextSegment(s: seq<char>, n: nat): (m: nat)
    requires n <= |s|
    ensures n <= m <= |s|
  {
    if At(s, n) == '.' then n + 1 else n
  }

  /** The 4-character segments the literal cuts from `s`. */
  function Chunks(s: seq<char>): (r: seq<seq<char>>)
    ensures forall k :: 0 <= k < |r| ==> |r[k]| == 4
  {
    if s == [] then []
    else var c := ChunkFrom(s, 0); [c.0] + Chunks(s[NextSegment(s, c.1)..])
  }

  /** Where the segments begin, after the root or the parent prefixes. */
  function NameStart(s: seq<char>): (i: nat)
    ensures i <= |s|
  {
    if At(s, 0) == '\\' then 1 else Carets(s)
  }

  /** The first `n` elements, as a full `StaticVector` drops the rest. */
  function Keep<T>(xs: seq<T>, n: nat): (r: seq<T>)
    ensures |r| <= n && |r| <= |xs| && r == xs[..|r|]
    ensures |xs| <= n <==> r == xs
  {
    if |xs| <= n then xs else xs[..n]
  }

  /** Keeping one more element adds it when there is room, and only then. */
  lemma KeepAppend<T>(xs: seq<T>, x: T, n: nat)
    ensures Keep(xs + [x], n) == if |Keep(xs, n)| < n then Keep(xs, n) + [x] else Keep(xs, n)
  {
    if |xs| >= n {
      assert (xs + [x])[..n] == xs[..n];
    }
  }

  /**
   * The `Segment` (a `StaticString<4>`) made from a `char[4]`: the array
   * converts through the constructor for string literals, which copies
   * all but the last element.
   */
  function StoredSegment(c: seq<char>): (r: seq<char>)
    requires |c| == 4
    ensures |r| == 3 && r == c[..3]
  {
    c[..|c| - 1]
  }

  /** Every chunk as it is stored. */
  function StoreAll(cs: seq<seq<char>>): (r: seq<seq<char>>)
    requires forall k :: 0 <= k < |cs| ==> |cs[k]| == 4
    ensures |r| == |cs| && forall k :: 0 <= k < |cs| ==> r[k] == cs[k][..3]
  {
    if cs == [] then [] else [StoredSegment(cs[0])] + StoreAll(cs[1..])
  }

  /** `operator""_aml` as written. */
  function Literal(s: seq<char>): AmlName
  {
    var root := At(s, 0) == '\\';
    AmlName(if root then 0 else Carets(s) % 256, root,
            Keep(StoreAll(Chunks(s[NameStart(s)..])), MaxSegments))
  }

  /** `operator""_aml` with whole 4-character segments. */
  function IntendedLiteral(s: seq<char>): AmlName
  {
    var root := At(s, 0) == '\\';
    AmlName(if root then 0 else Carets(s) % 256, root,
            Keep(Chunks(s[NameStart(s)..]), MaxSegments))
  }

  /** The two differ only in the characters each stored segment keeps. */
  lemma LiteralKeepsThree(s: seq<char>)
    ensures var written := Literal(s); var intended := IntendedLiteral(s);
      written.prefix == intended.prefix && written.useroot == intended.useroot
      && |written.segments| == |intended.segments|
      && forall k :: 0 <= k < |written.segments| ==>
           |written.segments[k]| == 3 && written.segments[k] == intended.segments[k][..3]
  {
  }

  // ---------------------------------------------------------------------
  // Name paths: what the literal is meant to read
  // ---------------------------------------------------------------------

  /** A character of an AML name segment: `A`-`Z`, `0`-`9` or `_`. */
  predicate NameChar(c: char)
  {
    'A' <= c <= 'Z' || '0' <= c <= '9' || c == '_'
  }

  /** A segment as written in a name path: 1 to 4 name characters. */
  predicate PathSegment(seg: seq<char>)
  {
    1 <= |seg| <= 4 && forall k :: 0 <= k < |seg| ==> NameChar(seg[k])
  }

  /** `segs` joined with `.`. */
  function Join(segs: seq<seq<char>>): seq<char>
  {
    if segs == [] then []
    else if |segs| == 1 then segs[0]
    else segs[0] + ['.'] + Join(segs[1..])
  }

  /** The name path: a root `\`, or `k` parent prefixes, then the segments. */
  function Path(root: bool, k: nat, segs: seq<seq<char>>): seq<char>
  {
    (if root then ['\\'] else Repeat('^', k)) + Join(segs)
  }

  /** `n` copies of `c`. */
  function Repeat(c: char, n: nat): (r: seq<char>)
    ensures |r| == n && forall i :: 0 <= i < n ==> r[i] == c
  {
    if n == 0 then [] else [c] + Repeat(c, n - 1)
  }

  /** A short segment padded to 4 characters with `_`. */
  function Padded(seg: seq<char>): (r: seq<char>)
    requires PathSegment(seg)
    ensures |r| == 4 && r[..|seg|] == seg
  {
    seg + Pad(4 - |seg|)
  }

  function PadAll(segs: seq<seq<char>>): (r: seq<seq<char>>)
    requires forall seg <- segs :: PathSegment(seg)
    ensures |r| == |segs| && forall k :: 0 <= k < |segs| ==> r[k] == Padded(segs[k])
  {
    if segs == [] then [] else [Padded(segs[0])] + PadAll(segs[1..])
  }

  /**
   * The scan of one segment of a path from its `k`th character: it reads
   * the rest of the segment and pads it, and the next segment begins past
   * the `.` that follows.
   */
  lemma {:induction false} ChunkOfSegment(seg: seq<char>, tail: seq<char>, k: nat)
    requires PathSegment(seg) && k <= |seg|
    requires tail == [] || (|tail| >= 2 && tail[0] == '.' && NameChar(tail[1]))
    ensures var s := seg[k..] + tail;
      var c := ChunkFrom(s, k);
      c.0 == Padded(seg)[k..]
      && NextSegment(s, c.1) == |seg| - k + (if tail == [] then 0 else 1)
    decreases 4 - k
  {
    if k == |seg| {
      ChunkAtSegmentEnd(seg, tail, k);
    } else {
      ChunkOfSegment(seg, tail, k + 1);
      ChunkStep(seg, tail, k);
    }
  }

  /** At the end of a segment the scan pads and stops, past the `.` if one follows. */
  lemma ChunkAtSegmentEnd(seg: seq<char>, tail: seq<char>, k: nat)
    requires PathSegment(seg) && k == |seg|
    requires tail == [] || (|tail| >= 2 && tail[0] == '.' && NameChar(tail[1]))
    ensures var s := seg[k..] + tail;
      var c := ChunkFrom(s, k);
      c.0 == Padded(seg)[k..]
      && NextSegment(s, c.1) == |seg| - k + (if tail == [] then 0 else 1)
  {
    assert seg[k..] + tail == tail;
    assert Padded(seg)[k..] == Pad(4 - k);
  }

  /** One name character of a segment is copied, and the scan of the rest carries on. */
  lemma ChunkStep(seg: seq<char>, tail: seq<char>, k: nat)
    requires PathSegment(seg) && k < |seg|
    requires var s' := seg[k + 1..] + tail;
      var c := ChunkFrom(s', k + 1);
      c.0 == Padded(seg)[k + 1..]
      && NextSegment(s', c.1) == |seg| - (k + 1) + (if tail == [] then 0 else 1)
    ensures var s := seg[k..] + tail;
      var c := ChunkFrom(s, k);
      c.0 == Padded(seg)[k..]
      && NextSegment(s, c.1) == |seg| - k + (if tail == [] then 0 else 1)
  {
    var s, s' := seg[k..] + tail, seg[k + 1..] + tail;
    assert s[0] == seg[k] && s[1..] == s';
    assert NameChar(seg[k]);
    ChunkCopies(s, s', k);
    NextSegmentShift(s, s', ChunkFrom(s', k + 1).1);
    PaddedStep(seg, k);
  }

  /** Before the fourth character, a character other than `.` is copied and the scan goes on. */
  lemma ChunkCopies(s: seq<char>, s': seq<char>, k: nat)
    requires k < 4 && s != [] && s[0] != '.' && s[1..] == s'
    ensures ChunkFrom(s, k) == ([s[0]] + ChunkFrom(s', k + 1).0, 1 + ChunkFrom(s', k + 1).1)
  {
  }

  /** Where the next segment begins does not depend on a character dropped in front. */
  lemma NextSegmentShift(s: seq<char>, s': seq<char>, n: nat)
    requires s != [] && s[1..] == s' && n <= |s'|
    ensures NextSegment(s, 1 + n) == 1 + NextSegment(s', n)
  {
    assert At(s, 1 + n) == At(s', n);
  }

  /** The padded segment from `k` is its `k`th character and the rest from `k + 1`. */
  lemma PaddedStep(seg: seq<char>, k: nat)
    requires PathSegment(seg) && k < |seg|
    ensures Padded(seg)[k..] == [seg[k]] + Padded(seg)[k + 1..]
  {
    assert Padded(seg)[k] == seg[k];
  }

  /** Reading a joined path gives back its segments, padded. */
  lemma {:induction false} ChunksOfJoin(segs: seq<seq<char>>)
    requires forall seg <- segs :: PathSegment(seg)
    ensures Chunks(Join(segs)) == PadAll(segs)
  {
    if segs != [] {
      var seg := segs[0];
      var tail := if |segs| == 1 then [] else ['.'] + Join(segs[1..]);
      if |segs| > 1 {
        var rest := Join(segs[1..]);
        JoinStarts(segs[1..]);
        assert tail[1] == rest[0] == segs[1][0];
      }
      assert Join(segs) == seg[0..] + tail;
      ChunkOfSegment(seg, tail, 0);
      ChunksOfJoin(segs[1..]);
      var s := Join(segs);
      var c := ChunkFrom(s, 0);
      assert s[NextSegment(s, c.1)..] == Join(segs[1..]);
    }
  }

  /** A joined path of at least one segment begins with its first character. */
  lemma JoinStarts(segs: seq<seq<char>>)
    requires segs != [] && PathSegment(segs[0])
    ensures |Join(segs)| > 0 && Join(segs)[0] == segs[0][0]
  {
  }

  /**
   * The literal of a name path: `\` names the root, each `^` adds a
   * parent prefix (section 20.2.2 of the ACPI 6.5 specification), and the
   * segments come back padded to 4 characters, the first eight of them.
   */
  lemma IntendedLiteralOfPath(root: bool, k: nat, segs: seq<seq<char>>)
    requires !root || k == 0
    requires forall seg <- segs :: PathSegment(seg)
    ensures IntendedLiteral(Path(root, k, segs))
      == AmlName(if root then 0 else k % 256, root, Keep(PadAll(segs), MaxSegments))
  {
    var s := Path(root, k, segs);
    PathStart(root, k, segs);
    ChunksOfJoin(segs);
    assert s[NameStart(s)..] == Join(segs);
  }

  /** Where the segments of a name path begin, and what comes before them. */
  lemma PathStart(root: bool, k: nat, segs: seq<seq<char>>)
    requires !root || k == 0
    requires forall seg <- segs :: PathSegment(seg)
    ensures var s := Path(root, k, segs);
      (At(s, 0) == '\\' <==> root)
      && NameStart(s) == (if root then 1 else k)
      && (!root ==> Carets(s) == k)
      && s[NameStart(s)..] == Join(segs)
  {
    var s := Path(root, k, segs);
    var j := Join(segs);
    if segs != [] {
      assert PathSegment(segs[0]);
      JoinStarts(segs);
    }
    if root {
      assert s == ['\\'] + j;
      assert s[1..] == j;
    } else {
      assert s == Repeat('^', k) + j;
      CaretsOfRepeat(k, j);
      assert s[k..] == j;
      if k == 0 && segs != [] {
        assert s[0] == segs[0][0];
      }
    }
  }

  /** `k` carets followed by something else count as `k` prefixes. */
  lemma {:induction false} CaretsOfRepeat(k: nat, rest: seq<char>)
    requires rest == [] || NameChar(rest[0])
    ensures Carets(Repeat('^', k) + rest) == k
  {
    if k > 0 {
      assert (Repeat('^', k) + rest)[1..] == Repeat('^', k - 1) + rest;
      CaretsOfRepeat(k - 1, rest);
    } else {
      assert Repeat('^', k) + rest == rest;
    }
  }

  /** `"_SB_.PCI0"_aml` as written stores `_SB` and `PCI`. */
  lemma LiteralDropsFourthCharacter()
    ensures IntendedLiteral(Join(["_SB_", "PCI0"])).segments == ["_SB_", "PCI0"]
    ensures Literal(Join(["_SB_", "PCI0"])).segments == ["_SB", "PCI"]
  {
    var segs := ["_SB_", "PCI0"];
    assert PathSegment(segs[0]) && PathSegment(segs[1]);
    IntendedLiteralOfPath(false, 0, segs);
    assert Path(false, 0, segs) == Join(segs);
    assert Padded(segs[0]) == segs[0] && Padded(segs[1]) == segs[1];
    assert PadAll(segs) == segs;
    var intended := IntendedLiteral(Join(segs)).segments;
    var written := Literal(Join(segs)).segments;
    LiteralKeepsThree(Join(segs));
    assert |written| == 2;
    assert written[0] == intended[0][..3] == "_SB";
    assert written[1] == intended[1][..3] == "PCI";
  }

  /** The scan of one segment from `str`: `ChunkFrom` with the literal's loop. */
  method ReadSegment(s: seq<char>, str: nat) returns (segment: seq<char>, next: nat)
    requires str <= |s|
    ensures str <= next <= |s|
    ensures (segment, next - str) == ChunkFrom(s[str..], 0)
  {
    segment := ['_', '_', '_', '_'];
    next := str;
    var i: nat := 0;
    var done := false;
    ghost var want := ChunkFrom(s[str..], 0);
    assert s[str..] == s[next..];
    assert segment[..i] + ChunkFrom(s[next..], i).0 == ChunkFrom(s[next..], i).0;
    while i < 4 && !done
      invariant Scanning(want, s, str, segment, next, i, done)
      decreases 4 - i, !done
    {
      segment, next, i, done := ReadSlot(want, s, str, segment, next, i);
    }
    if !done {
      assert segment[..i] + ChunkFrom(s[next..], i).0 == segment;
    }
  }

  /**
   * The state of the segment scan: slots `0` to `i - 1` hold what the scan
   * of the literal from `str` puts there, and the rest of the scan goes on
   * from `next` — or, once `done`, `segment` is complete.
   */
  predicate Scanning(want: (seq<char>, nat), s: seq<char>, str: nat, segment: seq<char>, next: nat, i: nat, done: bool)
  {
    && i <= 4 && str <= next <= |s| && |segment| == 4
    && (done ==> want == (segment, next - str))
    && (!done ==>
          && want.0 == segment[..i] + ChunkFrom(s[next..], i).0
          && want.1 == next - str + ChunkFrom(s[next..], i).1)
  }

  /** One pass of the scan's loop: fill slot `i`, or stop at a `.`. */
  method ReadSlot(ghost want: (seq<char>, nat), s: seq<char>, str: nat, segment: seq<char>, next: nat, i: nat)
    returns (segment': seq<char>, next': nat, i': nat, done: bool)
    requires i < 4 && Scanning(want, s, str, segment, next, i, false)
    ensures Scanning(want, s, str, segment', next', i', done)
    ensures done ==> i' == i
    ensures !done ==> i' == i + 1
  {
    if next < |s| {
      if s[next] == '.' {
        segment' := FillPadding(segment, i);
        ScanStop(want, s, str, segment, next, i);
        return segment', next + 1, i, true;
      }
      ScanChar(want, s, str, segment, next, i);
      return segment[i := s[next]], next + 1, i + 1, false;
    }
    ScanEnd(want, s, str, segment, next, i);
    return segment[i := '_'], next, i + 1, false;
  }

  /** A `.` ends the segment: the rest of it is padding. */
  lemma ScanStop(want: (seq<char>, nat), s: seq<char>, str: nat, segment: seq<char>, next: nat, i: nat)
    requires i < 4 && Scanning(want, s, str, segment, next, i, false)
    requires next < |s| && s[next] == '.'
    ensures Scanning(want, s, str, segment[..i] + Pad(4 - i), next + 1, i, true)
  {
    assert ChunkFrom(s[next..], i) == (Pad(4 - i), 1);
  }

  /** Any other character fills the slot. */
  lemma ScanChar(want: (seq<char>, nat), s: seq<char>, str: nat, segment: seq<char>, next: nat, i: nat)
    requires i < 4 && Scanning(want, s, str, segment, next, i, false)
    requires next < |s| && s[next] != '.'
    ensures Scanning(want, s, str, segment[i := s[next]], next + 1, i + 1, false)
  {
    ChunkFromChar(s, next, i);
    var rest := ChunkFrom(s[next + 1..], i + 1);
    var filled := segment[i := s[next]];
    assert filled[..i + 1] == segment[..i] + [s[next]];
    assert segment[..i] + ([s[next]] + rest.0) == filled[..i + 1] + rest.0;
  }

  /** The scan from a character other than `.` keeps it and goes on. */
  lemma ChunkFromChar(s: seq<char>, next: nat, i: nat)
    requires i < 4 && next < |s| && s[next] != '.'
    ensures var rest := ChunkFrom(s[next + 1..], i + 1);
      ChunkFrom(s[next..], i) == ([s[next]] + rest.0, 1 + rest.1)
  {
    assert s[next..][1..] == s[next + 1..];
  }

  /** Past the end of the literal, the slot is padding. */
  lemma ScanEnd(want: (seq<char>, nat), s: seq<char>, str: nat, segment: seq<char>, next: nat, i: nat)
    requires i < 4 && Scanning(want, s, str, segment, next, i, false)
    requires next == |s|
    ensures Scanning(want, s, str, segment[i := '_'], next, i + 1, false)
  {
    assert s[next..] == [];
    assert Pad(4 - i) == ['_'] + Pad(4 - (i + 1));
    assert segment[i := '_'][..i + 1] == segment[..i] + ['_'];
  }

  /** The inner loop that pads the rest of the segment after a `.`. */
  method FillPadding(segment: seq<char>, i: nat) returns (filled: seq<char>)
    requires |segment| == 4 && i <= 4
    ensures filled == segment[..i] + Pad(4 - i)
  {
    filled := segment;
    var j := i;
    while j < 4
      invariant i <= j <= 4 && |filled| == 4
      invariant filled[..i] == segment[..i]
      invariant forall m :: i <= m < j ==> filled[m] == '_'
    {
      filled := filled[j := '_'];
      j := j + 1;
    }
    assert filled == filled[..i] + Pad(4 - i);
  }

  /** `operator""_aml`, step by step as `aml.hpp` builds the name. */
  method ParseLiteral(s: seq<char>) returns (name: AmlName)
    ensures name == Literal(s)
  {
    var str, prefix, useroot := ReadPrefix(s);
    var segments := ReadSegments(s, str);
    name := AmlName(prefix, useroot, segments);
  }

  /** The root `\\` or the run of `^` that opens the literal. */
  method ReadPrefix(s: seq<char>) returns (str: nat, prefix: Octet, useroot: bool)
    ensures str == NameStart(s)
    ensures useroot == (At(s, 0) == '\\')
    ensures prefix == if useroot then 0 else Carets(s) % 256
  {
    str, prefix, useroot := 0, 0, false;
    if At(s, 0) == '\\' {
      str := 1;
      useroot := true;
    } else {
      while At(s, str) == '^'
        invariant str <= Carets(s) && prefix == str % 256
        decreases |s| - str
      {
        prefix := (prefix + 1) % 256;
        str := str + 1;
      }
    }
  }

  /** The segment loop: the first eight chunks from `str` on, as stored. */
  method ReadSegments(s: seq<char>, start: nat) returns (segments: seq<seq<char>>)
    requires start <= |s|
    ensures segments == Keep(StoreAll(Chunks(s[start..])), MaxSegments)
  {
    var str := start;
    ghost var whole := Chunks(s[str..]);
    segments := [];
    ghost var n: nat := 0;
    while str < |s|
      invariant Building(s, whole, str, segments, n)
      decreases |s| - str
    {
      str, segments, n := AddSegment(s, whole, str, segments, n);
    }
    assert |whole[n..]| == 0 && whole[..n] == whole;
  }

  /**
   * The state of the segment loop of the literal: the first `n` of the
   * literal's chunks `whole` are read, the rest come from `str` on, and
   * `segments` holds what the vector kept of the first `n`.
   */
  predicate Building(s: seq<char>, whole: seq<seq<char>>, str: nat, segments: seq<seq<char>>, n: nat)
  {
    && str <= |s| && n <= |whole|
    && (forall c <- whole :: |c| == 4)
    && whole[n..] == Chunks(s[str..])
    && segments == Keep(StoreAll(whole[..n]), MaxSegments)
  }

  /** One pass of the segment loop: read a segment, keep it if there is room. */
  method AddSegment(s: seq<char>, ghost whole: seq<seq<char>>, str: nat, segments: seq<seq<char>>, ghost n: nat)
    returns (str': nat, segments': seq<seq<char>>, ghost n': nat)
    requires str < |s| && Building(s, whole, str, segments, n)
    ensures Building(s, whole, str', segments', n') && str < str'
  {
    var segment, next := ReadSegment(s, str);
    str' := next;
    if At(s, str') == '.' {
      str' := str' + 1;
    }
    ChunksStep(s, str, segment, next, str');
    BuildingStep(s, whole, str, segments, n, segment, str');
    n' := n + 1;
    segments' := segments;
    if |segments| < MaxSegments {
      segments' := segments + [StoredSegment(segment)];
    }
  }

  /** The loop's state after one more segment is read and perhaps kept. */
  lemma BuildingStep(s: seq<char>, whole: seq<seq<char>>, str: nat, segments: seq<seq<char>>, n: nat,
                     segment: seq<char>, str': nat)
    requires Building(s, whole, str, segments, n) && str < str' <= |s|
    requires Chunks(s[str..]) == [segment] + Chunks(s[str'..])
    ensures n < |whole| && |segment| == 4
    ensures Building(s, whole, str', if |segments| < MaxSegments then segments + [StoredSegment(segment)] else segments, n + 1)
  {
    assert whole[n..][0] == segment;
    assert whole[n + 1..] == whole[n..][1..];
    KeepAppend(StoreAll(whole[..n]), StoredSegment(segment), MaxSegments);
    StoreAllStep(whole, n);
  }

  /** The literal's chunks from `str` are the one read there, then the rest. */
  lemma ChunksStep(s: seq<char>, str: nat, segment: seq<char>, next: nat, str': nat)
    requires str < |s| && str <= next <= |s|
    requires (segment, next - str) == ChunkFrom(s[str..], 0)
    requires str' == if At(s, next) == '.' then next + 1 else next
    ensures str < str' <= |s|
    ensures Chunks(s[str..]) == [segment] + Chunks(s[str'..])
  {
    var t := s[str..];
    assert At(t, next - str) == At(s, next);
    assert t[NextSegment(t, next - str)..] == s[str'..];
  }

  /** Storing one more chunk of the literal appends it, stored. */
  lemma StoreAllStep(whole: seq<seq<char>>, n: nat)
    requires n < |whole| && forall c <- whole :: |c| == 4
    ensures StoreAll(whole[..n + 1]) == StoreAll(whole[..n]) + [StoredSegment(whole[n])]
  {
    assert whole[..n + 1] == whole[..n] + [whole[n]];
  }

  // ---------------------------------------------------------------------
  // AmlNodeBuffer: the header table
  // ---------------------------------------------------------------------

  /** `AmlTermType`, by ordinal: `eName` is 0 and `eInvalid` the last. */
  const InvalidTerm: int := 40
  type TermType = t: int | 0 <= t <= InvalidTerm

  /** `AmlAnyId::kInvalid`. */
  const InvalidId: Word32 := 0xFFFF_FFFF

  /** `AmlNodeBuffer::ObjectHeader`: a term's type and its object's offset. */
  datatype ObjectHeader = ObjectHeader(kind: TermType, offset: Word32)

  /** The integer widths `ones` chooses between. */
  datatype IntegerType = Dword | Qword

  /** The `AmlData` integer that stands for `Ones`. */
  datatype AmlInteger = AmlInteger(width: IntegerType, value: nat)

  /** The largest value an integer of `width` holds. */
  function MaxValue(width: IntegerType): nat
  {
    match width
    case Dword => 0xFFFF_FFFF
    case Qword => 0xFFFF_FFFF_FFFF_FFFF
  }

  /**
   * `ones`: every bit set, in 32 bits for a table of revision 0 and in
   * 64 bits otherwise.
   */
  function OnesFor(revision: Word32): (r: AmlInteger)
    ensures r.width == Dword <==> revision == 0
    ensures r.value == MaxValue(r.width)
  {
    if revision == 0 then AmlInteger(Dword, 0xFFFF_FFFF)
    else AmlInteger(Qword, 0xFFFF_FFFF_FFFF_FFFF)
  }

  /** `getHeader` on the table `hs`: an id past the end has no term. */
  function HeaderAt(hs: seq<ObjectHeader>, id: Word32): ObjectHeader
  {
    if id >= |hs| then ObjectHeader(InvalidTerm, 0) else hs[id]
  }

  /** `getTerm`: the object's offset when the id names a term of `kind`. */
  function TermAt(hs: seq<ObjectHeader>, id: Word32, kind: TermType): Option<Word32>
  {
    var h := HeaderAt(hs, id);
    if h.kind != kind then None else Some(h.offset)
  }

  /**
   * An id names a header exactly when it is inside the table; outside it
   * the header is the invalid type at offset 0.
   */
  lemma HeaderAtBounds(hs: seq<ObjectHeader>, id: Word32)
    ensures id < |hs| ==> HeaderAt(hs, id) == hs[id]
    ensures id >= |hs| ==> HeaderAt(hs, id).kind == InvalidTerm && HeaderAt(hs, id).offset == 0
  {
  }

  /** While the table holds fewer than 2^32 - 1 headers, `kInvalid` names none. */
  lemma InvalidIdHasNoTerm(hs: seq<ObjectHeader>, kind: TermType)
    requires |hs| <= InvalidId
    ensures HeaderAt(hs, InvalidId).kind == InvalidTerm
    ensures kind != InvalidTerm ==> TermAt(hs, InvalidId, kind) == None
  {
  }

  /**
   * A term is found exactly when its id is in the table and its header has
   * the type asked for, and then its offset is the header's.
   */
  lemma TermAtFound(hs: seq<ObjectHeader>, id: Word32, kind: TermType)
    requires kind != InvalidTerm
    ensures TermAt(hs, id, kind).Some? <==> id < |hs| && hs[id].kind == kind
    ensures TermAt(hs, id, kind).Some? ==> TermAt(hs, id, kind).value == hs[id].offset
  {
  }

  /**
   * Adding a header makes the new id name it and leaves every other id as
   * it was.
   */
  lemma HeaderAtAppend(hs: seq<ObjectHeader>, h: ObjectHeader, id: Word32)
    requires |hs| < U32
    ensures id == |hs| ==> HeaderAt(hs + [h], id) == h
    ensures id != |hs| ==> HeaderAt(hs + [h], id) == HeaderAt(hs, id)
  {
  }

  /**
   * `acpi::AmlNodeBuffer`. The objects live in an arena that is not part
   * of this model; a term is added with the offset the arena gave it.
   */
  class NodeBuffer {
    var headers: seq<ObjectHeader>
    const ones: AmlInteger
    var error: bool

    constructor (revision: Word32)
      ensures headers == [] && ones == OnesFor(revision) && !error
    {
      headers := [];
      ones := OnesFor(revision);
      error := false;
    }

    /**
     * `addTerm`: append a header for a term of `kind` whose object is at
     * `objectOffset`, truncated to 32 bits; the id is the old count.
     */
    method AddTerm(kind: TermType, objectOffset: nat) returns (id: Word32)
      modifies this`headers
      ensures headers == old(headers) + [ObjectHeader(kind, objectOffset % U32)]
      ensures id == |old(headers)| % U32
      ensures |old(headers)| < U32 ==> GetHeader(id) == ObjectHeader(kind, objectOffset % U32)
    {
      id := |headers| % U32;
      if |headers| < U32 {
        HeaderAtAppend(headers, ObjectHeader(kind, objectOffset % U32), id);
      }
      headers := headers + [ObjectHeader(kind, objectOffset % U32)];
    }

    /** `getHeader`. */
    function GetHeader(id: Word32): ObjectHeader
      reads this`headers
    {
      HeaderAt(headers, id)
    }

    /** `getType`. */
    function GetType(id: Word32): TermType
      reads this`headers
    {
      GetHeader(id).kind
    }

    /** `getTerm` for a term type other than `eInvalid`. */
    function GetTerm(id: Word32, kind: TermType): Option<Word32>
      requires kind != InvalidTerm
      reads this`headers
    {
      TermAt(headers, id, kind)
    }

    /** `setInvalid`: the parse failed. */
    method SetInvalid()
      modifies this`error
      ensures error
    {
      error := true;
    }
  }
}
