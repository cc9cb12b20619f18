/**
 * The pure helpers of the package build tool (tool/package/main.cpp): the
 * placeholder substitution applied to configuration text, and the build
 * status kept per package in the tool's database, which decides whether a
 * build step runs again.
 */
module Package {
  import opened Status

  // ---------------------------------------------------------------------
  // Placeholder replacement
  // ---------------------------------------------------------------------

  /** `pat` occurs in `s` starting at index `k`. */
  predicate MatchAt(s: string, pat: string, k: nat)
  {
    k + |pat| <= |s| && s[k..k + |pat|] == pat
  }

  /** `std::string::find(pat, start)`: the first occurrence at or after `start`, or none (`npos`). */
  function Find(s: string, pat: string, start: nat): (r: Option<nat>)
    ensures r.Some? ==> start <= r.value && MatchAt(s, pat, r.value)
    ensures r.Some? ==> forall k: nat :: start <= k < r.value ==> !MatchAt(s, pat, k)
    ensures r.None? ==> forall k: nat :: start <= k ==> !MatchAt(s, pat, k)
    decreases |s| - start
  {
    if start + |pat| > |s| then None
    else if MatchAt(s, pat, start) then Some(start)
    else Find(s, pat, start + 1)
  }

  /**
   * `s` with every occurrence of `pat` replaced by `to`, scanning left to
   * right: a replaced occurrence is skipped whole (occurrences do not overlap)
   * and the inserted text is never scanned again.
   */
  function Replaced(s: string, pat: string, to: string): string
    requires |pat| > 0
  {
    if |s| < |pat| then s
    else if s[..|pat|] == pat then to + Replaced(s[|pat|..], pat, to)
    else [s[0]] + Replaced(s[1..], pat, to)
  }

  /** Text that does not start with the pattern keeps its first character. */
  lemma ReplacedHead(s: string, pat: string, to: string)
    requires |pat| > 0 && |s| > 0 && !MatchAt(s, pat, 0)
    ensures Replaced(s, pat, to) == [s[0]] + Replaced(s[1..], pat, to)
  {
  }

  /** A prefix free of occurrences is kept as it is. */
  lemma {:induction false} ReplacedSkips(s: string, pat: string, to: string, m: nat)
    requires |pat| > 0 && m <= |s|
    requires forall k: nat :: k < m ==> !MatchAt(s, pat, k)
    ensures Replaced(s, pat, to) == s[..m] + Replaced(s[m..], pat, to)
    decreases m
  {
    if m > 0 {
      ReplacedSkips(s, pat, to, m - 1);
      var t := s[m - 1..];
      NoMatchAtSuffix(s, pat, m - 1);
      ReplacedHead(t, pat, to);
      assert t[1..] == s[m..];
      calc {
        Replaced(s, pat, to);
        s[..m - 1] + Replaced(t, pat, to);
        s[..m - 1] + ([t[0]] + Replaced(s[m..], pat, to));
        (s[..m - 1] + [t[0]]) + Replaced(s[m..], pat, to);
        { assert s[..m - 1] + [t[0]] == s[..m]; }
        s[..m] + Replaced(s[m..], pat, to);
      }
    }
  }

  /** No occurrence at `k` means none at the start of the suffix from `k`. */
  lemma NoMatchAtSuffix(s: string, pat: string, k: nat)
    requires k < |s| && !MatchAt(s, pat, k)
    ensures !MatchAt(s[k..], pat, 0)
  {
    if |pat| <= |s| - k {
      assert s[k..][..|pat|] == s[k..k + |pat|];
    }
  }

  /** Text in which the pattern never occurs is left unchanged. */
  lemma {:induction false} ReplacedNothing(s: string, pat: string, to: string)
    requires |pat| > 0
    requires forall k: nat :: !MatchAt(s, pat, k)
    ensures Replaced(s, pat, to) == s
  {
    ReplacedSkips(s, pat, to, |s|);
    assert s[|s|..] == [];
    assert s[..|s|] == s;
  }

  /** Replacing a pattern by itself changes nothing. */
  lemma {:induction false} ReplacedBySelf(s: string, pat: string)
    requires |pat| > 0
    ensures Replaced(s, pat, pat) == s
    decreases |s|
  {
    if |s| >= |pat| {
      if s[..|pat|] == pat {
        ReplacedBySelf(s[|pat|..], pat);
        assert pat + s[|pat|..] == s;
      } else {
        ReplacedBySelf(s[1..], pat);
        assert [s[0]] + s[1..] == s;
      }
    }
  }

  /** Text without the pattern's first character holds no occurrence. */
  lemma NoFirstCharacter(t: string, pat: string)
    requires |pat| > 0 && forall i :: 0 <= i < |t| ==> t[i] != pat[0]
    ensures forall k: nat :: !MatchAt(t, pat, k)
  {
    forall k: nat
      ensures !MatchAt(t, pat, k)
    {
      if k + |pat| <= |t| {
        assert t[k..k + |pat|][0] == t[k];
      }
    }
  }

  /** A leading occurrence followed by text without one: only the leading one is replaced. */
  lemma ReplacedLeading(pat: string, t: string, to: string)
    requires |pat| > 0 && forall k: nat :: !MatchAt(t, pat, k)
    ensures Replaced(pat + t, pat, to) == to + t
  {
    var s := pat + t;
    assert s[..|pat|] == pat && s[|pat|..] == t;
    ReplacedNothing(t, pat, to);
  }

  lemma RepoPieces()
    ensures "@REPO@/data/image.sh" == "@REPO@" + "/data/image.sh"
    ensures "/repo/data/image.sh" == "/repo" + "/data/image.sh"
  {
  }

  /** The compile-time check that follows `ReplaceText`. */
  lemma RepoPlaceholder()
    ensures Replaced("@REPO@/data/image.sh", "@REPO@", "/repo") == "/repo/data/image.sh"
  {
    RepoPieces();
    NoFirstCharacter("/data/image.sh", "@REPO@");
    ReplacedLeading("@REPO@", "/data/image.sh", "/repo");
  }

  /** An occurrence at `k` in `s` is an occurrence at `k - d` in `s[d..]`. */
  lemma MatchShifted(s: string, pat: string, d: nat, k: nat)
    requires d <= k
    ensures MatchAt(s, pat, k) <==> d <= |s| && MatchAt(s[d..], pat, k - d)
  {
    if k + |pat| <= |s| {
      assert s[d..][k - d..k - d + |pat|] == s[k..k + |pat|];
    }
  }

  /** Past the last occurrence the rest of the text is kept. */
  lemma ReplaceDone(r: string, from: string, to: string, startPos: nat)
    requires |from| > 0 && startPos <= |r|
    requires forall k: nat :: startPos <= k ==> !MatchAt(r, from, k)
    ensures r[..startPos] + Replaced(r[startPos..], from, to) == r
  {
    forall k: nat
      ensures !MatchAt(r[startPos..], from, k)
    {
      MatchShifted(r, from, startPos, startPos + k);
    }
    ReplacedNothing(r[startPos..], from, to);
    assert r[..startPos] + r[startPos..] == r;
  }

  /** The first occurrence, at `d`, is replaced and scanning resumes after it. */
  lemma ReplacedAtFirst(s: string, pat: string, to: string, d: nat)
    requires |pat| > 0 && MatchAt(s, pat, d)
    requires forall k: nat :: k < d ==> !MatchAt(s, pat, k)
    ensures Replaced(s, pat, to) == s[..d] + (to + Replaced(s[d + |pat|..], pat, to))
  {
    ReplacedSkips(s, pat, to, d);
    assert s[d..][..|pat|] == pat;
    assert s[d..][|pat|..] == s[d + |pat|..];
  }

  /**
   * One replacement of the loop: the first occurrence at or after `startPos`
   * is spliced out, and scanning resumes after the inserted text.
   */
  lemma ReplaceStep(r: string, from: string, to: string, startPos: nat, j: nat)
    requires |from| > 0 && startPos <= j && MatchAt(r, from, j)
    requires forall k: nat :: startPos <= k < j ==> !MatchAt(r, from, k)
    ensures var r' := r[..j] + to + r[j + |from|..];
      r'[..j + |to|] + Replaced(r'[j + |to|..], from, to) == r[..startPos] + Replaced(r[startPos..], from, to)
  {
    var rest := r[startPos..];
    var d := j - startPos;
    FirstMatchShifted(r, from, startPos, j);
    ReplacedAtFirst(rest, from, to, d);
    var after := r[j + |from|..];
    assert rest[d + |from|..] == after;
    Splice(r, to, startPos, j, |from|, Replaced(after, from, to));
  }

  /** The first occurrence at or after `startPos` is the first occurrence in the suffix from there. */
  lemma FirstMatchShifted(r: string, pat: string, startPos: nat, j: nat)
    requires startPos <= j && MatchAt(r, pat, j)
    requires forall k: nat :: startPos <= k < j ==> !MatchAt(r, pat, k)
    ensures MatchAt(r[startPos..], pat, j - startPos)
    ensures forall k: nat :: k < j - startPos ==> !MatchAt(r[startPos..], pat, k)
  {
    forall k: nat | k < j - startPos
      ensures !MatchAt(r[startPos..], pat, k)
    {
      MatchShifted(r, pat, startPos, startPos + k);
    }
    MatchShifted(r, pat, startPos, j);
  }

  /** The sequence bookkeeping of a splice, followed by any `tail`. */
  lemma Splice(r: string, to: string, startPos: nat, j: nat, len: nat, tail: string)
    requires startPos <= j && j + len <= |r|
    ensures var r' := r[..j] + to + r[j + len..];
      r'[j + |to|..] == r[j + len..] &&
      r'[..j + |to|] + tail == r[..startPos] + (r[startPos..][..j - startPos] + (to + tail))
  {
    assert r[startPos..][..j - startPos] == r[startPos..j];
    assert r[..j] == r[..startPos] + r[startPos..j];
    var r' := r[..j] + to + r[j + len..];
    assert r'[..j + |to|] == r[..j] + to;
  }

  /**
   * One turn of `ReplaceAll`'s loop in `main.cpp`: the next occurrence of
   * `from` at or after `pos` is replaced and the search resumes after the
   * inserted text; `None` when there is none and the loop ends.
   */
  function ReplaceTurnAsWritten(str: string, from: string, to: string, pos: nat): (r: Option<(string, nat)>)
    ensures r.None? <==> Find(str, from, pos).None?
    ensures r.Some? ==> |r.value.0| == |str| - |from| + |to| && r.value.1 <= |r.value.0|
  {
    match Find(str, from, pos)
    case None => None
    case Some(j) => Some((str[..j] + to + str[j + |from|..], j + |to|))
  }

  /**
   * With an empty `from`, `std::string::find` matches at the resume
   * position itself, so every turn of the loop finds another occurrence
   * and leaves exactly as much text after the resume position as before:
   * the loop never ends, whatever `to` is.
   */
  lemma EmptyFromNeverEnds(str: string, to: string, pos: nat)
    requires pos <= |str|
    ensures var r := ReplaceTurnAsWritten(str, "", to, pos);
      r.Some? && r.value.1 <= |r.value.0| && |r.value.0| - r.value.1 == |str| - pos
  {
    assert MatchAt(str, "", pos);
  }

  /**
   * `ReplaceAll`: replaces the occurrences of `from` in `str` in place. The
   * string is returned as the new value of the caller's `std::string&`.
   * An empty `from` leaves the string as it is (see `EmptyFromNeverEnds`
   * for the loop without that check).
   */
  method ReplaceAll(str: string, from: string, to: string) returns (r: string)
    ensures |from| == 0 ==> r == str
    ensures |from| > 0 ==> r == Replaced(str, from, to)
  {
    r := str;
    if |from| == 0 {
      return;
    }
    var startPos: nat := 0;
    while true
      invariant startPos <= |r|
      invariant r[..startPos] + Replaced(r[startPos..], from, to) == Replaced(str, from, to)
      decreases |r| - startPos
    {
      var found := Find(r, from, startPos);
      if found.None? {
        ReplaceDone(r, from, to, startPos);
        break;
      }
      var j := found.value;
      ReplaceStep(r, from, to, startPos, j);
      r := r[..j] + to + r[j + |from|..];
      startPos := j + |to|;
    }
  }

  /** `ReplaceText`: `ReplaceAll` on a copy. */
  method ReplaceText(str: string, from: string, to: string) returns (r: string)
    ensures |from| == 0 ==> r == str
    ensures |from| > 0 ==> r == Replaced(str, from, to)
  {
    r := ReplaceAll(str, from, to);
  }

  // ---------------------------------------------------------------------
  // Package status
  // ---------------------------------------------------------------------

  /** `PackageStatus`, in build order. */
  datatype PackageStatus = Unknown | Downloaded | Configured | Built | Installed

  /** The enumerator's value: the order `<` and `>` compare. */
  function Rank(s: PackageStatus): nat
  {
    match s
    case Unknown => 0
    case Downloaded => 1
    case Configured => 2
    case Built => 3
    case Installed => 4
  }

  /** `GetPackageStatusFromString`: any unrecognised text reads as unknown. */
  function StatusFromString(t: string): (r: PackageStatus)
    ensures r == Unknown <==> t != "downloaded" && t != "configured" && t != "built" && t != "installed"
  {
    if t == "unknown" then Unknown
    else if t == "downloaded" then Downloaded
    else if t == "configured" then Configured
    else if t == "built" then Built
    else if t == "installed" then Installed
    else Unknown
  }

  /** `GetPackageStatusString`: the text the database stores, which reads back as the same status. */
  function StatusString(s: PackageStatus): (r: string)
    ensures StatusFromString(r) == s
  {
    match s
    case Unknown => "unknown"
    case Downloaded => "downloaded"
    case Configured => "configured"
    case Built => "built"
    case Installed => "installed"
  }

  /** Distinct statuses are stored as distinct text. */
  lemma StatusStringInjective(s: PackageStatus, t: PackageStatus)
    requires StatusString(s) == StatusString(t)
    ensures s == t
  {
    assert StatusFromString(StatusString(s)) == s;
  }

  /** A step for `step` runs when the package has no known status or an earlier one. */
  predicate ShouldRun(current: PackageStatus, step: PackageStatus)
  {
    current == Unknown || Rank(current) < Rank(step)
  }

  /** The status after `RaiseTargetStatus(step)`. */
  function Raised(current: PackageStatus, step: PackageStatus): (r: PackageStatus)
    ensures r == current || r == step
    ensures current != Unknown ==> Rank(current) <= Rank(r)
    ensures step != Unknown ==> !ShouldRun(r, step)
  {
    if current == Unknown || Rank(current) < Rank(step) then step else current
  }

  /** The status after `LowerPackageStatus(step)`. */
  function Lowered(current: PackageStatus, step: PackageStatus): (r: PackageStatus)
    ensures r == current || r == step
    ensures current != Unknown ==> Rank(r) <= Rank(current)
    ensures current != Unknown && step != Unknown ==> Rank(r) <= Rank(step)
  {
    if current == Unknown || Rank(current) > Rank(step) then step else current
  }

  /** Lowering to a step makes that step run again unless the package got no further. */
  lemma LoweredRuns(current: PackageStatus, step: PackageStatus, later: PackageStatus)
    requires Rank(step) < Rank(later)
    ensures ShouldRun(Lowered(current, step), later)
  {
  }

  /** The `targets` table of the package database: package name to status text. */
  class PackageDb {
    var targets: map<string, string>

    constructor (targets: map<string, string>)
      ensures this.targets == targets
    {
      this.targets := targets;
    }

    /** `GetPackageStatus`: unknown when the package has no row. */
    function GetPackageStatus(name: string): (r: PackageStatus)
      reads this
      ensures name !in targets ==> r == Unknown
      ensures name in targets ==> r == StatusFromString(targets[name])
    {
      if name in targets then StatusFromString(targets[name]) else Unknown
    }

    /** `ShouldRunStep`. */
    function ShouldRunStep(name: string, step: PackageStatus): (r: bool)
      reads this
      ensures r <==> ShouldRun(GetPackageStatus(name), step)
    {
      var current := GetPackageStatus(name);
      current == Unknown || Rank(current) < Rank(step)
    }

    /** `SetPackageStatus`: insert or replace the row. */
    method SetPackageStatus(name: string, status: PackageStatus)
      modifies this
      ensures targets == old(targets)[name := StatusString(status)]
      ensures GetPackageStatus(name) == status
    {
      targets := targets[name := StatusString(status)];
    }

    /** `LowerPackageStatus`. */
    method LowerPackageStatus(name: string, status: PackageStatus)
      modifies this
      ensures GetPackageStatus(name) == Lowered(old(GetPackageStatus(name)), status)
      ensures forall other :: other != name ==> GetPackageStatus(other) == old(GetPackageStatus(other))
    {
      var current := GetPackageStatus(name);
      if current == Unknown || Rank(current) > Rank(status) {
        SetPackageStatus(name, status);
      }
    }

    /** `RaiseTargetStatus`. */
    method RaiseTargetStatus(name: string, status: PackageStatus)
      modifies this
      ensures GetPackageStatus(name) == Raised(old(GetPackageStatus(name)), status)
      ensures forall other :: other != name ==> GetPackageStatus(other) == old(GetPackageStatus(other))
    {
      var current := GetPackageStatus(name);
      if current == Unknown || Rank(current) < Rank(status) {
        SetPackageStatus(name, status);
      }
    }
  }
}
