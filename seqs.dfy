/**
 * Sequence edits shared by the container models: removing the element at an
 * index with the tail shifted down, and inserting one with the tail shifted up.
 */
module Seqs {

  /** The sequence without its element at `i`; later elements move down by one. */
  function RemoveAt<T>(s: seq<T>, i: nat): (t: seq<T>)
    requires i < |s|
    ensures |t| == |s| - 1
    ensures forall k :: 0 <= k < i ==> t[k] == s[k]
    ensures forall k :: i <= k < |t| ==> t[k] == s[k + 1]
  {
    s[..i] + s[i + 1..]
  }

  /** The sequence with `v` placed at `i`; the element there and later ones move up by one. */
  function InsertAt<T>(s: seq<T>, i: nat, v: T): (t: seq<T>)
    requires i <= |s|
    ensures |t| == |s| + 1
    ensures t[i] == v
    ensures forall k :: 0 <= k < i ==> t[k] == s[k]
    ensures forall k :: i < k < |t| ==> t[k] == s[k - 1]
  {
    s[..i] + [v] + s[i..]
  }

  /** Removing takes exactly one copy of the element out. */
  lemma RemoveAtMultiset<T>(s: seq<T>, i: nat)
    requires i < |s|
    ensures multiset(RemoveAt(s, i)) == multiset(s) - multiset{s[i]}
  {
    assert s == s[..i] + [s[i]] + s[i + 1..];
  }

  /** Inserting adds exactly one copy of the element. */
  lemma InsertAtMultiset<T>(s: seq<T>, i: nat, v: T)
    requires i <= |s|
    ensures multiset(InsertAt(s, i, v)) == multiset(s) + multiset{v}
  {
    assert s == s[..i] + s[i..];
  }

  /** A sequence that agrees with `InsertAt(s, i, v)` position by position is it. */
  lemma InsertAtIs<T>(s: seq<T>, i: nat, v: T, t: seq<T>)
    requires i <= |s| && |t| == |s| + 1 && t[i] == v
    requires forall k :: 0 <= k < i ==> t[k] == s[k]
    requires forall k :: i < k < |t| ==> t[k] == s[k - 1]
    ensures t == InsertAt(s, i, v)
  {
  }

  /** A sequence that agrees with `RemoveAt(s, i)` position by position is it. */
  lemma RemoveAtIs<T>(s: seq<T>, i: nat, t: seq<T>)
    requires i < |s| && |t| == |s| - 1
    requires forall k :: 0 <= k < i ==> t[k] == s[k]
    requires forall k :: i <= k < |t| ==> t[k] == s[k + 1]
    ensures t == RemoveAt(s, i)
  {
  }

  /** Removing what was just inserted gives the original sequence back. */
  lemma RemoveInserted<T>(s: seq<T>, i: nat, v: T)
    requires i <= |s|
    ensures RemoveAt(InsertAt(s, i, v), i) == s
  {
  }

  /** Putting back what was just removed gives the original sequence back. */
  lemma InsertRemoved<T>(s: seq<T>, i: nat)
    requires i < |s|
    ensures InsertAt(RemoveAt(s, i), i, s[i]) == s
  {
  }

  lemma InRemoveAt<T>(s: seq<T>, i: nat, x: T)
    requires i < |s|
    ensures x in RemoveAt(s, i) ==> x in s
    ensures x in s && x != s[i] ==> x in RemoveAt(s, i)
  {
    RemoveAtMultiset(s, i);
    if x in RemoveAt(s, i) {
      assert x in multiset(RemoveAt(s, i));
    }
    if x in s && x != s[i] {
      assert x in multiset(s);
    }
  }

  /** The index of the first occurrence of `v` in `s`, or `|s|` when there is none. */
  function IndexOf<T(==)>(s: seq<T>, v: T): (i: nat)
    ensures i <= |s| && (i < |s| ==> s[i] == v)
    ensures forall k :: 0 <= k < i ==> s[k] != v
    ensures i == |s| <==> v !in s
  {
    if |s| == 0 then 0
    else if s[0] == v then 0
    else 1 + IndexOf(s[1..], v)
  }

  /** A position holding `v` with no `v` before it is `IndexOf`. */
  lemma IndexOfIsFirst<T>(s: seq<T>, v: T, i: nat)
    requires i < |s| && s[i] == v && forall k :: 0 <= k < i ==> s[k] != v
    ensures IndexOf(s, v) == i && v in s
  {
  }
}
