/**
 * `StaticFlatMap` of std/container/static_flat_map.hpp: a sorted map kept
 * in two parallel arrays, the keys and their values, inside storage the
 * caller provides. Keys are integers ordered by `<`, the default
 * `std::less` comparator; lookups go through `std::lower_bound`.
 */
module FlatMaps {
  import opened Status
  import opened Seqs
  import Util

  predicate StrictlySorted(s: seq<int>)
  {
    forall i, j :: 0 <= i < j < |s| ==> s[i] < s[j]
  }

  /** `std::lower_bound`: the first index whose key is not below `key`. */
  function LowerBound(s: seq<int>, key: int): (i: nat)
    ensures i <= |s| && (i < |s| ==> s[i] >= key)
    ensures forall k :: 0 <= k < i ==> s[k] < key
  {
    if |s| == 0 || s[0] >= key then 0 else 1 + LowerBound(s[1..], key)
  }

  /** `std::upper_bound`: the first index whose key is above `key`. */
  function UpperBound(s: seq<int>, key: int): (i: nat)
    ensures i <= |s| && (i < |s| ==> s[i] > key)
    ensures forall k :: 0 <= k < i ==> s[k] <= key
  {
    if |s| == 0 || s[0] > key then 0 else 1 + UpperBound(s[1..], key)
  }

  /** The value stored beside `key`, the entry a lookup of `key` finds. */
  function ValueOf<V>(ks: seq<int>, vs: seq<V>, key: int): Option<V>
    requires |ks| == |vs|
  {
    if key in ks then Some(vs[IndexOf(ks, key)]) else None
  }

  /** `computeMaxKeyCount`: how many entries fit in `storageSize` bytes. */
  function MaxKeyCount(storageSize: nat, keySize: nat, valueSize: nat): nat
    requires keySize + valueSize > 0
  {
    storageSize / (keySize + valueSize)
  }

  /** `computeRequiredStorage`: the bytes `capacity` entries take. */
  function RequiredStorage(capacity: nat, keySize: nat, valueSize: nat): nat
  {
    capacity * keySize + capacity * valueSize
  }

  /** The capacity is the largest number of entries that fits in the storage. */
  lemma MaxKeyCountFits(storageSize: nat, keySize: nat, valueSize: nat)
    requires keySize + valueSize > 0
    ensures RequiredStorage(MaxKeyCount(storageSize, keySize, valueSize), keySize, valueSize) <= storageSize
    ensures storageSize < RequiredStorage(MaxKeyCount(storageSize, keySize, valueSize) + 1, keySize, valueSize)
  {
    var e := keySize + valueSize;
    var q := storageSize / e;
    assert storageSize == q * e + storageSize % e;
    assert q * e == q * keySize + q * valueSize;
    assert (q + 1) * e == (q + 1) * keySize + (q + 1) * valueSize;
  }

  /** Storage sized for `capacity` entries gives exactly that capacity back. */
  lemma MaxKeyCountOfRequired(capacity: nat, keySize: nat, valueSize: nat)
    requires keySize + valueSize > 0
    ensures MaxKeyCount(RequiredStorage(capacity, keySize, valueSize), keySize, valueSize) == capacity
  {
    var e := keySize + valueSize;
    assert RequiredStorage(capacity, keySize, valueSize) == capacity * e + 0;
    Util.DivModUnique(capacity * e, e, capacity, 0);
  }

  /** A position with every key before it below `key` and its own key not below is the lower bound. */
  lemma LowerBoundIs(s: seq<int>, key: int, i: nat)
    requires i <= |s| && (i < |s| ==> s[i] >= key)
    requires forall k :: 0 <= k < i ==> s[k] < key
    ensures LowerBound(s, key) == i
  {
  }

  lemma UpperBoundIs(s: seq<int>, key: int, i: nat)
    requires i <= |s| && (i < |s| ==> s[i] > key)
    requires forall k :: 0 <= k < i ==> s[k] <= key
    ensures UpperBound(s, key) == i
  {
  }

  /**
   * In a sorted sequence the lower bound splits the keys below `key` from
   * the rest, and `key` is present exactly when it sits at the lower bound.
   */
  lemma LowerBoundOfSorted(s: seq<int>, key: int)
    requires StrictlySorted(s)
    ensures forall k :: LowerBound(s, key) <= k < |s| ==> s[k] >= key
    ensures key in s <==> LowerBound(s, key) < |s| && s[LowerBound(s, key)] == key
  {
    var i := LowerBound(s, key);
    if key in s {
      var j :| 0 <= j < |s| && s[j] == key;
      assert !(j < i);
    }
  }

  /** Every position in a strictly sorted sequence is the first occurrence of its key. */
  lemma IndexOfSorted(s: seq<int>, j: nat)
    requires StrictlySorted(s) && j < |s|
    ensures IndexOf(s, s[j]) == j
  {
    IndexOfIsFirst(s, s[j], j);
  }

  /** Inserting an absent key at its lower bound keeps the keys strictly sorted. */
  lemma InsertKeepsSorted(s: seq<int>, key: int)
    requires StrictlySorted(s) && key !in s
    ensures StrictlySorted(InsertAt(s, LowerBound(s, key), key))
  {
    var i := LowerBound(s, key);
    var t := InsertAt(s, i, key);
    LowerBoundOfSorted(s, key);
    forall a, b | 0 <= a < b < |t|
      ensures t[a] < t[b]
    {
      if b < i {
      } else if b == i {
      } else if a < i {
        assert t[a] < key <= s[b - 1];
      } else if a == i {
        assert s[b - 1] != key;
      } else {
      }
    }
  }

  /** Removing an entry keeps the keys strictly sorted. */
  lemma RemoveKeepsSorted(s: seq<int>, i: nat)
    requires StrictlySorted(s) && i < |s|
    ensures StrictlySorted(RemoveAt(s, i))
  {
    var t := RemoveAt(s, i);
    forall a, b | 0 <= a < b < |t|
      ensures t[a] < t[b]
    {
      var a', b' := if a < i then a else a + 1, if b < i then b else b + 1;
      assert t[a] == s[a'] && t[b] == s[b'];
    }
  }

  /** The value found for the key at position `j` is the value at position `j`. */
  lemma ValueOfAt<V>(ks: seq<int>, vs: seq<V>, j: nat)
    requires StrictlySorted(ks) && |ks| == |vs| && j < |ks|
    ensures ValueOf(ks, vs, ks[j]) == Some(vs[j])
  {
    IndexOfSorted(ks, j);
  }

  /** Overwriting the value at `i` changes what its key maps to and nothing else. */
  lemma UpdateValueOf<V>(ks: seq<int>, vs: seq<V>, i: nat, value: V, k: int)
    requires StrictlySorted(ks) && |ks| == |vs| && i < |ks|
    ensures ValueOf(ks, vs[i := value], k) == if k == ks[i] then Some(value) else ValueOf(ks, vs, k)
  {
    if k == ks[i] {
      ValueOfAt(ks, vs[i := value], i);
    } else if k in ks {
      var j := IndexOf(ks, k);
      assert j != i;
    }
  }

  /** Inserting a new entry at the lower bound maps its key to its value and changes nothing else. */
  lemma InsertValueOf<V>(ks: seq<int>, vs: seq<V>, key: int, value: V, k: int)
    requires StrictlySorted(ks) && |ks| == |vs| && key !in ks
    ensures var i := LowerBound(ks, key);
      ValueOf(InsertAt(ks, i, key), InsertAt(vs, i, value), k)
        == if k == key then Some(value) else ValueOf(ks, vs, k)
  {
    var i := LowerBound(ks, key);
    InsertKeepsSorted(ks, key);
    if k == key {
      ValueOfAt(InsertAt(ks, i, key), InsertAt(vs, i, value), i);
    } else if k in ks {
      InsertValueOfOther(ks, vs, i, key, value, IndexOf(ks, k));
    } else {
      InsertValueOfAbsent(ks, vs, i, key, value, k);
    }
  }

  /** After an insertion at `i`, the key that was at `j` keeps its value. */
  lemma InsertValueOfOther<V>(ks: seq<int>, vs: seq<V>, i: nat, key: int, value: V, j: nat)
    requires |ks| == |vs| && i <= |ks| && j < |ks| && StrictlySorted(InsertAt(ks, i, key))
    ensures ValueOf(InsertAt(ks, i, key), InsertAt(vs, i, value), ks[j]) == Some(vs[j])
  {
    var ks', vs' := InsertAt(ks, i, key), InsertAt(vs, i, value);
    var j' := if j < i then j else j + 1;
    assert ks'[j'] == ks[j] && vs'[j'] == vs[j];
    ValueOfAt(ks', vs', j');
  }

  /** A key absent before an insertion of another key stays absent. */
  lemma InsertValueOfAbsent<V>(ks: seq<int>, vs: seq<V>, i: nat, key: int, value: V, k: int)
    requires |ks| == |vs| && i <= |ks| && k !in ks && k != key
    ensures ValueOf(InsertAt(ks, i, key), InsertAt(vs, i, value), k) == None
    ensures ValueOf(ks, vs, k) == None
  {
    var ks' := InsertAt(ks, i, key);
    forall j' | 0 <= j' < |ks'|
      ensures ks'[j'] != k
    {
      if j' < i {
        assert ks'[j'] == ks[j'];
      } else if i < j' {
        assert ks'[j'] == ks[j' - 1];
      }
    }
  }

  /** Removing the entry at `i` unmaps its key and changes nothing else. */
  lemma RemoveValueOf<V>(ks: seq<int>, vs: seq<V>, i: nat, k: int)
    requires StrictlySorted(ks) && |ks| == |vs| && i < |ks|
    ensures ValueOf(RemoveAt(ks, i), RemoveAt(vs, i), k) == if k == ks[i] then None else ValueOf(ks, vs, k)
  {
    var ks', vs' := RemoveAt(ks, i), RemoveAt(vs, i);
    RemoveKeepsSorted(ks, i);
    if k == ks[i] {
      forall j' | 0 <= j' < |ks'|
        ensures ks'[j'] != k
      {
        var j := if j' < i then j' else j' + 1;
        assert ks'[j'] == ks[j] && (ks[i] < ks[j] || ks[j] < ks[i]);
      }
    } else if k in ks {
      var j := IndexOf(ks, k);
      var j' := if j < i then j else j - 1;
      assert ks'[j'] == k && vs'[j'] == vs[j];
      ValueOfAt(ks', vs', j');
    } else {
      InRemoveAt(ks, i, k);
    }
  }

  /** `UpdateValueOf` for every key at once. */
  lemma UpdateLookups<V>(ks: seq<int>, vs: seq<V>, i: nat, value: V)
    requires StrictlySorted(ks) && |ks| == |vs| && i < |ks|
    ensures forall k :: ValueOf(ks, vs[i := value], k) == if k == ks[i] then Some(value) else ValueOf(ks, vs, k)
  {
    forall k ensures ValueOf(ks, vs[i := value], k) == if k == ks[i] then Some(value) else ValueOf(ks, vs, k) {
      UpdateValueOf(ks, vs, i, value, k);
    }
  }

  /** `InsertValueOf` for every key at once. */
  lemma InsertLookups<V>(ks: seq<int>, vs: seq<V>, key: int, value: V)
    requires StrictlySorted(ks) && |ks| == |vs| && key !in ks
    ensures var i := LowerBound(ks, key);
      forall k :: ValueOf(InsertAt(ks, i, key), InsertAt(vs, i, value), k)
        == if k == key then Some(value) else ValueOf(ks, vs, k)
  {
    forall k ensures ValueOf(InsertAt(ks, LowerBound(ks, key), key), InsertAt(vs, LowerBound(ks, key), value), k)
      == if k == key then Some(value) else ValueOf(ks, vs, k) {
      InsertValueOf(ks, vs, key, value, k);
    }
  }

  /** `RemoveValueOf` for every key at once. */
  lemma RemoveLookups<V>(ks: seq<int>, vs: seq<V>, i: nat)
    requires StrictlySorted(ks) && |ks| == |vs| && i < |ks|
    ensures forall k :: ValueOf(RemoveAt(ks, i), RemoveAt(vs, i), k) == if k == ks[i] then None else ValueOf(ks, vs, k)
  {
    forall k ensures ValueOf(RemoveAt(ks, i), RemoveAt(vs, i), k) == if k == ks[i] then None else ValueOf(ks, vs, k) {
      RemoveValueOf(ks, vs, i, k);
    }
  }

  /** `std::lower_bound` over the first `n` keys, by binary search. */
  method SearchLowerBound(a: array<int>, n: nat, key: int) returns (i: nat)
    requires n <= a.Length && StrictlySorted(a[..n])
    ensures i == LowerBound(a[..n], key)
  {
    var lo, hi := 0, n;
    while lo < hi
      invariant 0 <= lo <= hi <= n
      invariant forall k :: 0 <= k < lo ==> a[k] < key
      invariant forall k :: hi <= k < n ==> a[k] >= key
    {
      var mid := lo + (hi - lo) / 2;
      if a[mid] < key {
        assert forall k :: 0 <= k < mid ==> a[..n][k] < a[..n][mid];
        lo := mid + 1;
      } else {
        assert forall k :: mid < k < n ==> a[..n][mid] < a[..n][k];
        hi := mid;
      }
    }
    LowerBoundIs(a[..n], key, lo);
    i := lo;
  }

  /** `std::upper_bound` over the first `n` keys, by binary search. */
  method SearchUpperBound(a: array<int>, n: nat, key: int) returns (i: nat)
    requires n <= a.Length && StrictlySorted(a[..n])
    ensures i == UpperBound(a[..n], key)
  {
    var lo, hi := 0, n;
    while lo < hi
      invariant 0 <= lo <= hi <= n
      invariant forall k :: 0 <= k < lo ==> a[k] <= key
      invariant forall k :: hi <= k < n ==> a[k] > key
    {
      var mid := lo + (hi - lo) / 2;
      if a[mid] <= key {
        assert forall k :: 0 <= k < mid ==> a[..n][k] < a[..n][mid];
        lo := mid + 1;
      } else {
        assert forall k :: mid < k < n ==> a[..n][mid] < a[..n][k];
        hi := mid;
      }
    }
    UpperBoundIs(a[..n], key, lo);
    i := lo;
  }

  class FlatMap<V(0)> {
    var keys: array<int>
    var values: array<V>
    var count: nat

    /** Both arrays hold `capacity` slots, and the live keys are strictly sorted. */
    ghost predicate Valid()
      reads this, keys
    {
      keys.Length == values.Length && (keys as object) != (values as object)
      && count <= keys.Length && StrictlySorted(keys[..count])
    }

    /** The live keys, `mKeys[0 .. mCount)`. */
    function Keys(): seq<int>
      requires count <= keys.Length
      reads this, keys
    {
      keys[..count]
    }

    /** The live values, `mValues[0 .. mCount)`. */
    function Values(): seq<V>
      requires count <= values.Length
      reads this, values
    {
      values[..count]
    }

    function Capacity(): nat
      reads this
    {
      keys.Length
    }

    /** `find`'s answer for `key` on the current contents. */
    function Lookup(key: int): Option<V>
      requires Valid()
      reads this, keys, values
    {
      ValueOf(Keys(), Values(), key)
    }

    /** `StaticFlatMap()`: no storage, capacity 0. */
    constructor Empty()
      ensures Valid() && Keys() == [] && Capacity() == 0
    {
      keys := new int[0];
      values := new V[0];
      count := 0;
    }

    /**
     * `StaticFlatMap(storage, size)`: room for `MaxKeyCount(size)` entries.
     * The storage must hold at least one entry.
     */
    constructor (storageSize: nat, keySize: nat, valueSize: nat)
      requires keySize + valueSize > 0
      requires storageSize >= RequiredStorage(1, keySize, valueSize)
      ensures Valid() && Keys() == [] && Capacity() == MaxKeyCount(storageSize, keySize, valueSize)
      ensures Capacity() >= 1
    {
      var capacity := storageSize / (keySize + valueSize);
      MaxKeyCountFits(storageSize, keySize, valueSize);
      keys := new int[capacity];
      values := new V[capacity];
      count := 0;
    }

    /** `clear`: no entries are left; the storage stays. */
    method Clear()
      requires Valid()
      modifies this
      ensures Valid() && Keys() == [] && keys == old(keys) && values == old(values)
      ensures forall k :: Lookup(k) == None
    {
      count := 0;
    }

    /**
     * `insert`: a full map refuses with `OutOfMemory`, even when the key is
     * already present. Otherwise an existing key has its value replaced in
     * place, and a new key is placed at its lower bound with the later
     * entries moved up by one.
     */
    method Insert(key: int, value: V) returns (status: OsStatus)
      requires Valid()
      modifies this, keys, values
      ensures Valid() && keys == old(keys) && values == old(values)
      ensures old(count) == keys.Length ==>
        status == OutOfMemory && count == old(count) && unchanged(keys, values)
      ensures old(count) < keys.Length ==> status == Success
      ensures old(count) < keys.Length && key in old(Keys()) ==>
        count == old(count) && Keys() == old(Keys())
        && Values() == old(Values())[IndexOf(old(Keys()), key) := value]
      ensures old(count) < keys.Length && key !in old(Keys()) ==>
        var i := LowerBound(old(Keys()), key);
        count == old(count) + 1 && Keys() == InsertAt(old(Keys()), i, key)
        && Values() == InsertAt(old(Values()), i, value)
      ensures status == Success ==>
        forall k :: Lookup(k) == if k == key then Some(value) else old(Lookup(k))
    {
      if count == keys.Length {
        return OutOfMemory;
      }
      ghost var ks, vs := Keys(), Values();
      var index := SearchLowerBound(keys, count, key);
      LowerBoundOfSorted(ks, key);
      if index != count && !(key < keys[index]) && !(keys[index] < key) {
        IndexOfSorted(ks, index);
        values[index] := value;
        assert Values() == vs[index := value];
        UpdateLookups(ks, vs, index, value);
        return Success;
      }
      Place(index, key, value);
      InsertLookups(ks, vs, key, value);
      return Success;
    }

    /** The insertion half of `insert`: `key` goes in at `index`, later entries move up. */
    method Place(index: nat, key: int, value: V)
      requires Valid() && count < keys.Length
      requires key !in Keys() && index == LowerBound(Keys(), key)
      modifies this, keys, values
      ensures Valid() && keys == old(keys) && values == old(values)
      ensures count == old(count) + 1
      ensures Keys() == InsertAt(old(Keys()), index, key)
      ensures Values() == InsertAt(old(Values()), index, value)
    {
      ghost var ks, vs := Keys(), Values();
      ShiftUp(keys, values, index, count);
      keys[index] := key;
      values[index] := value;
      count := count + 1;
      InsertAtIs(ks, index, key, Keys());
      InsertAtIs(vs, index, value, Values());
      InsertKeepsSorted(ks, key);
    }

    /**
     * `remove`: `NotFound` exactly when the key is absent; otherwise its
     * entry goes and the later entries move down by one.
     */
    method Remove(key: int) returns (status: OsStatus)
      requires Valid()
      modifies this, keys, values
      ensures Valid() && keys == old(keys) && values == old(values)
      ensures status == NotFound <==> key !in old(Keys())
      ensures status != NotFound ==> status == Success
      ensures key !in old(Keys()) ==> count == old(count) && unchanged(keys, values)
      ensures key in old(Keys()) ==>
        var i := IndexOf(old(Keys()), key);
        count == old(count) - 1 && Keys() == RemoveAt(old(Keys()), i)
        && Values() == RemoveAt(old(Values()), i)
      ensures forall k :: Lookup(k) == if k == key then None else old(Lookup(k))
    {
      ghost var ks, vs := Keys(), Values();
      var index := SearchLowerBound(keys, count, key);
      LowerBoundOfSorted(ks, key);
      if index == count || key < keys[index] || keys[index] < key {
        return NotFound;
      }
      IndexOfSorted(ks, index);
      Erase(index);
      RemoveLookups(ks, vs, index);
      return Success;
    }

    /** The removal half of `remove`: the entry at `index` goes, later entries move down. */
    method Erase(index: nat)
      requires Valid() && index < count
      modifies this, keys, values
      ensures Valid() && keys == old(keys) && values == old(values)
      ensures count == old(count) - 1
      ensures Keys() == RemoveAt(old(Keys()), index)
      ensures Values() == RemoveAt(old(Values()), index)
    {
      ghost var ks, vs := Keys(), Values();
      ShiftDown(keys, values, index, count);
      count := count - 1;
      assert forall k :: 0 <= k < index ==> keys[k] == ks[k] && values[k] == vs[k];
      assert forall k :: index <= k < count ==> keys[k] == ks[k + 1] && values[k] == vs[k + 1];
      RemoveAtIs(ks, index, Keys());
      RemoveAtIs(vs, index, Values());
      RemoveKeepsSorted(ks, index);
    }

    /** `find`: the value stored under `key`, or nothing when the key is absent. */
    method Find(key: int) returns (r: Option<V>)
      requires Valid()
      ensures r == Lookup(key)
      ensures r.Some? <==> key in Keys()
      ensures r.Some? ==> exists j :: 0 <= j < count && keys[j] == key && values[j] == r.value
    {
      ghost var ks, vs := Keys(), Values();
      var index := SearchLowerBound(keys, count, key);
      LowerBoundOfSorted(ks, key);
      if index == count || key < keys[index] || keys[index] < key {
        return None;
      }
      ValueOfAt(ks, vs, index);
      return Some(values[index]);
    }

    /** `lowerBound`: the position of the first key not below `key`. */
    method LowerBoundIndex(key: int) returns (i: nat)
      requires Valid()
      ensures i <= count
      ensures forall k :: 0 <= k < i ==> keys[k] < key
      ensures forall k :: i <= k < count ==> keys[k] >= key
    {
      i := SearchLowerBound(keys, count, key);
      LowerBoundOfSorted(Keys(), key);
    }

    /** `upperBound`: the position of the first key above `key`. */
    method UpperBoundIndex(key: int) returns (i: nat)
      requires Valid()
      ensures i <= count
      ensures forall k :: 0 <= k < i ==> keys[k] <= key
      ensures forall k :: i <= k < count ==> keys[k] > key
    {
      i := SearchUpperBound(keys, count, key);
      assert forall k :: i < k < count ==> keys[..count][i] < keys[..count][k];
    }
  }

  /** The move loop of `insert`: entries `[index, count)` move up one slot in both arrays. */
  method ShiftUp<V>(keys: array<int>, values: array<V>, index: nat, count: nat)
    requires index <= count < keys.Length == values.Length && (keys as object) != (values as object)
    modifies keys, values
    ensures forall k :: 0 <= k < keys.Length ==>
      keys[k] == if index < k <= count then old(keys[k - 1]) else old(keys[k])
    ensures forall k :: 0 <= k < values.Length ==>
      values[k] == if index < k <= count then old(values[k - 1]) else old(values[k])
  {
    var i := count;
    while i > index
      invariant index <= i <= count
      invariant forall k :: 0 <= k < keys.Length ==>
        keys[k] == if i < k <= count then old(keys[k - 1]) else old(keys[k])
      invariant forall k :: 0 <= k < values.Length ==>
        values[k] == if i < k <= count then old(values[k - 1]) else old(values[k])
    {
      keys[i] := keys[i - 1];
      values[i] := values[i - 1];
      i := i - 1;
    }
  }

  /** The move loop of `remove`: entries `(index, count)` move down one slot in both arrays. */
  method ShiftDown<V>(keys: array<int>, values: array<V>, index: nat, count: nat)
    requires index < count <= keys.Length == values.Length && (keys as object) != (values as object)
    modifies keys, values
    ensures forall k :: 0 <= k < keys.Length ==>
      keys[k] == if index <= k < count - 1 then old(keys[k + 1]) else old(keys[k])
    ensures forall k :: 0 <= k < values.Length ==>
      values[k] == if index <= k < count - 1 then old(values[k + 1]) else old(values[k])
  {
    var i := index;
    while i < count - 1
      invariant index <= i <= count - 1
      invariant forall k :: 0 <= k < keys.Length ==>
        keys[k] == if index <= k < i then old(keys[k + 1]) else old(keys[k])
      invariant forall k :: 0 <= k < values.Length ==>
        values[k] == if index <= k < i then old(values[k + 1]) else old(values[k])
    {
      keys[i] := keys[i + 1];
      values[i] := values[i + 1];
      i := i + 1;
    }
  }
}
