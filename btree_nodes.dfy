/**
 * The nodes of std/container/btree_map.hpp (`BTreeMapCommon`): a leaf
 * keeps up to `kLeafOrder` entries in two parallel arrays found by a linear
 * scan; an internal node keeps separator keys and one child more than it
 * has keys. Keys are integers ordered by `<`. The node header's parent
 * pointer is not modelled, and children are opaque handles of type `C`.
 */
module BTreeMapNodes {
  import opened Status
  import opened Seqs
  import opened FlatMaps
  import opened BTreeLeaves
  import Util

  /** `kTargetSize`, four kilobytes. */
  const MapTargetSize: nat := 4096
  /** `sizeof(BaseNode)` on x86-64: a flag and a 16-bit count padded to 8 bytes, and a parent pointer. */
  const BaseNodeSize: nat := 16
  /** `sizeof(LeafNode*)`. */
  const PointerSize: nat := 8

  /** `kLeafOrder`: entries that fit in a leaf of the target size, never below 3. */
  function LeafOrder(keySize: nat, valueSize: nat): (order: nat)
    requires keySize + valueSize > 0
    ensures order >= 3 && order <= MapTargetSize
    ensures order * (keySize + valueSize) <= MapTargetSize - BaseNodeSize || order == 3
  {
    Util.Max(3, (MapTargetSize - BaseNodeSize) / (keySize + valueSize))
  }

  /** `kInternalOrder`: separator keys that fit beside their child pointers, never below 3. */
  function InternalOrder(keySize: nat): (order: nat)
    ensures order >= 3 && order <= MapTargetSize
    ensures order * (keySize + PointerSize) <= MapTargetSize - BaseNodeSize || order == 3
  {
    Util.Max(3, (MapTargetSize - BaseNodeSize) / (keySize + PointerSize))
  }

  /** The keys after `insert`: unchanged when `key` is present, else `key` at its lower bound. */
  function InsertKey(ks: seq<int>, key: int): seq<int>
  {
    if key in ks then ks else InsertAt(ks, LowerBound(ks, key), key)
  }

  /** The values after `insert`: the value of a present key replaced, else the value inserted beside its key. */
  function InsertValue<V>(ks: seq<int>, vs: seq<V>, key: int, value: V): seq<V>
    requires |ks| == |vs|
  {
    if key in ks then vs[IndexOf(ks, key) := value] else InsertAt(vs, LowerBound(ks, key), value)
  }

  /** `insert` keeps a node sorted, and afterwards `key` finds `value` while every other key finds what it found before. */
  lemma InsertKeyLookups<V>(ks: seq<int>, vs: seq<V>, key: int, value: V)
    requires StrictlySorted(ks) && |ks| == |vs|
    ensures StrictlySorted(InsertKey(ks, key)) && |InsertKey(ks, key)| == |InsertValue(ks, vs, key, value)|
    ensures forall k :: k in InsertKey(ks, key) <==> k in ks || k == key
    ensures forall k :: ValueOf(InsertKey(ks, key), InsertValue(ks, vs, key, value), k)
                        == if k == key then Some(value) else ValueOf(ks, vs, k)
  {
    if key in ks {
      UpdateLookups(ks, vs, IndexOf(ks, key), value);
    } else {
      InsertKeepsSorted(ks, key);
      InsertLookups(ks, vs, key, value);
      var t := InsertKey(ks, key);
      var i := LowerBound(ks, key);
      forall k
        ensures k in t <==> k in ks || k == key
      {
        InsertAtMultiset(ks, i, key);
        assert k in t <==> k in multiset(t);
        assert k in ks <==> k in multiset(ks);
      }
    }
  }

  /** Splitting a sorted run at `half` and inserting a key below `ks[half]` into the lower part. */
  lemma JoinIntoLow<V>(ks: seq<int>, vs: seq<V>, half: nat, key: int, value: V)
    requires StrictlySorted(ks) && |ks| == |vs| && half < |ks| && key !in ks && key < ks[half]
    ensures var i := LowerBound(ks[..half], key);
      InsertAt(ks[..half], i, key) + ks[half..] == InsertAt(ks, LowerBound(ks, key), key)
      && InsertAt(vs[..half], i, value) + vs[half..] == InsertAt(vs, LowerBound(ks, key), value)
  {
    LowerBoundOfSorted(ks, key);
    LowerBoundPrefix(ks, half, key);
    InsertIntoPrefix(ks, half, LowerBound(ks, key), key);
    InsertIntoPrefix(vs, half, LowerBound(ks, key), value);
  }

  /** Splitting a sorted run at `half` and inserting a key not below `ks[half]` into the upper part. */
  lemma JoinIntoHigh<V>(ks: seq<int>, vs: seq<V>, half: nat, key: int, value: V)
    requires StrictlySorted(ks) && |ks| == |vs| && half < |ks| && key !in ks && ks[half] <= key
    ensures var i := LowerBound(ks[half..], key);
      ks[..half] + InsertAt(ks[half..], i, key) == InsertAt(ks, LowerBound(ks, key), key)
      && vs[..half] + InsertAt(vs[half..], i, value) == InsertAt(vs, LowerBound(ks, key), value)
  {
    LowerBoundOfSorted(ks, key);
    LowerBoundSuffix(ks, half, key);
    InsertIntoSuffix(ks, half, LowerBound(ks, key), key);
    InsertIntoSuffix(vs, half, LowerBound(ks, key), value);
  }

  /** `LeafNode`: the entries of a leaf, keys ascending. */
  /** Dropping the first key of a strictly sorted sequence leaves it strictly sorted. */
  lemma TailStaysSorted(s: seq<int>)
    ensures StrictlySorted(s) && |s| > 0 ==> StrictlySorted(s[1..])
  {
    if StrictlySorted(s) && |s| > 0 {
      forall a, b | 0 <= a < b < |s| - 1
        ensures s[1..][a] < s[1..][b]
      {
        assert s[1..][a] == s[a + 1] && s[1..][b] == s[b + 1];
      }
    }
  }

  class LeafNode<V(0)> {
    var keys: array<int>
    var values: array<V>
    var count: nat

    ghost predicate Valid()
      reads this
    {
      keys.Length == values.Length && 3 <= keys.Length
      && (keys as object) != (values as object) && count <= keys.Length
    }

    /** The order the map keeps its leaves in. */
    ghost predicate Sorted()
      reads this, keys
      requires Valid()
    {
      StrictlySorted(keys[..count])
    }

    /** This node and `other` share no object. */
    ghost predicate Separate(other: LeafNode<V>)
      reads this, other
    {
      {this as object, keys as object, values as object}
        !! {other as object, other.keys as object, other.values as object}
    }

    /** `keys()`. */
    function Keys(): seq<int>
      requires count <= keys.Length
      reads this, keys
    {
      keys[..count]
    }

    /** `values()`. */
    function Values(): seq<V>
      requires count <= values.Length
      reads this, values
    {
      values[..count]
    }

    function Capacity(): nat
      reads this
    {
      keys.Length
    }

    /** `LeafNode(parent)`: an empty leaf of `order` slots. */
    constructor (order: nat)
      requires order >= 3
      ensures Valid() && Sorted() && Keys() == [] && Values() == [] && Capacity() == order
      ensures fresh(keys) && fresh(values)
    {
      keys := new int[order];
      values := new V[order];
      count := 0;
    }

    /**
     * `insert`: scan for the first key not below `e.key`; an equal key has
     * its value replaced, even in a full leaf; otherwise the entry goes
     * there with later entries moved up, or `eFull` when the leaf is full.
     */
    method Insert(e: Entry<V>) returns (result: InsertResult)
      requires Valid() && Sorted()
      modifies this, keys, values
      ensures Valid() && Sorted() && keys == old(keys) && values == old(values)
      ensures result == Full <==> e.key !in old(Keys()) && old(count) == Capacity()
      ensures result == Full ==> count == old(count) && unchanged(keys, values)
      ensures result == Inserted ==>
        Keys() == InsertKey(old(Keys()), e.key) && Values() == InsertValue(old(Keys()), old(Values()), e.key, e.value)
    {
      ghost var ks := Keys();
      var n := count;
      var i := 0;
      while i < n
        invariant i <= n
        invariant forall k :: 0 <= k < i ==> keys[k] < e.key
      {
        if keys[i] >= e.key {
          break;
        }
        i := i + 1;
      }
      if i < n && keys[i] == e.key {
        IndexOfIsFirst(ks, e.key, i);
        values[i] := e.value;
        assert Values() == old(Values())[i := e.value];
        return Inserted;
      }
      LowerBoundIs(ks, e.key, i);
      LowerBoundOfSorted(ks, e.key);
      if n >= keys.Length {
        return Full;
      }
      Place(i, e);
      return Inserted;
    }

    /** The new-key half of `insert`: `setCount(n + 1)`, the shift loop, `emplace(i, entry)`. */
    method Place(index: nat, e: Entry<V>)
      requires Valid() && Sorted() && count < keys.Length
      requires e.key !in Keys() && index == LowerBound(Keys(), e.key)
      modifies this, keys, values
      ensures Valid() && Sorted() && keys == old(keys) && values == old(values)
      ensures count == old(count) + 1
      ensures Keys() == InsertAt(old(Keys()), index, e.key)
      ensures Values() == InsertAt(old(Values()), index, e.value)
    {
      ghost var ks := Keys();
      InsertEntry(keys, values, count, index, e.key, e.value);
      count := count + 1;
      InsertKeepsSorted(ks, e.key);
    }

    /** `transferTo(other, size)`: the top `size` entries move, in order, to the empty `other`. */
    method TransferTo(other: LeafNode<V>, size: nat)
      requires Valid() && other.Valid() && Separate(other) && other.count == 0
      requires size <= count && size <= other.Capacity()
      modifies this, other, other.keys, other.values
      ensures Valid() && other.Valid() && keys == old(keys) && values == old(values)
      ensures other.keys == old(other.keys) && other.values == old(other.values)
      ensures count == old(count) - size && other.count == size
      ensures Keys() == old(Keys())[..count] && Values() == old(Values())[..count]
      ensures other.Keys() == old(Keys())[count..] && other.Values() == old(Values())[count..]
    {
      ghost var ks, vs := Keys(), Values();
      var start := count - size;
      var i := 0;
      while i < size
        modifies other.keys, other.values
        invariant i <= size
        invariant keys[..count] == ks && values[..count] == vs
        invariant forall k :: 0 <= k < i ==> other.keys[k] == ks[k + start] && other.values[k] == vs[k + start]
      {
        other.keys[i] := keys[i + start];
        other.values[i] := values[i + start];
        i := i + 1;
      }
      other.count := size;
      count := start;
      assert other.Keys() == ks[start..];
      assert other.Values() == vs[start..];
    }

    /**
     * `splitLeafInto(other, entry)`: a full leaf keeps its lower half, the
     * empty `other` takes the rest, and the new entry goes to the half its
     * key belongs in, so the two hold the old entries and the new one, in
     * order.
     */
    method SplitLeafInto(other: LeafNode<V>, e: Entry<V>)
      requires Valid() && other.Valid() && Separate(other) && Sorted()
      requires count == Capacity() && other.Capacity() == Capacity() && other.count == 0
      requires e.key !in Keys()
      modifies this, keys, values, other, other.keys, other.values
      ensures Valid() && other.Valid() && Sorted() && other.Sorted()
      ensures count + other.count == Capacity() + 1
      ensures var i := LowerBound(old(Keys()), e.key);
        Keys() + other.Keys() == InsertAt(old(Keys()), i, e.key)
        && Values() + other.Values() == InsertAt(old(Values()), i, e.value)
    {
      ghost var ks, vs := Keys(), Values();
      var isOdd := count % 2 == 1;
      var half := Capacity() / 2;
      var otherSize := half + if isOdd then 1 else 0;
      var middle := Entry(keys[half], values[half]);
      assert Capacity() == 2 * half + if isOdd then 1 else 0;
      TransferTo(other, otherSize);
      SortedHalves(ks, half);
      if e.key < middle.key {
        SplitLow(other, e, ks, vs, half);
      } else {
        SplitHigh(other, e, ks, vs, half);
      }
    }

    /** `splitLeafInto` for a key below the middle: it goes into this, the lower half. */
    method SplitLow(other: LeafNode<V>, e: Entry<V>, ghost ks: seq<int>, ghost vs: seq<V>, half: nat)
      requires Valid() && other.Valid() && Separate(other)
      requires StrictlySorted(ks) && |ks| == |vs| && half < |ks| && e.key !in ks && e.key < ks[half]
      requires count == half < Capacity()
      requires Keys() == ks[..half] && Values() == vs[..half]
      requires other.Keys() == ks[half..] && other.Values() == vs[half..]
      requires StrictlySorted(ks[..half]) && StrictlySorted(ks[half..])
      modifies this, keys, values
      ensures Valid() && Sorted() && count == half + 1 && keys == old(keys) && values == old(values)
      ensures other.Valid() && other.Sorted() && other.count == old(other.count)
      ensures var i := LowerBound(ks, e.key);
        Keys() + other.Keys() == InsertAt(ks, i, e.key)
        && Values() + other.Values() == InsertAt(vs, i, e.value)
    {
      var _ := Insert(e);
      JoinIntoLow(ks, vs, half, e.key, e.value);
    }

    /** `splitLeafInto` for a key not below the middle: it goes into `other`, the upper half. */
    method SplitHigh(other: LeafNode<V>, e: Entry<V>, ghost ks: seq<int>, ghost vs: seq<V>, half: nat)
      requires Valid() && other.Valid() && Separate(other)
      requires StrictlySorted(ks) && |ks| == |vs| && half < |ks| && e.key !in ks && ks[half] <= e.key
      requires other.count < other.Capacity()
      requires Keys() == ks[..half] && Values() == vs[..half]
      requires other.Keys() == ks[half..] && other.Values() == vs[half..]
      requires StrictlySorted(ks[..half]) && StrictlySorted(ks[half..])
      modifies other, other.keys, other.values
      ensures other.Valid() && other.Sorted() && other.count == old(other.count) + 1
      ensures Valid() && Sorted() && count == old(count)
      ensures var i := LowerBound(ks, e.key);
        Keys() + other.Keys() == InsertAt(ks, i, e.key)
        && Values() + other.Values() == InsertAt(vs, i, e.value)
    {
      var _ := other.Insert(e);
      JoinIntoHigh(ks, vs, half, e.key, e.value);
    }

    /** `popHead`: the first entry is returned and the rest move down one slot. */
    method PopHead() returns (e: Entry<V>)
      requires Valid() && count > 0
      modifies this, keys, values
      ensures Valid() && keys == old(keys) && values == old(values)
      ensures e == Entry(old(Keys())[0], old(Values())[0])
      ensures Keys() == old(Keys())[1..] && Values() == old(Values())[1..]
      ensures count == old(count) - 1
      ensures old(Sorted()) ==> Sorted()
    {
      e := Entry(keys[0], values[0]);
      ghost var ks, vs := Keys(), Values();
      ShiftDown(keys, values, 0, count);
      count := count - 1;
      assert Keys() == ks[1..] by {
        forall k | 0 <= k < count ensures keys[k] == ks[1..][k] { }
      }
      assert Values() == vs[1..] by {
        forall k | 0 <= k < count ensures values[k] == vs[1..][k] { }
      }
      TailStaysSorted(ks);
    }

    /** `popTail`: the last entry is returned and dropped. */
    method PopTail() returns (e: Entry<V>)
      requires Valid() && count > 0
      modifies this
      ensures Valid() && keys == old(keys) && values == old(values)
      ensures count == old(count) - 1
      ensures e == Entry(old(Keys())[old(count) - 1], old(Values())[old(count) - 1])
      ensures Keys() == old(Keys())[..count] && Values() == old(Values())[..count]
      ensures old(Sorted()) ==> Sorted()
    {
      e := Entry(keys[count - 1], values[count - 1]);
      count := count - 1;
      assert Keys() == old(Keys())[..count];
    }
  }

  /** `InternalNode`: separator keys and the children between them; child `i + 1` holds keys from separator `i` on. */
  class InternalNode<C(0)> {
    var keys: array<int>
    var children: array<C>
    var count: nat

    ghost predicate Valid()
      reads this
    {
      children.Length == keys.Length + 1 && 3 <= keys.Length && count <= keys.Length
      && (keys as object) != (children as object)
    }

    /** `keys()`. */
    function Keys(): seq<int>
      requires count <= keys.Length
      reads this, keys
    {
      keys[..count]
    }

    /** `children()`: one more than the keys. */
    function Children(): seq<C>
      requires count + 1 <= children.Length
      reads this, children
    {
      children[..count + 1]
    }

    function Capacity(): nat
      reads this
    {
      keys.Length
    }

    /** `InternalNode(parent)`: no separators, room for `order` of them. */
    constructor (order: nat)
      requires order >= 3
      ensures Valid() && Keys() == [] && Capacity() == order
      ensures fresh(keys) && fresh(children)
    {
      keys := new int[order];
      children := new C[order + 1];
      count := 0;
    }

    /**
     * `insert(leaf)` with `k = leaf->min()`: `k` goes before the first
     * separator above it and `leaf` becomes the child just after `k`; a full
     * node answers `eFull` and is left unchanged.
     */
    method Insert(k: int, leaf: C) returns (result: InsertResult)
      requires Valid()
      modifies this, keys, children
      ensures Valid() && keys == old(keys) && children == old(children)
      ensures result == Full <==> old(count) == Capacity()
      ensures result == Full ==> count == old(count) && unchanged(keys, children)
      ensures result == Inserted ==>
        var i := UpperBound(old(Keys()), k);
        count == old(count) + 1
        && Keys() == InsertAt(old(Keys()), i, k)
        && Children() == InsertAt(old(Children()), i + 1, leaf)
    {
      ghost var ks := Keys();
      var n := count;
      var i := 0;
      while i < n && keys[i] <= k
        invariant i <= n
        invariant forall j :: 0 <= j < i ==> keys[j] <= k
      {
        i := i + 1;
      }
      UpperBoundIs(ks, k, i);
      if n >= keys.Length {
        return Full;
      }
      Place(i, k, leaf);
      return Inserted;
    }

    /** The non-full half of `insert`: `setCount(n + 1)`, the two shift loops, `key(i) = k` and `takeNode(i + 1, leaf)`. */
    method Place(i: nat, k: int, leaf: C)
      requires Valid() && i <= count < keys.Length
      modifies this, keys, children
      ensures Valid() && keys == old(keys) && children == old(children)
      ensures count == old(count) + 1
      ensures Keys() == InsertAt(old(Keys()), i, k)
      ensures Children() == InsertAt(old(Children()), i + 1, leaf)
    {
      ghost var ks, cs := Keys(), Children();
      var n := count;
      count := n + 1;
      ShiftRight(keys, i, n);
      ShiftRight(children, i + 1, n + 1);
      keys[i] := k;
      children[i + 1] := leaf;
      InsertAtIs(ks, i, k, Keys());
      InsertAtIs(cs, i + 1, leaf, Children());
    }
  }

  /** Keeping a node sorted: an absent key inserted at its upper bound keeps the separators ascending. */
  lemma InternalInsertKeepsSorted(ks: seq<int>, k: int)
    requires StrictlySorted(ks) && k !in ks
    ensures StrictlySorted(InsertAt(ks, UpperBound(ks, k), k))
  {
    var i := UpperBound(ks, k);
    LowerBoundIs(ks, k, i);
    InsertKeepsSorted(ks, k);
  }

  /** The shift loops of `insert`: `a[lo..hi)` moves up one slot to `a[lo+1..hi]`. */
  method ShiftRight<T>(a: array<T>, lo: nat, hi: nat)
    requires lo <= hi < a.Length
    modifies a
    ensures forall k :: 0 <= k < a.Length ==> a[k] == if lo < k <= hi then old(a[k - 1]) else old(a[k])
  {
    var j := hi;
    while j > lo
      invariant lo <= j <= hi
      invariant forall k :: 0 <= k < a.Length ==> a[k] == if j < k <= hi then old(a[k - 1]) else old(a[k])
    {
      a[j] := a[j - 1];
      j := j - 1;
    }
  }
}
