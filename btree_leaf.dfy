/**
 * The leaf node of std/container/btree.hpp (`BTreeMapCommon::Leaf`): up to
 * `kOrder` entries in two parallel arrays, keys strictly ascending. Keys
 * are integers ordered by `<`. The node header (leaf flag and parent
 * pointer) is not modelled; two leaves are required to be separate objects.
 */
module BTreeLeaves {
  import opened Status
  import opened Seqs
  import opened FlatMaps
  import Util

  /** `kTargetNodeSize`, one kilobyte. */
  const TargetNodeSize: nat := 1024
  /** `sizeof(TreeNodeHeader)` on x86-64: a flag padded to 8 bytes and a parent pointer. */
  const NodeHeaderSize: nat := 16
  /** `SIZE_MAX`, `indexOf`'s answer for an absent key. */
  const SizeMax: nat := 0xFFFF_FFFF_FFFF_FFFF

  /** `InsertResult`: `eSuccess` or `eFull`. */
  datatype InsertResult = Inserted | Full

  datatype Entry<V> = Entry(key: int, value: V)

  /** `computeMaxLeafOrder`: how many entries fit in a node of the target size. */
  function MaxLeafOrder(keySize: nat, valueSize: nat): nat
    requires keySize + valueSize > 0
  {
    (TargetNodeSize - NodeHeaderSize) / (keySize + valueSize)
  }

  /** `Leaf::kOrder`: the leaf capacity, never below 3. */
  function Order(keySize: nat, valueSize: nat): (order: nat)
    requires keySize + valueSize > 0
    ensures order >= 3 && order >= MaxLeafOrder(keySize, valueSize)
    ensures order == 3 || order == MaxLeafOrder(keySize, valueSize)
    ensures order <= TargetNodeSize
  {
    Util.Max(3, MaxLeafOrder(keySize, valueSize))
  }

  /** `minCapacity`: `max(1, kOrder / 2 - 1)`, the fill below which a leaf is under-filled. */
  function MinCapacity(order: nat): nat
  {
    if order / 2 >= 2 then order / 2 - 1 else 1
  }

  /** A leaf split in halves is never under-filled: the minimum is at most half the order. */
  lemma MinCapacityBounds(order: nat)
    requires order >= 3
    ensures 1 <= MinCapacity(order) <= order / 2
    ensures MinCapacity(order) <= order - order / 2
  {
  }

  /** The lower bound within a prefix that reaches past it is the lower bound in the whole. */
  lemma LowerBoundPrefix(s: seq<int>, h: nat, key: int)
    requires StrictlySorted(s) && h <= |s| && LowerBound(s, key) <= h
    ensures LowerBound(s[..h], key) == LowerBound(s, key)
  {
    var i := LowerBound(s, key);
    assert i < h ==> s[..h][i] == s[i];
    LowerBoundIs(s[..h], key, i);
  }

  /** The lower bound within a suffix starting at or before it is shifted by the cut. */
  lemma LowerBoundSuffix(s: seq<int>, h: nat, key: int)
    requires StrictlySorted(s) && h <= LowerBound(s, key)
    ensures LowerBound(s[h..], key) == LowerBound(s, key) - h
  {
    var i := LowerBound(s, key);
    LowerBoundIs(s[h..], key, i - h);
  }

  /** Inserting into a prefix and appending the rest is inserting into the whole. */
  lemma InsertIntoPrefix<T>(s: seq<T>, h: nat, i: nat, v: T)
    requires i <= h <= |s|
    ensures InsertAt(s[..h], i, v) + s[h..] == InsertAt(s, i, v)
  {
    InsertAtIs(s, i, v, InsertAt(s[..h], i, v) + s[h..]);
  }

  /** Keeping a prefix and inserting into the rest is inserting into the whole. */
  lemma InsertIntoSuffix<T>(s: seq<T>, h: nat, i: nat, v: T)
    requires h <= i <= |s|
    ensures s[..h] + InsertAt(s[h..], i - h, v) == InsertAt(s, i, v)
  {
    InsertAtIs(s, i, v, s[..h] + InsertAt(s[h..], i - h, v));
  }

  /** Two sorted runs with every key of the first below every key of the second make a sorted run. */
  lemma SortedConcat(a: seq<int>, b: seq<int>)
    requires StrictlySorted(a) && StrictlySorted(b)
    requires forall i, j :: 0 <= i < |a| && 0 <= j < |b| ==> a[i] < b[j]
    ensures StrictlySorted(a + b)
  {
    var t := a + b;
    forall i, j | 0 <= i < j < |t|
      ensures t[i] < t[j]
    {
      if j < |a| {
        assert t[i] == a[i] && t[j] == a[j];
      } else if i < |a| {
        assert t[i] == a[i] && t[j] == b[j - |a|];
      } else {
        assert t[i] == b[i - |a|] && t[j] == b[j - |a|];
      }
    }
  }

  /** A sorted run split around one element: the left part is below it and the right part above. */
  lemma SortedAround(s: seq<int>, left: seq<int>, mid: int, right: seq<int>)
    requires s == left + [mid] + right && StrictlySorted(s)
    ensures StrictlySorted(left) && StrictlySorted(right)
    ensures forall k :: 0 <= k < |left| ==> left[k] < mid
    ensures forall k :: 0 <= k < |right| ==> mid < right[k]
  {
    forall i, j | 0 <= i < j < |left|
      ensures left[i] < left[j]
    {
      assert left[i] == s[i] && left[j] == s[j];
    }
    forall i, j | 0 <= i < j < |right|
      ensures right[i] < right[j]
    {
      assert right[i] == s[|left| + 1 + i] && right[j] == s[|left| + 1 + j];
    }
    forall k | 0 <= k < |left|
      ensures left[k] < mid
    {
      assert left[k] == s[k] && mid == s[|left|];
    }
    forall k | 0 <= k < |right|
      ensures mid < right[k]
    {
      assert right[k] == s[|left| + 1 + k] && mid == s[|left|];
    }
  }

  /** Both halves of a sorted run are sorted. */
  lemma SortedHalves(s: seq<int>, h: nat)
    requires StrictlySorted(s) && h <= |s|
    ensures StrictlySorted(s[..h]) && StrictlySorted(s[h..])
  {
    assert forall i :: 0 <= i < |s| - h ==> s[h..][i] == s[h + i];
  }

  /** Inserting into a prefix, then splitting its last element off, and appending the rest. */
  lemma JoinLow<T>(s: seq<T>, h: nat, i: nat, v: T, low: seq<T>)
    requires i <= h <= |s| && low == InsertAt(s[..h], i, v)
    ensures low[..|low| - 1] + [low[|low| - 1]] + s[h..] == InsertAt(s, i, v)
  {
    assert low[..|low| - 1] + [low[|low| - 1]] == low;
    InsertIntoPrefix(s, h, i, v);
  }

  /** Keeping a prefix, then inserting into the rest and splitting its first element off. */
  lemma JoinHigh<T>(s: seq<T>, h: nat, i: nat, v: T, high: seq<T>)
    requires h <= i <= |s| && high == InsertAt(s[h..], i - h, v)
    ensures s[..h] + [high[0]] + high[1..] == InsertAt(s, i, v)
  {
    assert [high[0]] + high[1..] == high;
    assert s[..h] + [high[0]] + high[1..] == s[..h] + high;
    InsertIntoSuffix(s, h, i, v);
  }

  /**
   * The shape `splitInto` leaves for a key below the middle: inserted into
   * the lower half, whose last entry then becomes the midpoint.
   */
  lemma SplitLowShape<V>(ks: seq<int>, vs: seq<V>, half: nat, e: Entry<V>, low: seq<int>, lowValues: seq<V>)
    requires StrictlySorted(ks) && |ks| == |vs| && half < |ks| && e.key !in ks && e.key < ks[half]
    requires low == InsertAt(ks[..half], LowerBound(ks[..half], e.key), e.key)
    requires lowValues == InsertAt(vs[..half], LowerBound(ks[..half], e.key), e.value)
    ensures var i, n := LowerBound(ks, e.key), |low| - 1;
      low[..n] + [low[n]] + ks[half..] == InsertAt(ks, i, e.key)
      && lowValues[..n] + [lowValues[n]] + vs[half..] == InsertAt(vs, i, e.value)
    ensures StrictlySorted(low[..|low| - 1])
  {
    var i, n := LowerBound(ks, e.key), |low| - 1;
    LowerBoundOfSorted(ks, e.key);
    LowerBoundPrefix(ks, half, e.key);
    JoinLow(ks, half, i, e.key, low);
    JoinLow(vs, half, i, e.value, lowValues);
    InsertKeepsSorted(ks, e.key);
    SortedAround(InsertAt(ks, i, e.key), low[..n], low[n], ks[half..]);
  }

  /**
   * The shape `splitInto` leaves for a key above the middle: inserted into
   * the upper half, whose first entry then becomes the midpoint.
   */
  lemma SplitHighShape<V>(ks: seq<int>, vs: seq<V>, half: nat, e: Entry<V>, high: seq<int>, highValues: seq<V>)
    requires StrictlySorted(ks) && |ks| == |vs| && half < |ks| && e.key !in ks && ks[half] <= e.key
    requires high == InsertAt(ks[half..], LowerBound(ks[half..], e.key), e.key)
    requires highValues == InsertAt(vs[half..], LowerBound(ks[half..], e.key), e.value)
    ensures var i := LowerBound(ks, e.key);
      ks[..half] + [high[0]] + high[1..] == InsertAt(ks, i, e.key)
      && vs[..half] + [highValues[0]] + highValues[1..] == InsertAt(vs, i, e.value)
    ensures StrictlySorted(high[1..])
  {
    var i := LowerBound(ks, e.key);
    HighIndex(ks, half, e.key);
    JoinHigh(ks, half, i, e.key, high);
    JoinHigh(vs, half, i, e.value, highValues);
    InsertKeepsSorted(ks, e.key);
    SortedAround(InsertAt(ks, i, e.key), ks[..half], high[0], high[1..]);
  }

  /** A new key not below the entry at `half` goes after it, at its lower bound within the upper half. */
  lemma HighIndex(ks: seq<int>, half: nat, key: int)
    requires StrictlySorted(ks) && half < |ks| && key !in ks && ks[half] <= key
    ensures half < LowerBound(ks, key) && LowerBound(ks[half..], key) == LowerBound(ks, key) - half
  {
    LowerBoundOfSorted(ks, key);
    LowerBoundSuffix(ks, half, key);
  }

  class Leaf<V(0)> {
    var keys: array<int>
    var values: array<V>
    var count: nat

    /** Both arrays hold the `kOrder` slots of the node, at least 3. */
    ghost predicate Valid()
      reads this
    {
      keys.Length == values.Length && 3 <= keys.Length <= TargetNodeSize
      && (keys as object) != (values as object) && count <= keys.Length
    }

    /** What `validate` checks: the live keys are in ascending order. */
    ghost predicate Sorted()
      reads this, keys
      requires Valid()
    {
      StrictlySorted(keys[..count])
    }

    /** This node and `other` share no object. */
    ghost predicate Separate(other: Leaf<V>)
      reads this, other
    {
      {this as object, keys as object, values as object}
        !! {other as object, other.keys as object, other.values as object}
    }

    /** `keys()`: the live keys. */
    function Keys(): seq<int>
      requires count <= keys.Length
      reads this, keys
    {
      keys[..count]
    }

    /** `values()`: the live values. */
    function Values(): seq<V>
      requires count <= values.Length
      reads this, values
    {
      values[..count]
    }

    function Capacity(): nat
      reads this
    {
      keys.Length
    }

    /** `isUnderFilled`: fewer entries than `minCapacity`. */
    predicate IsUnderFilled()
      reads this
    {
      count < MinCapacity(keys.Length)
    }

    /** An empty leaf with `order` slots. */
    constructor (order: nat)
      requires 3 <= order <= TargetNodeSize
      ensures Valid() && Sorted() && Keys() == [] && Capacity() == order
      ensures fresh(keys) && fresh(values)
    {
      keys := new int[order];
      values := new V[order];
      count := 0;
    }

    /**
     * `insert` (`insertViaLowerBound`): an existing key has its value
     * replaced, even in a full leaf; a new key goes to its lower bound with
     * later entries moved up, or `eFull` when the leaf is full.
     */
    method Insert(e: Entry<V>) returns (result: InsertResult)
      requires Valid() && Sorted()
      modifies this, keys, values
      ensures Valid() && Sorted() && keys == old(keys) && values == old(values)
      ensures e.key in old(Keys()) ==>
        result == Inserted && count == old(count) && Keys() == old(Keys())
        && Values() == old(Values())[IndexOf(old(Keys()), e.key) := e.value]
      ensures e.key !in old(Keys()) && old(count) == Capacity() ==>
        result == Full && count == old(count) && unchanged(keys, values)
      ensures e.key !in old(Keys()) && old(count) < Capacity() ==>
        var i := LowerBound(old(Keys()), e.key);
        result == Inserted && count == old(count) + 1
        && Keys() == InsertAt(old(Keys()), i, e.key) && Values() == InsertAt(old(Values()), i, e.value)
    {
      ghost var ks, vs := Keys(), Values();
      var index := SearchLowerBound(keys, count, e.key);
      LowerBoundOfSorted(ks, e.key);
      var n := count;
      if index == count {
        if n >= keys.Length {
          return Full;
        }
        Place(n, e);
      } else if keys[index] == e.key {
        IndexOfSorted(ks, index);
        values[index] := e.value;
        assert Values() == vs[index := e.value];
      } else {
        if n >= keys.Length {
          return Full;
        }
        Place(index, e);
      }
      return Inserted;
    }

    /** The new-key half of `insert`: `setCount(n + 1)`, `shiftEntry(index)`, `emplace(index, entry)`. */
    method Place(index: nat, e: Entry<V>)
      requires Valid() && Sorted() && count < keys.Length
      requires e.key !in Keys() && index == LowerBound(Keys(), e.key)
      modifies this, keys, values
      ensures Valid() && Sorted() && keys == old(keys) && values == old(values)
      ensures count == old(count) + 1
      ensures Keys() == InsertAt(old(Keys()), index, e.key)
      ensures Values() == InsertAt(old(Values()), index, e.value)
    {
      ghost var ks := Keys();
      InsertEntry(keys, values, count, index, e.key, e.value);
      count := count + 1;
      InsertKeepsSorted(ks, e.key);
    }

    /** `remove(index)`: the entry at `index` goes and later entries move down. */
    method Remove(index: nat)
      requires Valid() && index < count
      modifies this, keys, values
      ensures Valid() && keys == old(keys) && values == old(values)
      ensures count == old(count) - 1
      ensures Keys() == RemoveAt(old(Keys()), index)
      ensures Values() == RemoveAt(old(Values()), index)
      ensures old(Sorted()) ==> Sorted()
    {
      ghost var ks, vs := Keys(), Values();
      ShiftDown(keys, values, index, count);
      count := count - 1;
      assert forall k :: 0 <= k < index ==> keys[k] == ks[k] && values[k] == vs[k];
      assert forall k :: index <= k < count ==> keys[k] == ks[k + 1] && values[k] == vs[k + 1];
      RemoveAtIs(ks, index, Keys());
      RemoveAtIs(vs, index, Values());
      if StrictlySorted(ks) {
        RemoveKeepsSorted(ks, index);
      }
    }

    /** `popBack`: the last entry is returned and dropped. */
    method PopBack() returns (e: Entry<V>)
      requires Valid() && count > 0
      modifies this
      ensures Valid() && keys == old(keys) && values == old(values) && count == old(count) - 1
      ensures e == Entry(old(Keys())[old(count) - 1], old(Values())[old(count) - 1])
      ensures Keys() == old(Keys())[..count] && Values() == old(Values())[..count]
      ensures old(Sorted()) ==> Sorted()
    {
      e := Entry(keys[count - 1], values[count - 1]);
      count := count - 1;
      assert Keys() == old(Keys())[..count];
    }

    /** `popFront`: the first entry is returned and the rest move down. */
    method PopFront() returns (e: Entry<V>)
      requires Valid() && count > 0
      modifies this, keys, values
      ensures Valid() && keys == old(keys) && values == old(values)
      ensures count == old(count) - 1
      ensures e == Entry(old(Keys())[0], old(Values())[0])
      ensures Keys() == old(Keys())[1..] && Values() == old(Values())[1..]
      ensures old(Sorted()) ==> Sorted()
    {
      e := Entry(keys[0], values[0]);
      Remove(0);
    }

    /** `lowerBound`: the position of the first key not below `k`. */
    method LowerBoundIndex(k: int) returns (i: nat)
      requires Valid() && Sorted()
      ensures i == LowerBound(Keys(), k)
    {
      i := SearchLowerBound(keys, count, k);
    }

    /** `upperBound`: the position of the first key above `k`. */
    method UpperBoundIndex(k: int) returns (i: nat)
      requires Valid() && Sorted()
      ensures i == UpperBound(Keys(), k)
    {
      i := SearchUpperBound(keys, count, k);
    }

    /** `indexOf` (`indexOfViaLowerBound`): the position of `k`, or `SIZE_MAX` exactly when it is absent. */
    method IndexOfKey(k: int) returns (i: nat)
      requires Valid() && Sorted()
      ensures i == SizeMax <==> k !in Keys()
      ensures i != SizeMax ==> i < count && keys[i] == k
    {
      var index := SearchLowerBound(keys, count, k);
      LowerBoundOfSorted(Keys(), k);
      if index != count && keys[index] == k {
        return index;
      }
      return SizeMax;
    }

    /** `find`: the value stored under `k`, or nothing. */
    method Find(k: int) returns (r: Option<V>)
      requires Valid() && Sorted()
      ensures r == ValueOf(Keys(), Values(), k)
      ensures r.Some? <==> k in Keys()
    {
      var index := IndexOfKey(k);
      if index == SizeMax {
        return None;
      }
      ValueOfAt(Keys(), Values(), index);
      return Some(values[index]);
    }

    /** `containsInNode`: a scan of the live keys for `k`. */
    method ContainsInNode(k: int) returns (found: bool)
      requires Valid()
      ensures found <==> k in Keys()
    {
      var i := 0;
      while i < count
        invariant i <= count
        invariant forall j :: 0 <= j < i ==> keys[j] != k
      {
        if keys[i] == k {
          assert Keys()[i] == k;
          return true;
        }
        i := i + 1;
      }
      return false;
    }

    /**
     * `claim(other)`: `other`'s entries are appended after this node's,
     * and `other` is left empty.
     */
    method Claim(other: Leaf<V>)
      requires Valid() && other.Valid() && Separate(other)
      requires count + other.count <= Capacity()
      modifies this, keys, values, other
      ensures Valid() && other.Valid() && keys == old(keys) && values == old(values)
      ensures other.keys == old(other.keys) && other.values == old(other.values)
      ensures Keys() == old(Keys()) + old(other.Keys()) && Values() == old(Values()) + old(other.Values())
      ensures other.count == 0
      ensures old(Sorted()) && old(other.Sorted())
        && (forall i, j :: 0 <= i < old(count) && 0 <= j < old(other.count) ==> old(keys[i]) < old(other.keys[j]))
        ==> Sorted()
    {
      ghost var ks, vs, oks, ovs := Keys(), Values(), other.Keys(), other.Values();
      var oldCount := count;
      count := oldCount + other.count;
      MoveRange(other.keys, 0, keys, oldCount, other.count);
      MoveRange(other.values, 0, values, oldCount, other.count);
      other.count := 0;
      assert Keys() == ks + oks;
      assert Values() == vs + ovs;
      if StrictlySorted(ks) && StrictlySorted(oks) && forall i, j :: 0 <= i < |ks| && 0 <= j < |oks| ==> ks[i] < oks[j] {
        SortedConcat(ks, oks);
      }
    }

    /** Moves the top entries `[half, count)` into the empty `other`, leaving `half` here. */
    method MoveTopHalf(other: Leaf<V>, half: nat)
      requires Valid() && other.Valid() && Separate(other) && other.count == 0
      requires half <= count && count - half <= other.Capacity()
      modifies this, other, other.keys, other.values
      ensures Valid() && other.Valid() && keys == old(keys) && values == old(values)
      ensures other.keys == old(other.keys) && other.values == old(other.values)
      ensures count == half && other.count == old(count) - half
      ensures Keys() == old(Keys())[..half] && Values() == old(Values())[..half]
      ensures other.Keys() == old(Keys())[half..] && other.Values() == old(Values())[half..]
    {
      ghost var ks, vs := Keys(), Values();
      other.count := count - half;
      MoveRange(keys, half, other.keys, 0, count - half);
      MoveRange(values, half, other.values, 0, count - half);
      count := half;
      assert other.Keys() == ks[half..];
      assert other.Values() == vs[half..];
    }

    /**
     * `splitInto(other, entry, midpoint)`: a full leaf and a new key make
     * `kOrder + 1` entries; the lower ones stay here, the upper ones go to
     * the empty `other`, and the one between them is the midpoint.
     */
    method SplitInto(other: Leaf<V>, e: Entry<V>) returns (mid: Entry<V>)
      requires Valid() && other.Valid() && Separate(other) && Sorted()
      requires other.Capacity() == Capacity() && other.count == 0 && count == Capacity()
      requires e.key !in Keys()
      modifies this, keys, values, other, other.keys, other.values
      ensures Valid() && other.Valid() && Sorted() && other.Sorted()
      ensures keys == old(keys) && values == old(values)
      ensures other.keys == old(other.keys) && other.values == old(other.values)
      ensures var i := LowerBound(old(Keys()), e.key);
        Keys() + [mid.key] + other.Keys() == InsertAt(old(Keys()), i, e.key)
        && Values() + [mid.value] + other.Values() == InsertAt(old(Values()), i, e.value)
      ensures count == Capacity() / 2 && other.count == Capacity() - Capacity() / 2
      ensures !IsUnderFilled() && !other.IsUnderFilled()
    {
      ghost var ks, vs := Keys(), Values();
      MinCapacityBounds(Capacity());
      var isOdd := Capacity() % 2 == 1;
      var half := Capacity() / 2;
      var otherSize := half + (if isOdd then 1 else 0);
      var middle := Entry(keys[half], values[half]);
      MoveTopHalf(other, half);
      assert other.count == otherSize;
      SortedHalves(ks, half);
      if e.key < middle.key {
        mid := SplitLow(other, e, middle, ks, vs, half);
      } else {
        mid := SplitHigh(other, e, ks, vs, half);
      }
    }

    /** `splitInto` for a new key below the middle key: it joins the lower half, whose top becomes the midpoint. */
    method SplitLow(other: Leaf<V>, e: Entry<V>, middle: Entry<V>, ghost ks: seq<int>, ghost vs: seq<V>, half: nat) returns (mid: Entry<V>)
      requires Valid() && other.Valid() && Separate(other)
      requires StrictlySorted(ks) && |ks| == |vs| && 0 < half < |ks| && e.key !in ks && e.key < ks[half]
      requires middle == Entry(ks[half], vs[half])
      requires count == half < Capacity() && other.count < other.Capacity()
      requires Keys() == ks[..half] && Values() == vs[..half]
      requires other.Keys() == ks[half..] && other.Values() == vs[half..]
      requires StrictlySorted(ks[..half]) && StrictlySorted(ks[half..])
      modifies this, keys, values, other, other.keys, other.values
      ensures Valid() && other.Valid() && Sorted() && other.Sorted()
      ensures keys == old(keys) && values == old(values)
      ensures other.keys == old(other.keys) && other.values == old(other.values)
      ensures var i := LowerBound(ks, e.key);
        Keys() + [mid.key] + other.Keys() == InsertAt(ks, i, e.key)
        && Values() + [mid.value] + other.Values() == InsertAt(vs, i, e.value)
      ensures count == half && other.count == old(other.count)
    {
      assert e.key !in Keys();
      var _ := Insert(e);
      ghost var low, lowValues := Keys(), Values();
      IndexOfIsFirst(other.Keys(), middle.key, 0);
      assert other.Values()[0 := middle.value] == other.Values();
      var _ := other.Insert(middle);
      mid := PopBack();
      SplitLowShape(ks, vs, half, e, low, lowValues);
    }

    /** `splitInto` for a new key above the middle key: it joins the upper half, whose bottom becomes the midpoint. */
    method SplitHigh(other: Leaf<V>, e: Entry<V>, ghost ks: seq<int>, ghost vs: seq<V>, half: nat) returns (mid: Entry<V>)
      requires Valid() && other.Valid() && Separate(other)
      requires StrictlySorted(ks) && |ks| == |vs| && half < |ks| && e.key !in ks && ks[half] <= e.key
      requires count == half && other.count < other.Capacity()
      requires Keys() == ks[..half] && Values() == vs[..half]
      requires other.Keys() == ks[half..] && other.Values() == vs[half..]
      requires StrictlySorted(ks[..half]) && StrictlySorted(ks[half..])
      modifies other, other.keys, other.values
      ensures Valid() && other.Valid() && Sorted() && other.Sorted()
      ensures other.keys == old(other.keys) && other.values == old(other.values)
      ensures var i := LowerBound(ks, e.key);
        Keys() + [mid.key] + other.Keys() == InsertAt(ks, i, e.key)
        && Values() + [mid.value] + other.Values() == InsertAt(vs, i, e.value)
      ensures count == half && other.count == old(other.count)
    {
      assert e.key !in other.Keys();
      var _ := other.Insert(e);
      ghost var high, highValues := other.Keys(), other.Values();
      mid := other.PopFront();
      SplitHighShape(ks, vs, half, e, high, highValues);
    }
  }

  /** `std::move` of `n` elements from `src[from..]` to `dst[at..]`, for separate arrays. */
  method MoveRange<T>(src: array<T>, from: nat, dst: array<T>, at: nat, n: nat)
    requires from + n <= src.Length && at + n <= dst.Length && src != dst
    modifies dst
    ensures forall k :: 0 <= k < dst.Length ==>
      dst[k] == if at <= k < at + n then src[from + k - at] else old(dst[k])
  {
    var i := 0;
    while i < n
      invariant i <= n
      invariant forall k :: 0 <= k < dst.Length ==>
        dst[k] == if at <= k < at + i then src[from + k - at] else old(dst[k])
    {
      dst[at + i] := src[from + i];
      i := i + 1;
    }
  }

  /** `shiftEntry(index)` then `emplace(index, entry)` on the arrays of a leaf holding `count` entries. */
  method InsertEntry<V>(keys: array<int>, values: array<V>, count: nat, index: nat, key: int, value: V)
    requires index <= count < keys.Length == values.Length && (keys as object) != (values as object)
    modifies keys, values
    ensures keys[..count + 1] == InsertAt(old(keys[..count]), index, key)
    ensures values[..count + 1] == InsertAt(old(values[..count]), index, value)
  {
    ghost var k0, v0 := keys[..], values[..];
    ShiftUp(keys, values, index, count);
    ghost var k1, v1 := keys[..], values[..];
    ShiftedInsert(k0, k1, count, index, key);
    ShiftedInsert(v0, v1, count, index, value);
    keys[index] := key;
    values[index] := value;
    assert keys[..] == k1[index := key];
    assert values[..] == v1[index := value];
  }

  /** A shift up from `i` followed by a write at `i` inserts into the first `count` elements. */
  lemma ShiftedInsert<T>(a0: seq<T>, a1: seq<T>, count: nat, i: nat, v: T)
    requires i <= count < |a0| == |a1|
    requires forall k {:trigger a1[k]} :: 0 <= k < |a1| ==> a1[k] == if i < k <= count then a0[k - 1] else a0[k]
    ensures a1[i := v][..count + 1] == InsertAt(a0[..count], i, v)
  {
    var t := a1[i := v][..count + 1];
    forall k | 0 <= k < i ensures t[k] == a0[..count][k] {
      assert t[k] == a1[k];
    }
    forall k | i < k < |t| ensures t[k] == a0[..count][k - 1] {
      assert t[k] == a1[k];
    }
    InsertAtIs(a0[..count], i, v, t);
  }
}
