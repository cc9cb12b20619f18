/**
 * `BTreeMap::remove` of std/container/btree.hpp on the value tree of
 * `BTreeTrees`: `erase(find(key))` takes the entry out where `find` meets
 * it. A leaf slot is removed (`Leaf::remove`); an internal separator is
 * replaced by the entry `promoteBack` pops from the rightmost leaf of the
 * subtree left of it. A root left with no key goes (`mergeRootNodeIfNeeded`).
 */
module BTreeErases {
  import opened Status
  import opened Seqs
  import opened FlatMaps
  import opened BTreeTrees
  import opened BTreeInserts
  import BTreeLeaves

  /** The subtree stores no key at all. */
  predicate NoKeys<V>(n: Node<V>)
  {
    |n.keys| == 0
    && (n.InternalNode? ==> forall j :: 0 <= j < |n.children| ==> NoKeys(n.children[j]))
  }

  /** `NoKeys` is what it says: no key is stored. */
  lemma {:induction false} NoKeysHasNothing<V>(n: Node<V>, key: int)
    requires NoKeys(n)
    ensures !Has(n, key)
    decreases n
  {
    if n.InternalNode? {
      forall j | 0 <= j < |n.children|
        ensures !Has(n.children[j], key)
      {
        NoKeysHasNothing(n.children[j], key);
      }
    }
  }

  /** A subtree that is not `NoKeys` stores a key. */
  lemma {:induction false} SomeKey<V>(n: Node<V>) returns (key: int)
    requires !NoKeys(n)
    ensures Has(n, key)
    decreases n
  {
    if |n.keys| > 0 {
      key := n.keys[0];
    } else {
      var j :| 0 <= j < |n.children| && !NoKeys(n.children[j]);
      key := SomeKey(n.children[j]);
    }
  }

  /**
   * `promoteBack`: the last entry of the rightmost leaf below `n`, popped
   * from it. The kernel asserts that every node on that path holds an
   * entry, which its rebalancing keeps true; where the rightmost subtree
   * holds nothing, the node gives up its last separator and that subtree.
   */
  function PromoteBack<V>(n: Node<V>): (BTreeLeaves.Entry<V>, Node<V>)
    requires WellShaped(n) && !NoKeys(n)
    decreases n
  {
    match n
    case LeafNode(keys, values) =>
      var last := |keys| - 1;
      (BTreeLeaves.Entry(keys[last], values[last]), LeafNode(keys[..last], values[..last]))
    case InternalNode(keys, values, children) =>
      var last := |children| - 1;
      if !NoKeys(children[last]) then
        var (e, c) := PromoteBack(children[last]);
        (e, InternalNode(keys, values, children[last := c]))
      else
        (BTreeLeaves.Entry(keys[last - 1], values[last - 1]), InternalNode(keys[..last - 1], values[..last - 1], children[..last]))
  }

  /**
   * `eraseFromNode(find(key))`: a leaf drops the slot, an internal node
   * holding `key` takes `promoteBack` of the child left of it in its place
   * (or, when that child holds nothing, drops separator and child); any
   * other node goes down to child `upperBound(key)`. An absent key changes nothing.
   */
  function EraseInNode<V>(n: Node<V>, key: int): Node<V>
    requires WellShaped(n)
    decreases n
  {
    match n
    case LeafNode(keys, values) =>
      var i := LeafIndexOf(keys, key);
      if i == SizeMax then n else LeafNode(RemoveAt(keys, i), RemoveAt(values, i))
    case InternalNode(keys, values, children) =>
      var i := UpperBound(keys, key);
      if i != 0 && keys[i - 1] == key then
        var a := i - 1;
        if !NoKeys(children[a]) then
          var (e, c) := PromoteBack(children[a]);
          InternalNode(keys[a := e.key], values[a := e.value], children[a := c])
        else
          InternalNode(RemoveAt(keys, a), RemoveAt(values, a), RemoveAt(children, a))
      else
        InternalNode(keys, values, children[i := EraseInNode(children[i], key)])
  }

  /** `mergeRootNodeIfNeeded`: a root leaf with no entry goes, a root with no separator hands over to its only child. */
  function CollapseRoot<V>(n: Node<V>): Option<Node<V>>
    requires WellShaped(n)
  {
    if |n.keys| > 0 then Some(n)
    else if n.LeafNode? then None
    else Some(n.children[0])
  }

  /** `n'` is `n` without `key`: every other entry stays, and `key` is gone. */
  ghost predicate Erased<V(!new)>(m: Node<V>, n: Node<V>, key: int)
  {
    (forall k :: Has(m, k) <==> k != key && Has(n, k))
    && (forall k, v :: Holds(m, k, v) <==> k != key && Holds(n, k, v))
  }

  /** Once the entries are settled, which keys are stored follows. */
  lemma ErasedHas<V(!new)>(m: Node<V>, n: Node<V>, key: int)
    requires WellShaped(m) && WellShaped(n)
    requires forall k, v :: Holds(m, k, v) <==> k != key && Holds(n, k, v)
    ensures Erased(m, n, key)
  {
    forall k
      ensures Has(m, k) <==> k != key && Has(n, k)
    {
      HasSomeValue(m, k);
      HasSomeValue(n, k);
      if Has(m, k) {
        var v :| Holds(m, k, v);
        assert Holds(n, k, v);
      }
      if k != key && Has(n, k) {
        var v :| Holds(n, k, v);
        assert Holds(m, k, v);
      }
    }
  }

  /** Popping the last entry of a sorted leaf takes its greatest key. */
  lemma PopBackLeaf<V>(keys: seq<int>, values: seq<V>, order: nat)
    requires SearchTree(LeafNode(keys, values)) && |keys| > 0 && Fits(LeafNode(keys, values), order)
    ensures var last := |keys| - 1;
      var n, c := LeafNode(keys, values), LeafNode(keys[..last], values[..last]);
      SearchTree(c) && Fits(c, order)
      && (forall k :: Has(n, k) ==> k <= keys[last])
      && (forall k, v :: Holds(c, k, v) <==> k != keys[last] && Holds(n, k, v))
  {
    var last := |keys| - 1;
    assert keys == keys[..last] + [keys[last]] + keys[last + 1..];
    BTreeLeaves.SortedAround(keys, keys[..last], keys[last], keys[last + 1..]);
    forall k, v
      ensures SeparatorHolds(keys[..last], values[..last], k, v) <==> k != keys[last] && SeparatorHolds(keys, values, k, v)
    {
      SeparatorHoldsAt(keys, values, last, k, v);
      assert keys[last] !in keys[..last];
      assert !SeparatorHolds(keys[last + 1..], values[last + 1..], k, v);
    }
    forall k | k in keys
      ensures k <= keys[last]
    {
      var a :| 0 <= a < |keys| && keys[a] == k;
      assert a < last ==> keys[a] < keys[last];
    }
  }

  /** A node whose rightmost subtree holds nothing: its last separator is its greatest key. */
  lemma PopLastSeparator<V>(n: Node<V>, order: nat)
    requires SearchTree(n) && n.InternalNode? && Fits(n, order) && |n.keys| > 0
    requires NoKeys(n.children[|n.children| - 1])
    ensures var p := |n.keys| - 1;
      var c := InternalNode(n.keys[..p], n.values[..p], n.children[..p + 1]);
      SearchTree(c) && Fits(c, order)
      && (forall k :: Has(n, k) ==> k <= n.keys[p])
      && (forall k, v :: Holds(c, k, v) <==> k != n.keys[p] && Holds(n, k, v))
  {
    var p := |n.keys| - 1;
    var c := InternalNode(n.keys[..p], n.values[..p], n.children[..p + 1]);
    var right := InternalNode(n.keys[p + 1..], n.values[p + 1..], n.children[p + 1..]);
    CutInternal(n, p);
    assert right.keys == [] && right.children == [n.children[p + 1]];
    forall k
      ensures !Has(right, k)
    {
      NoKeysHasNothing(n.children[p + 1], k);
    }
    forall k, v
      ensures !Holds(right, k, v)
    {
      if Holds(right, k, v) {
        HoldsHas(right, k, v);
      }
    }
    forall k, v | Holds(c, k, v)
      ensures k != n.keys[p]
    {
      HoldsHas(c, k, v);
    }
    forall k | Has(n, k)
      ensures k <= n.keys[p]
    {
      HasSomeValue(n, k);
      var v :| Holds(n, k, v);
      if Holds(c, k, v) {
        HoldsHas(c, k, v);
      }
    }
    forall j | 0 <= j < |c.children|
      ensures Fits(c.children[j], order)
    {
      assert c.children[j] == n.children[j];
    }
  }

  /** What `promoteBack` does: it takes the greatest entry out of a search tree. */
  lemma {:induction false} PromoteBackTakesMax<V>(n: Node<V>, order: nat)
    requires SearchTree(n) && !NoKeys(n) && Fits(n, order)
    ensures var (e, c) := PromoteBack(n);
      SearchTree(c) && Fits(c, order) && Holds(n, e.key, e.value)
      && (forall k :: Has(n, k) ==> k <= e.key)
      && (forall k, v :: Holds(c, k, v) <==> k != e.key && Holds(n, k, v))
    decreases n
  {
    match n
    case LeafNode(keys, values) =>
      PopBackLeaf(keys, values, order);
      var last := |keys| - 1;
      assert SeparatorHolds(keys, values, keys[last], values[last]);
    case InternalNode(keys, values, children) =>
      var last := |children| - 1;
      if !NoKeys(children[last]) {
        assert children[last] in children;
        PromoteBackTakesMax(children[last], order);
        PromoteIntoLast(n, order);
      } else {
        PopLastSeparator(n, order);
        var p := |keys| - 1;
        assert SeparatorHolds(keys, values, keys[p], values[p]);
      }
  }

  /** `promoteBack` through the rightmost child of an internal node. */
  lemma PromoteIntoLast<V>(n: Node<V>, order: nat)
    requires SearchTree(n) && n.InternalNode? && Fits(n, order)
    requires var child := n.children[|n.children| - 1];
      !NoKeys(child)
      && var (e, c) := PromoteBack(child);
      SearchTree(c) && Fits(c, order) && Holds(child, e.key, e.value)
      && (forall k :: Has(child, k) ==> k <= e.key)
      && (forall k, v :: Holds(c, k, v) <==> k != e.key && Holds(child, k, v))
    ensures var (e, c) := PromoteBack(n);
      SearchTree(c) && Fits(c, order) && Holds(n, e.key, e.value)
      && (forall k :: Has(n, k) ==> k <= e.key)
      && (forall k, v :: Holds(c, k, v) <==> k != e.key && Holds(n, k, v))
  {
    var keys, children := n.keys, n.children;
    var last := |children| - 1;
    var child := children[last];
    var (e, c) := PromoteBack(child);
    HoldsHas(child, e.key, e.value);
    assert Separated(keys, last, child);
    assert last > 0 ==> keys[last - 1] < e.key;
    assert e.key !in keys by {
      forall a | 0 <= a < |keys|
        ensures keys[a] != e.key
      {
        assert keys[a] <= keys[last - 1];
      }
    }
    UpperBoundIs(keys, e.key, last);
    forall k | Has(c, k)
      ensures k == e.key || Has(child, k)
    {
      HasSomeValue(c, k);
      var v :| Holds(c, k, v);
      HoldsHas(child, k, v);
    }
    ReplaceChild(n, e.key, c);
    var m := InternalNode(n.keys, n.values, children[last := c]);
    assert PromoteBack(n) == (e, m);
    forall j | 0 <= j < |m.children|
      ensures Fits(m.children[j], order)
    {
      assert j != last ==> m.children[j] == children[j];
    }
    assert Holds(n, e.key, e.value) by {
      assert child in children;
    }
    BelowLastChildBound(n, child, e.key);
  }

  /** A bound on the keys of the rightmost child above the last separator bounds every key of the node. */
  lemma BelowLastChildBound<V>(n: Node<V>, child: Node<V>, top: int)
    requires SearchTree(n) && n.InternalNode? && child == n.children[|n.children| - 1]
    requires |n.keys| > 0 ==> n.keys[|n.keys| - 1] < top
    requires forall k :: Has(child, k) ==> k <= top
    ensures forall k :: Has(n, k) ==> k <= top
  {
    var keys, children := n.keys, n.children;
    var last := |children| - 1;
    forall k | Has(n, k)
      ensures k <= top
    {
      if k in keys {
        var a :| 0 <= a < |keys| && keys[a] == k;
      } else {
        var j :| 0 <= j < |children| && Has(children[j], k);
        assert Separated(keys, j, children[j]);
        if j < last {
          assert keys[j] <= keys[last - 1];
        }
      }
    }
  }

  /** `Leaf::remove` of `key`'s slot, or nothing when the leaf lacks `key`. */
  lemma LeafRemoval<V(!new)>(keys: seq<int>, values: seq<V>, key: int, order: nat)
    requires SearchTree(LeafNode(keys, values)) && Fits(LeafNode(keys, values), order)
    ensures var m := EraseInNode(LeafNode(keys, values), key);
      SearchTree(m) && Fits(m, order) && Erased(m, LeafNode(keys, values), key)
  {
    var n := LeafNode(keys, values);
    var m := EraseInNode(n, key);
    var i := LeafIndexOf(keys, key);
    LeafIndexOfMisses(keys, key);
    if i == SizeMax {
      LeafMissing(keys, values, key);
    } else {
      LeafRemovedAt(keys, values, key, i, order);
    }
    ErasedHas(m, n, key);
  }

  /** A leaf without `key` holds, apart from `key`, all it held. */
  lemma LeafMissing<V(!new)>(keys: seq<int>, values: seq<V>, key: int)
    requires SearchTree(LeafNode(keys, values)) && key !in keys
    ensures var n := LeafNode(keys, values);
      forall k, v :: Holds(n, k, v) <==> k != key && Holds(n, k, v)
  {
    var n := LeafNode(keys, values);
    forall k, v
      ensures Holds(n, k, v) <==> k != key && Holds(n, k, v)
    {
      assert SeparatorHolds(keys, values, k, v) ==> k in keys;
    }
  }

  /** The slot of `key` removed from a leaf: the leaf holds all it held but `key`. */
  lemma LeafRemovedAt<V(!new)>(keys: seq<int>, values: seq<V>, key: int, i: nat, order: nat)
    requires SearchTree(LeafNode(keys, values)) && Fits(LeafNode(keys, values), order)
    requires i < |keys| && keys[i] == key
    ensures var n, m := LeafNode(keys, values), LeafNode(RemoveAt(keys, i), RemoveAt(values, i));
      SearchTree(m) && Fits(m, order) && forall k, v :: Holds(m, k, v) <==> k != key && Holds(n, k, v)
  {
    var n, m := LeafNode(keys, values), LeafNode(RemoveAt(keys, i), RemoveAt(values, i));
    RemoveKeepsSorted(keys, i);
    assert keys == keys[..i] + [keys[i]] + keys[i + 1..];
    BTreeLeaves.SortedAround(keys, keys[..i], keys[i], keys[i + 1..]);
    assert RemoveAt(keys, i) == keys[..i] + keys[i + 1..];
    assert RemoveAt(values, i) == values[..i] + values[i + 1..];
    forall k, v
      ensures Holds(m, k, v) <==> k != key && Holds(n, k, v)
    {
      SeparatorHoldsAt(keys, values, i, k, v);
      SeparatorHoldsConcat(keys[..i], values[..i], keys[i + 1..], values[i + 1..], k, v);
      assert key !in keys[..i] && key !in keys[i + 1..];
    }
  }

  /** Separator `a` replaced by `x`, which lies strictly between its neighbours: still sorted. */
  lemma ReplaceKeepsSorted(keys: seq<int>, a: nat, x: int)
    requires StrictlySorted(keys) && a < |keys|
    requires (a > 0 ==> keys[a - 1] < x) && x < keys[a]
    ensures StrictlySorted(keys[a := x])
  {
    var t := keys[a := x];
    forall i, j | 0 <= i < j < |t|
      ensures t[i] < t[j]
    {
      if i == a {
        assert keys[a] <= keys[j];
      } else if j == a {
        assert keys[i] <= keys[a - 1];
      }
    }
  }

  /** The node `eraseFromInnerInternalNode` leaves: the promoted entry in separator `a`'s place, still a search tree. */
  lemma PromotedIsSearchTree<V(!new)>(n: Node<V>, a: nat, order: nat)
    requires SearchTree(n) && n.InternalNode? && Fits(n, order) && a < |n.keys| && !NoKeys(n.children[a])
    requires var (e, c) := PromoteBack(n.children[a]);
      SearchTree(c) && Fits(c, order) && Holds(n.children[a], e.key, e.value)
      && (forall k :: Has(n.children[a], k) ==> k <= e.key)
      && (forall k, v :: Holds(c, k, v) <==> k != e.key && Holds(n.children[a], k, v))
    ensures var (e, c) := PromoteBack(n.children[a]);
      var m := InternalNode(n.keys[a := e.key], n.values[a := e.value], n.children[a := c]);
      SearchTree(m) && Fits(m, order)
  {
    var K, C := n.keys, n.children;
    var (e, c) := PromoteBack(C[a]);
    var m := InternalNode(K[a := e.key], n.values[a := e.value], C[a := c]);
    HoldsHas(C[a], e.key, e.value);
    assert Separated(K, a, C[a]);
    ReplaceKeepsSorted(K, a, e.key);
    forall k | Has(c, k)
      ensures Has(C[a], k) && k != e.key
    {
      HasSomeValue(c, k);
      var v :| Holds(c, k, v);
      HoldsHas(C[a], k, v);
    }
    forall j | 0 <= j < |m.children|
      ensures SearchTree(m.children[j]) && Separated(m.keys, j, m.children[j]) && Fits(m.children[j], order)
    {
      assert Separated(K, j, C[j]);
      if j == a + 1 {
        assert e.key < K[a];
      }
    }
  }

  /** One entry of the node after promotion: held exactly when `n` held it under a key other than `key`. */
  lemma PromotedHolds<V(!new)>(n: Node<V>, a: nat, k: int, v: V)
    requires SearchTree(n) && n.InternalNode? && a < |n.keys| && !NoKeys(n.children[a])
    requires var (e, c) := PromoteBack(n.children[a]);
      Holds(n.children[a], e.key, e.value)
      && (forall k, v :: Holds(c, k, v) <==> k != e.key && Holds(n.children[a], k, v))
    ensures var (e, c) := PromoteBack(n.children[a]);
      var m := InternalNode(n.keys[a := e.key], n.values[a := e.value], n.children[a := c]);
      Holds(m, k, v) <==> k != n.keys[a] && Holds(n, k, v)
  {
    var K, V, C := n.keys, n.values, n.children;
    var (e, c) := PromoteBack(C[a]);
    var m := InternalNode(K[a := e.key], V[a := e.value], C[a := c]);
    SeparatorHoldsAt(K, V, a, k, v);
    SeparatorHoldsAt(m.keys, m.values, a, k, v);
    assert m.keys[..a] == K[..a] && m.keys[a + 1..] == K[a + 1..];
    assert m.values[..a] == V[..a] && m.values[a + 1..] == V[a + 1..];
    ChildHoldsAt(C, a, k, v);
    ChildHoldsAt(m.children, a, k, v);
    assert m.children[..a] == C[..a] && m.children[a + 1..] == C[a + 1..];
    HoldsHas(C[a], e.key, e.value);
    assert Separated(K, a, C[a]);
    if k == e.key {
      if Holds(C[a], k, v) {
        HoldsIsUnique(C[a], k, v, e.value);
      }
    }
    if k == K[a] {
      SeparatorHoldsOnly(n, a, v);
      assert k != e.key;
      assert K[..a] + [K[a]] + K[a + 1..] == K;
      BTreeLeaves.SortedAround(K, K[..a], K[a], K[a + 1..]);
      assert k !in K[..a] && k !in K[a + 1..];
      if Holds(m, k, v) {
        assert !SeparatorHolds(m.keys, m.values, k, v);
        var j :| 0 <= j < |m.children| && Holds(m.children[j], k, v);
        if j == a {
          HoldsHas(C[a], k, v);
        } else {
          HoldsHas(C[j], k, v);
        }
        ChildKeyNotSeparator(n, j, k);
      }
    }
  }

  /** Separator `a` whose left subtree holds nothing: separator and subtree both go. */
  lemma DroppedSeparator<V(!new)>(n: Node<V>, a: nat, order: nat)
    requires SearchTree(n) && n.InternalNode? && Fits(n, order) && a < |n.keys| && NoKeys(n.children[a])
    ensures var m := InternalNode(RemoveAt(n.keys, a), RemoveAt(n.values, a), RemoveAt(n.children, a));
      SearchTree(m) && Fits(m, order) && Erased(m, n, n.keys[a])
  {
    var m := InternalNode(RemoveAt(n.keys, a), RemoveAt(n.values, a), RemoveAt(n.children, a));
    DroppedIsSearchTree(n, a, order);
    DroppedHolds(n, a);
    ErasedHas(m, n, n.keys[a]);
  }

  /** Separator `a` and its left subtree removed: still a search tree that fits. */
  lemma DroppedIsSearchTree<V>(n: Node<V>, a: nat, order: nat)
    requires SearchTree(n) && n.InternalNode? && Fits(n, order) && a < |n.keys|
    ensures var m := InternalNode(RemoveAt(n.keys, a), RemoveAt(n.values, a), RemoveAt(n.children, a));
      SearchTree(m) && Fits(m, order)
  {
    var K, V, C := n.keys, n.values, n.children;
    var m := InternalNode(RemoveAt(K, a), RemoveAt(V, a), RemoveAt(C, a));
    RemoveKeepsSorted(K, a);
    forall j | 0 <= j < |m.children|
      ensures SearchTree(m.children[j]) && Separated(m.keys, j, m.children[j]) && Fits(m.children[j], order)
    {
      if j < a {
        assert m.children[j] == C[j];
        assert Separated(K, j, C[j]);
      } else {
        assert m.children[j] == C[j + 1];
        assert Separated(K, j + 1, C[j + 1]);
        if j == a && a > 0 {
          assert K[a - 1] < K[a];
        }
      }
    }
  }

  /** Separator `a` and its empty left subtree removed: everything but separator `a`'s entry is still held. */
  lemma DroppedHolds<V(!new)>(n: Node<V>, a: nat)
    requires SearchTree(n) && n.InternalNode? && a < |n.keys| && NoKeys(n.children[a])
    ensures var m := InternalNode(RemoveAt(n.keys, a), RemoveAt(n.values, a), RemoveAt(n.children, a));
      forall k, v :: Holds(m, k, v) <==> k != n.keys[a] && Holds(n, k, v)
  {
    var K, V, C := n.keys, n.values, n.children;
    var m := InternalNode(RemoveAt(K, a), RemoveAt(V, a), RemoveAt(C, a));
    assert RemoveAt(K, a) == K[..a] + K[a + 1..] && RemoveAt(V, a) == V[..a] + V[a + 1..];
    assert RemoveAt(C, a) == C[..a] + C[a + 1..];
    assert K == K[..a] + [K[a]] + K[a + 1..];
    BTreeLeaves.SortedAround(K, K[..a], K[a], K[a + 1..]);
    forall k, v
      ensures Holds(m, k, v) <==> k != K[a] && Holds(n, k, v)
    {
      SeparatorHoldsAt(K, V, a, k, v);
      SeparatorHoldsConcat(K[..a], V[..a], K[a + 1..], V[a + 1..], k, v);
      ChildHoldsAt(C, a, k, v);
      ChildHoldsConcat(C[..a], C[a + 1..], k, v);
      if Holds(C[a], k, v) {
        HoldsHas(C[a], k, v);
        NoKeysHasNothing(C[a], k);
      }
      if k == K[a] {
        assert k !in K[..a] && k !in K[a + 1..];
        if ChildHolds(C, k, v) {
          var j :| 0 <= j < |C| && Holds(C[j], k, v);
          HoldsHas(C[j], k, v);
          ChildKeyNotSeparator(n, j, k);
        }
      }
    }
  }

  /** `key` found as separator `a`: promote from the left subtree, or drop it with that subtree when it holds nothing. */
  lemma SeparatorRemoval<V(!new)>(n: Node<V>, key: int, order: nat)
    requires SearchTree(n) && n.InternalNode? && Fits(n, order)
    requires var i := UpperBound(n.keys, key); i != 0 && n.keys[i - 1] == key
    ensures var m := EraseInNode(n, key);
      SearchTree(m) && Fits(m, order) && Erased(m, n, key)
  {
    var a := UpperBound(n.keys, key) - 1;
    var m := EraseInNode(n, key);
    if !NoKeys(n.children[a]) {
      assert n.children[a] in n.children;
      PromoteBackTakesMax(n.children[a], order);
      PromotedIsSearchTree(n, a, order);
      forall k, v
        ensures Holds(m, k, v) <==> k != key && Holds(n, k, v)
      {
        PromotedHolds(n, a, k, v);
      }
      ErasedHas(m, n, key);
    } else {
      DroppedSeparator(n, a, order);
    }
  }

  /** `key` not among the separators: the child where it belongs loses it. */
  lemma ChildRemoval<V(!new)>(n: Node<V>, key: int, order: nat)
    requires SearchTree(n) && n.InternalNode? && Fits(n, order) && key !in n.keys
    requires var c := n.children[UpperBound(n.keys, key)];
      var m := EraseInNode(c, key);
      SearchTree(m) && Fits(m, order) && Erased(m, c, key)
    ensures var m := EraseInNode(n, key);
      SearchTree(m) && Fits(m, order) && Erased(m, n, key)
  {
    var i := UpperBound(n.keys, key);
    var c := EraseInNode(n.children[i], key);
    var m := EraseInNode(n, key);
    assert m == InternalNode(n.keys, n.values, n.children[i := c]);
    ReplaceChild(n, key, c);
    forall j | 0 <= j < |m.children|
      ensures Fits(m.children[j], order)
    {
      assert j != i ==> m.children[j] == n.children[j];
    }
    forall k, v
      ensures Holds(m, k, v) <==> k != key && Holds(n, k, v)
    {
      if k == key {
        assert !Holds(c, k, v);
      }
    }
    ErasedHas(m, n, key);
  }

  /**
   * `erase(find(key))` on a search tree within the order leaves a search
   * tree within the order that holds every entry it held except `key`'s.
   */
  lemma {:induction false} EraseInNodeIsRemoval<V(!new)>(n: Node<V>, key: int, order: nat)
    requires SearchTree(n) && Fits(n, order)
    ensures var m := EraseInNode(n, key);
      SearchTree(m) && Fits(m, order) && Erased(m, n, key)
    decreases n
  {
    match n
    case LeafNode(keys, values) =>
      LeafRemoval(keys, values, key, order);
    case InternalNode(keys, values, children) =>
      var i := UpperBound(keys, key);
      if i != 0 && keys[i - 1] == key {
        SeparatorRemoval(n, key, order);
      } else {
        KeyBelowSeparators(n, key);
        assert children[i] in children;
        EraseInNodeIsRemoval(children[i], key, order);
        ChildRemoval(n, key, order);
      }
  }

  /** Collapsing the root keeps a search tree within the order and every entry. */
  lemma CollapseRootKeeps<V>(n: Node<V>, order: nat)
    requires SearchTree(n) && Fits(n, order)
    ensures CollapseRoot(n).Some? ==> SearchTree(CollapseRoot(n).value) && Fits(CollapseRoot(n).value, order)
    ensures forall k, v :: (CollapseRoot(n).Some? && Holds(CollapseRoot(n).value, k, v)) <==> Holds(n, k, v)
    ensures forall k :: (CollapseRoot(n).Some? && Has(CollapseRoot(n).value, k)) <==> Has(n, k)
  {
    if |n.keys| == 0 && n.InternalNode? {
      var c := n.children[0];
      assert n.children == [c];
      forall k, v
        ensures Holds(c, k, v) <==> Holds(n, k, v)
      {
        ChildHoldsOne(c, k, v);
      }
      forall k
        ensures Has(c, k) <==> Has(n, k)
      {
        assert Has(c, k) ==> Has(n.children[0], k);
      }
    }
  }
}
