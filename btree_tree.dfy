/**
 * The search side of `BTreeMap` in std/container/btree.hpp: a tree of leaf
 * and internal nodes, where an internal node with keys `k[0] < ... < k[n-1]`
 * has `n + 1` children and child `i` holds only keys strictly between
 * `k[i-1]` and `k[i]`. Nodes are values here; the tree the kernel keeps
 * behind parent pointers is the same shape.
 */
module BTreeTrees {
  import opened Status
  import opened FlatMaps
  import BTreeLeaves

  datatype Node<V> =
    | LeafNode(keys: seq<int>, values: seq<V>)
    | InternalNode(keys: seq<int>, values: seq<V>, children: seq<Node<V>>)

  /** A node holds fewer than `SizeMax` keys (at most its order), a value per key, and every internal node one child more than it has keys. */
  ghost predicate WellShaped<V>(n: Node<V>)
  {
    |n.keys| == |n.values| && |n.keys| < SizeMax
    && (n.InternalNode? ==>
          |n.children| == |n.keys| + 1
          && forall i :: 0 <= i < |n.children| ==> WellShaped(n.children[i]))
  }

  /** `key` is stored somewhere in the tree. */
  ghost predicate Has<V>(n: Node<V>, key: int)
  {
    key in n.keys
    || (n.InternalNode? && exists i :: 0 <= i < |n.children| && Has(n.children[i], key))
  }

  /** `key` is stored somewhere in the tree beside `value`. */
  ghost predicate Holds<V>(n: Node<V>, key: int, value: V)
  {
    SeparatorHolds(n.keys, n.values, key, value)
    || (n.InternalNode? && exists i :: 0 <= i < |n.children| && Holds(n.children[i], key, value))
  }

  /** Some separator (or leaf slot) among `keys` is `key`, beside `value`. */
  ghost predicate SeparatorHolds<V>(keys: seq<int>, values: seq<V>, key: int, value: V)
  {
    exists a :: 0 <= a < |keys| && a < |values| && keys[a] == key && values[a] == value
  }

  /** Some node of `children` stores `key`. */
  ghost predicate ChildHas<V>(children: seq<Node<V>>, key: int)
  {
    exists j :: 0 <= j < |children| && Has(children[j], key)
  }

  /** Some node of `children` stores `key` beside `value`. */
  ghost predicate ChildHolds<V>(children: seq<Node<V>>, key: int, value: V)
  {
    exists j :: 0 <= j < |children| && Holds(children[j], key, value)
  }

  /** Child `i` of an internal node lies strictly between the separators beside it. */
  ghost predicate Separated<V>(keys: seq<int>, i: nat, child: Node<V>)
    requires i <= |keys|
  {
    forall k :: Has(child, k) ==> (i > 0 ==> keys[i - 1] < k) && (i < |keys| ==> k < keys[i])
  }

  /** What `validate` checks: sorted nodes, every child between its separators. */
  ghost predicate SearchTree<V>(n: Node<V>)
  {
    WellShaped(n) && StrictlySorted(n.keys)
    && (n.InternalNode? ==>
          forall i :: 0 <= i < |n.children| ==> SearchTree(n.children[i]) && Separated(n.keys, i, n.children[i]))
  }

  /** Every leaf holds at least one key, as `minKey` asserts. */
  ghost predicate NoEmptyLeaf<V>(n: Node<V>)
  {
    (n.LeafNode? ==> |n.keys| > 0)
    && (n.InternalNode? ==> forall i :: 0 <= i < |n.children| ==> NoEmptyLeaf(n.children[i]))
  }

  /** `Leaf::indexOf` through `lowerBound`: the slot of `key`, or `SizeMax` when it is absent. */
  function LeafIndexOf(keys: seq<int>, key: int): (i: nat)
    ensures i == SizeMax || (i < |keys| && keys[i] == key)
  {
    var index := LowerBound(keys, key);
    if index != |keys| && keys[index] == key then index else SizeMax
  }

  const SizeMax: nat := 0xFFFF_FFFF_FFFF_FFFF

  /** In a sorted node, `indexOf` misses exactly the absent keys. */
  lemma LeafIndexOfMisses(keys: seq<int>, key: int)
    requires StrictlySorted(keys) && |keys| < SizeMax
    ensures LeafIndexOf(keys, key) == SizeMax <==> key !in keys
  {
    LowerBoundOfSorted(keys, key);
  }

  /** `nodeContains`: descend through `findChildIndex` (`upperBound`) until a separator or a leaf has `key`. */
  function NodeContains<V>(n: Node<V>, key: int): bool
    requires WellShaped(n)
  {
    match n
    case LeafNode(keys, _) => LeafIndexOf(keys, key) != SizeMax
    case InternalNode(keys, _, children) =>
      var index := UpperBound(keys, key);
      if index != 0 && keys[index - 1] == key then true
      else NodeContains(children[index], key)
  }

  /**
   * In a search tree the child `upperBound` picks is the only place a key
   * missing from the separators can be.
   */
  lemma ChildOfKey<V>(n: Node<V>, key: int, j: nat)
    requires SearchTree(n) && n.InternalNode? && j < |n.children|
    requires key !in n.keys && Has(n.children[j], key)
    ensures j == UpperBound(n.keys, key)
  {
    var index := UpperBound(n.keys, key);
    assert Separated(n.keys, j, n.children[j]);
    assert j < |n.keys| ==> key < n.keys[j];
    assert j > 0 ==> n.keys[j - 1] < key;
    assert index < |n.keys| ==> key < n.keys[index];
  }

  /** The descent of `nodeContains` answers membership in a search tree. */
  lemma {:induction false} NodeContainsIsMembership<V>(n: Node<V>, key: int)
    requires SearchTree(n)
    ensures NodeContains(n, key) <==> Has(n, key)
    decreases n
  {
    match n
    case LeafNode(keys, _) =>
      LeafIndexOfMisses(keys, key);
    case InternalNode(keys, _, children) =>
      var index := UpperBound(keys, key);
      if index != 0 && keys[index - 1] == key {
      } else {
        assert key !in keys by {
          forall i | 0 <= i < |keys|
            ensures keys[i] != key
          {
            if i + 1 < index {
              assert keys[i] < keys[index - 1];
            }
          }
        }
        var child := children[index];
        assert child in children;
        NodeContainsIsMembership(child, key);
        if Has(n, key) {
          var j :| 0 <= j < |children| && Has(children[j], key);
          ChildOfKey(n, key, j);
        }
      }
  }

  /** Past the separators, a key is in a node exactly when it is in the child `upperBound` picks. */
  lemma DescendKeepsKey<V>(n: Node<V>, key: int)
    requires SearchTree(n) && n.InternalNode?
    requires var index := UpperBound(n.keys, key); !(index != 0 && n.keys[index - 1] == key)
    ensures var child := n.children[UpperBound(n.keys, key)];
      SearchTree(child) && (Has(n, key) <==> Has(child, key))
      && forall v :: Holds(child, key, v) ==> Holds(n, key, v)
  {
    var index := UpperBound(n.keys, key);
    assert key !in n.keys by {
      forall i | 0 <= i < |n.keys|
        ensures n.keys[i] != key
      {
        if i + 1 < index {
          assert n.keys[i] < n.keys[index - 1];
        }
      }
    }
    if Has(n, key) {
      var j :| 0 <= j < |n.children| && Has(n.children[j], key);
      ChildOfKey(n, key, j);
    }
  }

  /** A key held beside a value is a stored key. */
  lemma {:induction false} HoldsHas<V>(n: Node<V>, key: int, value: V)
    requires Holds(n, key, value)
    ensures Has(n, key)
    decreases n
  {
    if SeparatorHolds(n.keys, n.values, key, value) {
      var i :| 0 <= i < |n.keys| && i < |n.values| && n.keys[i] == key && n.values[i] == value;
      assert n.keys[i] == key;
    } else {
      var j :| 0 <= j < |n.children| && Holds(n.children[j], key, value);
      HoldsHas(n.children[j], key, value);
    }
  }

  /** A key below a child is not one of the parent's separators. */
  lemma ChildKeyNotSeparator<V>(n: Node<V>, j: nat, key: int)
    requires SearchTree(n) && n.InternalNode? && j < |n.children| && Has(n.children[j], key)
    ensures key !in n.keys
  {
    assert Separated(n.keys, j, n.children[j]);
    forall i | 0 <= i < |n.keys|
      ensures n.keys[i] != key
    {
      if i < j {
        assert n.keys[i] <= n.keys[j - 1];
      } else {
        assert n.keys[j] <= n.keys[i];
      }
    }
  }

  /** A search tree holds at most one value per key. */
  lemma {:induction false} HoldsIsUnique<V>(n: Node<V>, key: int, v: V, w: V)
    requires SearchTree(n) && Holds(n, key, v) && Holds(n, key, w)
    ensures v == w
    decreases n
  {
    assert forall a, b :: 0 <= a < |n.keys| && 0 <= b < |n.keys| && n.keys[a] == n.keys[b] ==> a == b by {
      forall a, b | 0 <= a < |n.keys| && 0 <= b < |n.keys| && n.keys[a] == n.keys[b]
        ensures a == b
      {
        assert !(a < b) && !(b < a);
      }
    }
    if n.InternalNode? {
      forall j, x | 0 <= j < |n.children| && Holds(n.children[j], key, x)
        ensures key !in n.keys && j == UpperBound(n.keys, key)
      {
        HoldsHas(n.children[j], key, x);
        ChildKeyNotSeparator(n, j, key);
        ChildOfKey(n, key, j);
      }
      forall j, x, y | 0 <= j < |n.children| && Holds(n.children[j], key, x) && Holds(n.children[j], key, y)
        ensures x == y
      {
        HoldsIsUnique(n.children[j], key, x, y);
      }
    }
  }

  /** `readMinKey`: the first key of the leftmost leaf. */
  function ReadMinKey<V>(n: Node<V>): int
    requires WellShaped(n) && NoEmptyLeaf(n)
  {
    match n
    case LeafNode(keys, _) => keys[0]
    case InternalNode(_, _, children) => ReadMinKey(children[0])
  }

  /** In a search tree `readMinKey` is a stored key and no stored key is below it. */
  lemma {:induction false} ReadMinKeyIsLeast<V>(n: Node<V>)
    requires SearchTree(n) && NoEmptyLeaf(n)
    ensures Has(n, ReadMinKey(n))
    ensures forall k :: Has(n, k) ==> ReadMinKey(n) <= k
    decreases n
  {
    match n
    case LeafNode(keys, _) =>
    case InternalNode(keys, _, children) =>
      var first := children[0];
      assert first in children;
      ReadMinKeyIsLeast(first);
      var m := ReadMinKey(first);
      assert Has(n, m);
      forall k | Has(n, k)
        ensures m <= k
      {
        assert Has(first, m);
        assert Separated(keys, 0, first);
        if k in keys {
          var i :| 0 <= i < |keys| && keys[i] == k;
          assert keys[0] <= keys[i];
        } else {
          var j :| 0 <= j < |children| && Has(children[j], k);
          assert Separated(keys, j, children[j]);
          if j > 0 {
            assert keys[0] <= keys[j - 1];
          }
        }
      }
  }

  /** `findInNode`: walk down from the root until a separator or a leaf holds `key`. */
  method FindInNode<V>(root: Node<V>, key: int) returns (r: Option<V>)
    requires SearchTree(root)
    ensures r.Some? <==> Has(root, key)
    ensures r.Some? ==> Holds(root, key, r.value)
  {
    var current := root;
    while true
      invariant SearchTree(current)
      invariant Has(current, key) <==> Has(root, key)
      invariant forall v :: Holds(current, key, v) ==> Holds(root, key, v)
      decreases current
    {
      if current.LeafNode? {
        var index := LeafIndexOf(current.keys, key);
        LeafIndexOfMisses(current.keys, key);
        if index != SizeMax {
          return Some(current.values[index]);
        }
        return None;
      }
      var index := UpperBound(current.keys, key);
      if index != 0 && current.keys[index - 1] == key {
        return Some(current.values[index - 1]);
      }
      DescendKeepsKey(current, key);
      current := current.children[index];
    }
  }

  /** A well-shaped tree stores a key exactly when it holds some value beside it. */
  lemma {:induction false} HasSomeValue<V>(n: Node<V>, key: int)
    requires WellShaped(n)
    ensures Has(n, key) <==> exists v :: Holds(n, key, v)
    decreases n
  {
    if Has(n, key) {
      if key in n.keys {
        var a :| 0 <= a < |n.keys| && n.keys[a] == key;
        assert SeparatorHolds(n.keys, n.values, key, n.values[a]);
        assert Holds(n, key, n.values[a]);
      } else {
        var j :| 0 <= j < |n.children| && Has(n.children[j], key);
        HasSomeValue(n.children[j], key);
        var v :| Holds(n.children[j], key, v);
        assert Holds(n, key, v);
      }
    }
    if exists v :: Holds(n, key, v) {
      var v :| Holds(n, key, v);
      HoldsHas(n, key, v);
    }
  }

  /** The separators of two runs side by side. */
  lemma SeparatorHoldsConcat<V>(ka: seq<int>, va: seq<V>, kb: seq<int>, vb: seq<V>, key: int, value: V)
    requires |ka| == |va| && |kb| == |vb|
    ensures SeparatorHolds(ka + kb, va + vb, key, value)
        <==> SeparatorHolds(ka, va, key, value) || SeparatorHolds(kb, vb, key, value)
  {
    if SeparatorHolds(ka + kb, va + vb, key, value) {
      var a :| 0 <= a < |ka + kb| && a < |va + vb| && (ka + kb)[a] == key && (va + vb)[a] == value;
      if a >= |ka| {
        assert kb[a - |ka|] == key && vb[a - |ka|] == value;
      }
    }
    if SeparatorHolds(ka, va, key, value) {
      var a :| 0 <= a < |ka| && a < |va| && ka[a] == key && va[a] == value;
      assert (ka + kb)[a] == key && (va + vb)[a] == value;
    }
    if SeparatorHolds(kb, vb, key, value) {
      var a :| 0 <= a < |kb| && a < |vb| && kb[a] == key && vb[a] == value;
      assert (ka + kb)[|ka| + a] == key && (va + vb)[|ka| + a] == value;
    }
  }

  /** The separators around position `p`: those before it, the one at it, and those after it. */
  lemma SeparatorHoldsAt<V>(ks: seq<int>, vs: seq<V>, p: nat, key: int, value: V)
    requires |ks| == |vs| && p < |ks|
    ensures SeparatorHolds(ks, vs, key, value)
        <==> SeparatorHolds(ks[..p], vs[..p], key, value)
             || (key == ks[p] && value == vs[p])
             || SeparatorHolds(ks[p + 1..], vs[p + 1..], key, value)
  {
    assert ks == ks[..p] + [ks[p]] + ks[p + 1..];
    assert vs == vs[..p] + [vs[p]] + vs[p + 1..];
    SeparatorHoldsConcat(ks[..p] + [ks[p]], vs[..p] + [vs[p]], ks[p + 1..], vs[p + 1..], key, value);
    SeparatorHoldsConcat(ks[..p], vs[..p], [ks[p]], [vs[p]], key, value);
    if SeparatorHolds([ks[p]], [vs[p]], key, value) {
      var a :| 0 <= a < 1 && a < 1 && [ks[p]][a] == key && [vs[p]][a] == value;
    }
    if key == ks[p] && value == vs[p] {
      assert [ks[p]][0] == key && [vs[p]][0] == value;
    }
  }

  /** The children of two runs side by side. */
  lemma ChildHoldsConcat<V>(a: seq<Node<V>>, b: seq<Node<V>>, key: int, value: V)
    ensures ChildHolds(a + b, key, value) <==> ChildHolds(a, key, value) || ChildHolds(b, key, value)
  {
    if ChildHolds(a + b, key, value) {
      var j :| 0 <= j < |a + b| && Holds((a + b)[j], key, value);
      if j >= |a| {
        assert (a + b)[j] == b[j - |a|];
      }
    }
    if ChildHolds(a, key, value) {
      var j :| 0 <= j < |a| && Holds(a[j], key, value);
      assert (a + b)[j] == a[j];
    }
    if ChildHolds(b, key, value) {
      var j :| 0 <= j < |b| && Holds(b[j], key, value);
      assert (a + b)[|a| + j] == b[j];
    }
  }

  /** One child on its own. */
  lemma ChildHoldsOne<V>(c: Node<V>, key: int, value: V)
    ensures ChildHolds([c], key, value) <==> Holds(c, key, value)
  {
    if Holds(c, key, value) {
      assert [c][0] == c;
    }
  }

  /** The children around position `i`: those before it, the one at it, and those after it. */
  lemma ChildHoldsAt<V>(cs: seq<Node<V>>, i: nat, key: int, value: V)
    requires i < |cs|
    ensures ChildHolds(cs, key, value)
        <==> ChildHolds(cs[..i], key, value) || Holds(cs[i], key, value) || ChildHolds(cs[i + 1..], key, value)
  {
    assert cs == cs[..i] + [cs[i]] + cs[i + 1..];
    ChildHoldsConcat(cs[..i] + [cs[i]], cs[i + 1..], key, value);
    ChildHoldsConcat(cs[..i], [cs[i]], key, value);
    ChildHoldsOne(cs[i], key, value);
  }

  /** In a search tree a key missing from the separators is held by no child but the one `upperBound` picks. */
  lemma OnlyChildHolds<V>(n: Node<V>, key: int, value: V)
    requires SearchTree(n) && n.InternalNode? && key !in n.keys
    ensures var i := UpperBound(n.keys, key);
      !SeparatorHolds(n.keys, n.values, key, value)
      && !ChildHolds(n.children[..i], key, value) && !ChildHolds(n.children[i + 1..], key, value)
  {
    var i := UpperBound(n.keys, key);
    forall j: nat | j < |n.children| && j != i
      ensures !Holds(n.children[j], key, value)
    {
      if Holds(n.children[j], key, value) {
        HoldsHas(n.children[j], key, value);
        ChildOfKey(n, key, j);
      }
    }
    var before, after := n.children[..i], n.children[i + 1..];
    assert forall j :: 0 <= j < |before| ==> before[j] == n.children[j];
    assert forall j :: 0 <= j < |after| ==> after[j] == n.children[i + 1 + j];
  }

  /** A separator of a search tree is held beside its own value and nothing else. */
  lemma SeparatorHoldsOnly<V>(n: Node<V>, a: nat, value: V)
    requires SearchTree(n) && a < |n.keys|
    ensures Holds(n, n.keys[a], value) <==> value == n.values[a]
  {
    var key := n.keys[a];
    assert SeparatorHolds(n.keys, n.values, key, n.values[a]);
    if Holds(n, key, value) {
      if SeparatorHolds(n.keys, n.values, key, value) {
        var b :| 0 <= b < |n.keys| && b < |n.values| && n.keys[b] == key && n.values[b] == value;
        assert !(a < b) && !(b < a);
      } else {
        var j :| 0 <= j < |n.children| && Holds(n.children[j], key, value);
        HoldsHas(n.children[j], key, value);
        ChildKeyNotSeparator(n, j, key);
      }
    }
  }

  /**
   * Cutting a search tree's node at separator `p`: the separators and
   * children before it make a search tree below that key, those after it
   * one above it, and together with the separator they hold what the node held.
   */
  lemma CutInternal<V>(n: Node<V>, p: nat)
    requires SearchTree(n) && n.InternalNode? && p < |n.keys|
    ensures var left := InternalNode(n.keys[..p], n.values[..p], n.children[..p + 1]);
      var right := InternalNode(n.keys[p + 1..], n.values[p + 1..], n.children[p + 1..]);
      SearchTree(left) && SearchTree(right)
      && (forall k :: Has(left, k) ==> k < n.keys[p])
      && (forall k :: Has(right, k) ==> n.keys[p] < k)
      && forall k, v :: Holds(n, k, v)
           <==> Holds(left, k, v) || (k == n.keys[p] && v == n.values[p]) || Holds(right, k, v)
  {
    var ks, vs, cs := n.keys, n.values, n.children;
    CutLeftHalf(n, p);
    CutRightHalf(n, p);
    forall k, v
      ensures Holds(n, k, v)
          <==> Holds(InternalNode(ks[..p], vs[..p], cs[..p + 1]), k, v) || (k == ks[p] && v == vs[p])
               || Holds(InternalNode(ks[p + 1..], vs[p + 1..], cs[p + 1..]), k, v)
    {
      SeparatorHoldsAt(ks, vs, p, k, v);
      assert cs == cs[..p + 1] + cs[p + 1..];
      ChildHoldsConcat(cs[..p + 1], cs[p + 1..], k, v);
    }
  }

  /** The separators below `p` with their children form a search tree below separator `p`. */
  lemma CutLeftHalf<V>(n: Node<V>, p: nat)
    requires SearchTree(n) && n.InternalNode? && p < |n.keys|
    ensures var left := InternalNode(n.keys[..p], n.values[..p], n.children[..p + 1]);
      SearchTree(left) && forall k :: Has(left, k) ==> k < n.keys[p]
  {
    var ks, vs, cs := n.keys, n.values, n.children;
    var left := InternalNode(ks[..p], vs[..p], cs[..p + 1]);
    forall j | 0 <= j < |left.children|
      ensures SearchTree(left.children[j]) && Separated(left.keys, j, left.children[j])
    {
      assert left.children[j] == cs[j];
      assert Separated(ks, j, cs[j]);
    }
    forall k | Has(left, k)
      ensures k < ks[p]
    {
      if k !in left.keys {
        var j :| 0 <= j < |left.children| && Has(left.children[j], k);
        assert left.children[j] == cs[j];
        assert Separated(ks, j, cs[j]);
        if j < p {
          assert ks[j] < ks[p];
        }
      } else {
        var a :| 0 <= a < p && ks[..p][a] == k;
        assert ks[a] < ks[p];
      }
    }
  }

  /** The separators above `p` with their children form a search tree above separator `p`. */
  lemma CutRightHalf<V>(n: Node<V>, p: nat)
    requires SearchTree(n) && n.InternalNode? && p < |n.keys|
    ensures var right := InternalNode(n.keys[p + 1..], n.values[p + 1..], n.children[p + 1..]);
      SearchTree(right) && forall k :: Has(right, k) ==> n.keys[p] < k
  {
    var ks, vs, cs := n.keys, n.values, n.children;
    var right := InternalNode(ks[p + 1..], vs[p + 1..], cs[p + 1..]);
    forall j | 0 <= j < |right.children|
      ensures SearchTree(right.children[j]) && Separated(right.keys, j, right.children[j])
    {
      assert right.children[j] == cs[p + 1 + j];
      assert Separated(ks, p + 1 + j, cs[p + 1 + j]);
    }
    forall k | Has(right, k)
      ensures ks[p] < k
    {
      if k !in right.keys {
        var j :| 0 <= j < |right.children| && Has(right.children[j], k);
        assert right.children[j] == cs[p + 1 + j];
        assert Separated(ks, p + 1 + j, cs[p + 1 + j]);
        if j > 0 {
          assert ks[p] < ks[p + j];
        }
      } else {
        var a :| 0 <= a < |ks| - p - 1 && ks[p + 1..][a] == k;
        assert ks[p] < ks[p + 1 + a];
      }
    }
  }

  /** Cutting a sorted leaf at slot `h`, the same way. */
  lemma CutLeaf<V>(ks: seq<int>, vs: seq<V>, h: nat)
    requires StrictlySorted(ks) && |ks| == |vs| && h < |ks| < SizeMax
    ensures var left, right := LeafNode(ks[..h], vs[..h]), LeafNode(ks[h + 1..], vs[h + 1..]);
      SearchTree(left) && SearchTree(right)
      && (forall k :: Has(left, k) ==> k < ks[h])
      && (forall k :: Has(right, k) ==> ks[h] < k)
      && forall k, v :: Holds(LeafNode(ks, vs), k, v)
           <==> Holds(left, k, v) || (k == ks[h] && v == vs[h]) || Holds(right, k, v)
  {
    assert ks == ks[..h] + [ks[h]] + ks[h + 1..];
    BTreeLeaves.SortedAround(ks, ks[..h], ks[h], ks[h + 1..]);
    forall k, v
      ensures SeparatorHolds(ks, vs, k, v)
          <==> SeparatorHolds(ks[..h], vs[..h], k, v) || (k == ks[h] && v == vs[h]) || SeparatorHolds(ks[h + 1..], vs[h + 1..], k, v)
    {
      SeparatorHoldsAt(ks, vs, h, k, v);
    }
  }

  /**
   * Putting `c` in place of the child where `key` belongs: when `c` adds at
   * most `key` to the keys that child had and holds every other key as it
   * did, the node stays a search tree and holds every other key as before.
   */
  lemma ReplaceChild<V>(n: Node<V>, key: int, c: Node<V>)
    requires SearchTree(n) && n.InternalNode? && key !in n.keys
    requires var i := UpperBound(n.keys, key);
      SearchTree(c)
      && (forall k :: Has(c, k) ==> k == key || Has(n.children[i], k))
      && (forall k, v :: k != key ==> (Holds(c, k, v) <==> Holds(n.children[i], k, v)))
    ensures var i := UpperBound(n.keys, key);
      var m := InternalNode(n.keys, n.values, n.children[i := c]);
      SearchTree(m)
      && (forall k, v :: k != key ==> (Holds(m, k, v) <==> Holds(n, k, v)))
      && (forall v :: Holds(m, key, v) <==> Holds(c, key, v))
  {
    var ks, vs, cs := n.keys, n.values, n.children;
    var i := UpperBound(ks, key);
    var cs' := cs[i := c];
    var m := InternalNode(ks, vs, cs');
    assert i > 0 ==> ks[i - 1] < key by {
      if i > 0 {
        assert ks[i - 1] <= key && ks[i - 1] != key;
      }
    }
    forall j | 0 <= j < |cs'|
      ensures SearchTree(cs'[j]) && Separated(ks, j, cs'[j])
    {
      assert Separated(ks, j, cs[j]);
    }
    assert cs'[..i] == cs[..i] && cs'[i + 1..] == cs[i + 1..];
    forall k, v
      ensures k != key ==> (Holds(m, k, v) <==> Holds(n, k, v))
      ensures k == key ==> (Holds(m, k, v) <==> Holds(c, k, v))
    {
      ChildHoldsAt(cs, i, k, v);
      ChildHoldsAt(cs', i, k, v);
      if k == key {
        OnlyChildHolds(n, key, v);
      }
    }
  }
}
