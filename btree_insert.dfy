/**
 * `BTreeMap::insert` of std/container/btree.hpp on the value tree of
 * `BTreeTrees`: `insertInto` walks down as `find` does, overwrites the
 * value of a key it meets on the way, and otherwise adds the key to its
 * leaf; a full leaf splits (`splitInto`), handing its middle entry up to
 * the parent (`insertNewLeaf`), which may split in turn
 * (`splitInternalNode`) up to the root (`splitRootNode`, `initAsRoot`).
 * Every node holds at most `order` keys, the `kOrder` of its leaf type.
 */
module BTreeInserts {
  import opened Seqs
  import opened FlatMaps
  import opened BTreeTrees
  import BTreeLeaves

  /** What inserting below a node hands back to its parent: the node, or two halves and the entry between them. */
  datatype Grown<V> =
    | Fit(node: Node<V>)
    | Split(left: Node<V>, key: int, value: V, right: Node<V>)

  /** `kOrder` is never below 3 and, with the node header, fits in `kTargetNodeSize` bytes. */
  predicate ValidOrder(order: nat)
  {
    3 <= order <= BTreeLeaves.TargetNodeSize
  }

  /** No node of the tree holds more than `order` keys. */
  ghost predicate Fits<V>(n: Node<V>, order: nat)
  {
    |n.keys| <= order
    && (n.InternalNode? ==> forall j :: 0 <= j < |n.children| ==> Fits(n.children[j], order))
  }

  /** The keys stored in the result: both halves and the entry between them after a split. */
  ghost predicate GrownHas<V>(g: Grown<V>, k: int)
  {
    match g
    case Fit(n) => Has(n, k)
    case Split(l, m, _, r) => Has(l, k) || k == m || Has(r, k)
  }

  /** The entries stored in the result. */
  ghost predicate GrownHolds<V>(g: Grown<V>, k: int, v: V)
  {
    match g
    case Fit(n) => Holds(n, k, v)
    case Split(l, m, mv, r) => Holds(l, k, v) || (k == m && v == mv) || Holds(r, k, v)
  }

  /** Search trees within the order; after a split the left half lies below the middle key and the right half above it. */
  ghost predicate GrownValid<V>(g: Grown<V>, order: nat)
  {
    match g
    case Fit(n) => SearchTree(n) && Fits(n, order)
    case Split(l, m, _, r) =>
      SearchTree(l) && SearchTree(r) && Fits(l, order) && Fits(r, order)
      && (forall k :: Has(l, k) ==> k < m) && (forall k :: Has(r, k) ==> m < k)
  }

  /** `g` is `n` with `key` stored beside `value` alone and every other key holding what it held. */
  ghost predicate Inserted<V(!new)>(g: Grown<V>, n: Node<V>, key: int, value: V)
  {
    (forall k :: GrownHas(g, k) <==> Has(n, k) || k == key)
    && (forall k, v :: GrownHolds(g, k, v) <==> if k == key then v == value else Holds(n, k, v))
  }

  /**
   * `Leaf::insert` (`insertViaLowerBound`): overwrite the value of a key
   * already there, else shift the entries above the lower bound up; a full
   * leaf instead splits as `splitInto` does, leaving the lower `order / 2`
   * entries, the next as the midpoint, and the rest in the new leaf.
   */
  function InsertInLeaf<V>(keys: seq<int>, values: seq<V>, key: int, value: V, order: nat): Grown<V>
    requires |keys| == |values|
  {
    var i := LowerBound(keys, key);
    if i < |keys| && keys[i] == key then
      Fit(LeafNode(keys, values[i := value]))
    else
      var ks, vs := InsertAt(keys, i, key), InsertAt(values, i, value);
      if |keys| < order then
        Fit(LeafNode(ks, vs))
      else
        var half := order / 2;
        Split(LeafNode(ks[..half], vs[..half]), ks[half], vs[half], LeafNode(ks[half + 1..], vs[half + 1..]))
  }

  /**
   * `insertNewLeaf`: the parent takes the midpoint at child slot `i` with
   * the new right half after it (`insertChild`); a full parent splits
   * (`splitInternalNode`) around its own middle key `keys[order / 2]`,
   * which is where that key lands once the new entry is in: one place
   * further up when the entry went into the lower half.
   */
  function AddChild<V>(keys: seq<int>, values: seq<V>, children: seq<Node<V>>, i: nat,
                       l: Node<V>, m: int, mv: V, r: Node<V>, order: nat): Grown<V>
    requires |keys| == |values| && |children| == |keys| + 1 && i < |children| && ValidOrder(order)
  {
    var w := InternalNode(InsertAt(keys, i, m), InsertAt(values, i, mv), children[..i] + [l, r] + children[i + 1..]);
    if |keys| < order then
      Fit(w)
    else
      var half := order / 2;
      CutAt(w, if i <= half then half + 1 else half)
  }

  /** `splitInternalNode`: the keys and children below entry `p` stay, entry `p` moves up, the rest go to the new node. */
  function CutAt<V>(w: Node<V>, p: nat): Grown<V>
    requires w.InternalNode? && |w.values| == |w.keys| && |w.children| == |w.keys| + 1 && p < |w.keys|
  {
    Split(InternalNode(w.keys[..p], w.values[..p], w.children[..p + 1]), w.keys[p], w.values[p],
          InternalNode(w.keys[p + 1..], w.values[p + 1..], w.children[p + 1..]))
  }

  /** `insertInto`: a separator equal to `key` takes the value; otherwise go down to child `upperBound(key)`. */
  function InsertInNode<V>(n: Node<V>, key: int, value: V, order: nat): Grown<V>
    requires WellShaped(n) && ValidOrder(order)
    decreases n
  {
    match n
    case LeafNode(keys, values) => InsertInLeaf(keys, values, key, value, order)
    case InternalNode(keys, values, children) =>
      var i := UpperBound(keys, key);
      if i != 0 && keys[i - 1] == key then
        Fit(InternalNode(keys, values[i - 1 := value], children))
      else
        match InsertInNode(children[i], key, value, order)
        case Fit(c) => Fit(InternalNode(keys, values, children[i := c]))
        case Split(l, m, mv, r) => AddChild(keys, values, children, i, l, m, mv, r, order)
  }

  /** `splitRootNode` / `initAsRoot`: a root that split becomes the only separator of a new root. */
  function NewRoot<V>(g: Grown<V>): Node<V>
  {
    match g
    case Fit(n) => n
    case Split(l, m, mv, r) => InternalNode([m], [mv], [l, r])
  }

  /** Every node the result is made of is well-shaped. */
  ghost predicate GrownShaped<V>(g: Grown<V>)
  {
    match g
    case Fit(c) => WellShaped(c)
    case Split(l, _, _, r) => WellShaped(l) && WellShaped(r)
  }

  /** The result stores a key exactly when it holds some value beside it. */
  lemma GrownHasSomeValue<V>(g: Grown<V>, k: int)
    requires GrownShaped(g)
    ensures GrownHas(g, k) <==> exists v :: GrownHolds(g, k, v)
  {
    if exists v :: GrownHolds(g, k, v) {
      var v :| GrownHolds(g, k, v);
      if g.Fit? {
        HoldsHas(g.node, k, v);
      } else if Holds(g.left, k, v) {
        HoldsHas(g.left, k, v);
      } else if Holds(g.right, k, v) {
        HoldsHas(g.right, k, v);
      }
    }
    if g.Fit? {
      HasSomeValue(g.node, k);
      if Has(g.node, k) {
        var v :| Holds(g.node, k, v);
        assert GrownHolds(g, k, v);
      }
    } else {
      HasSomeValue(g.left, k);
      HasSomeValue(g.right, k);
      if k == g.key {
        assert GrownHolds(g, k, g.value);
      } else if Has(g.left, k) {
        var v :| Holds(g.left, k, v);
        assert GrownHolds(g, k, v);
      } else if Has(g.right, k) {
        var v :| Holds(g.right, k, v);
        assert GrownHolds(g, k, v);
      }
    }
  }

  /** Once the entries are settled, which keys are stored follows. */
  lemma InsertedHas<V(!new)>(g: Grown<V>, n: Node<V>, key: int, value: V)
    requires WellShaped(n) && GrownShaped(g)
    requires forall k, v :: GrownHolds(g, k, v) <==> if k == key then v == value else Holds(n, k, v)
    ensures Inserted(g, n, key, value)
  {
    forall k
      ensures GrownHas(g, k) <==> Has(n, k) || k == key
    {
      GrownHasSomeValue(g, k);
      HasSomeValue(n, k);
      if GrownHas(g, k) && k != key {
        var v :| GrownHolds(g, k, v);
        assert Holds(n, k, v);
      }
      if k == key {
        assert GrownHolds(g, k, value);
      } else if Has(n, k) {
        var v :| Holds(n, k, v);
        assert GrownHolds(g, k, v);
      }
    }
  }

  /** Overwriting the value of a key a sorted leaf holds. */
  lemma LeafUpdate<V>(keys: seq<int>, values: seq<V>, i: nat, value: V)
    requires StrictlySorted(keys) && |keys| == |values| && i < |keys|
    ensures forall k, v :: (Holds(LeafNode(keys, values[i := value]), k, v)
      <==> if k == keys[i] then v == value else Holds(LeafNode(keys, values), k, v))
  {
    var vs := values[i := value];
    forall k, v
      ensures Holds(LeafNode(keys, vs), k, v) <==> if k == keys[i] then v == value else Holds(LeafNode(keys, values), k, v)
    {
      SeparatorHoldsAt(keys, vs, i, k, v);
      SeparatorHoldsAt(keys, values, i, k, v);
      assert vs[..i] == values[..i] && vs[i + 1..] == values[i + 1..];
      if k == keys[i] {
        BTreeLeaves.SortedAround(keys, keys[..i], keys[i], keys[i + 1..]);
        assert keys[i] !in keys[..i] && keys[i] !in keys[i + 1..];
      }
    }
  }

  /** Adding an absent key to a leaf at position `i`. */
  lemma LeafAdd<V>(keys: seq<int>, values: seq<V>, i: nat, key: int, value: V)
    requires |keys| == |values| && i <= |keys| && key !in keys
    ensures forall k, v :: (Holds(LeafNode(InsertAt(keys, i, key), InsertAt(values, i, value)), k, v)
      <==> if k == key then v == value else Holds(LeafNode(keys, values), k, v))
  {
    var ks, vs := InsertAt(keys, i, key), InsertAt(values, i, value);
    assert ks == keys[..i] + [key] + keys[i..];
    assert vs == values[..i] + [value] + values[i..];
    assert keys == keys[..i] + keys[i..];
    assert values == values[..i] + values[i..];
    forall k, v
      ensures SeparatorHolds(ks, vs, k, v) <==> if k == key then v == value else SeparatorHolds(keys, values, k, v)
    {
      SeparatorHoldsConcat(keys[..i] + [key], values[..i] + [value], keys[i..], values[i..], k, v);
      SeparatorHoldsConcat(keys[..i], values[..i], [key], [value], k, v);
      SeparatorHoldsConcat(keys[..i], values[..i], keys[i..], values[i..], k, v);
      if SeparatorHolds([key], [value], k, v) {
        var a :| 0 <= a < 1 && a < 1 && [key][a] == k && [value][a] == v;
      }
      if k == key && v == value {
        assert [key][0] == k && [value][0] == v;
      }
    }
  }

  /** Inserting into a sorted leaf within the order. */
  lemma {:induction false} InsertInLeafIsInsertion<V(!new)>(keys: seq<int>, values: seq<V>, key: int, value: V, order: nat)
    requires SearchTree(LeafNode(keys, values)) && |keys| <= order && ValidOrder(order)
    ensures var g := InsertInLeaf(keys, values, key, value, order);
      GrownValid(g, order) && Inserted(g, LeafNode(keys, values), key, value)
  {
    var n := LeafNode(keys, values);
    var g := InsertInLeaf(keys, values, key, value, order);
    var i := LowerBound(keys, key);
    LowerBoundOfSorted(keys, key);
    if i < |keys| && keys[i] == key {
      LeafUpdate(keys, values, i, value);
    } else {
      var ks, vs := InsertAt(keys, i, key), InsertAt(values, i, value);
      InsertKeepsSorted(keys, key);
      LeafAdd(keys, values, i, key, value);
      if |keys| >= order {
        CutLeaf(ks, vs, order / 2);
      }
    }
    InsertedHas(g, n, key, value);
  }

  /** Everything a child's insertion result stores lies between the separators around that child. */
  lemma SplitBetween<V(!new)>(n: Node<V>, key: int, value: V, g: Grown<V>)
    requires SearchTree(n) && n.InternalNode? && key !in n.keys
    requires Inserted(g, n.children[UpperBound(n.keys, key)], key, value)
    ensures var i := UpperBound(n.keys, key);
      forall k :: GrownHas(g, k) ==> (i > 0 ==> n.keys[i - 1] < k) && (i < |n.keys| ==> k < n.keys[i])
  {
    var i := UpperBound(n.keys, key);
    assert i > 0 ==> n.keys[i - 1] < key by {
      if i > 0 {
        assert n.keys[i - 1] <= key && n.keys[i - 1] != key;
      }
    }
    assert Separated(n.keys, i, n.children[i]);
  }

  /** The node `insertNewLeaf` builds before any split: the child's halves and midpoint in place of the child. */
  function Widened<V>(n: Node<V>, i: nat, l: Node<V>, m: int, mv: V, r: Node<V>): Node<V>
    requires n.InternalNode? && |n.keys| == |n.values| && i <= |n.keys| && i < |n.children|
  {
    InternalNode(InsertAt(n.keys, i, m), InsertAt(n.values, i, mv), n.children[..i] + [l, r] + n.children[i + 1..])
  }

  /** The widened node is a search tree whose children fit the order. */
  lemma {:induction false} WidenedIsSearchTree<V(!new)>(n: Node<V>, key: int, value: V, l: Node<V>, m: int, mv: V, r: Node<V>, order: nat)
    requires SearchTree(n) && n.InternalNode? && Fits(n, order) && ValidOrder(order) && |n.keys| <= order && key !in n.keys
    requires var i := UpperBound(n.keys, key);
      var g := Split(l, m, mv, r);
      GrownValid(g, order) && Inserted(g, n.children[i], key, value)
    ensures var w := Widened(n, UpperBound(n.keys, key), l, m, mv, r);
      SearchTree(w) && forall j :: 0 <= j < |w.children| ==> Fits(w.children[j], order)
  {
    var K, C := n.keys, n.children;
    var i := UpperBound(K, key);
    var w := Widened(n, i, l, m, mv, r);
    var ks, cs := w.keys, w.children;
    var g := Split(l, m, mv, r);
    SplitBetween(n, key, value, g);
    assert GrownHas(g, m);
    LowerBoundIs(K, m, i);
    assert m !in K by {
      forall a | 0 <= a < |K|
        ensures K[a] != m
      {
        if a + 1 < i {
          assert K[a] < K[i - 1];
        } else if a > i {
          assert K[i] < K[a];
        }
      }
    }
    InsertKeepsSorted(K, m);
    forall j | 0 <= j < |cs|
      ensures SearchTree(cs[j]) && Separated(ks, j, cs[j]) && Fits(cs[j], order)
    {
      WidenedChild(n, key, value, l, m, mv, r, order, j);
    }
  }

  /** Child `j` of the widened node lies between its separators and fits the order. */
  lemma WidenedChild<V(!new)>(n: Node<V>, key: int, value: V, l: Node<V>, m: int, mv: V, r: Node<V>, order: nat, j: nat)
    requires SearchTree(n) && n.InternalNode? && Fits(n, order) && |n.keys| <= order && key !in n.keys
    requires var i := UpperBound(n.keys, key);
      var g := Split(l, m, mv, r);
      GrownValid(g, order) && Inserted(g, n.children[i], key, value)
    requires j < |n.children| + 1
    ensures var w := Widened(n, UpperBound(n.keys, key), l, m, mv, r);
      SearchTree(w.children[j]) && Separated(w.keys, j, w.children[j]) && Fits(w.children[j], order)
  {
    var i := UpperBound(n.keys, key);
    var g := Split(l, m, mv, r);
    if j == i || j == i + 1 {
      SplitBetween(n, key, value, g);
      assert forall k :: Has(l, k) ==> GrownHas(g, k);
      assert forall k :: Has(r, k) ==> GrownHas(g, k);
      WidenedHalf(n, i, l, m, mv, r, order, j);
    } else {
      WidenedOther(n, i, l, m, mv, r, order, j);
    }
  }

  /** The two halves of the split child sit on either side of the midpoint, inside the old child's bounds. */
  lemma WidenedHalf<V>(n: Node<V>, i: nat, l: Node<V>, m: int, mv: V, r: Node<V>, order: nat, j: nat)
    requires n.InternalNode? && |n.keys| == |n.values| && i <= |n.keys| && i < |n.children|
    requires SearchTree(l) && SearchTree(r) && Fits(l, order) && Fits(r, order)
    requires forall k :: Has(l, k) ==> k < m && (i > 0 ==> n.keys[i - 1] < k)
    requires forall k :: Has(r, k) ==> m < k && (i < |n.keys| ==> k < n.keys[i])
    requires j == i || j == i + 1
    ensures var w := Widened(n, i, l, m, mv, r);
      SearchTree(w.children[j]) && Separated(w.keys, j, w.children[j]) && Fits(w.children[j], order)
  {
    var K := n.keys;
    var w := Widened(n, i, l, m, mv, r);
    var ks, cs := w.keys, w.children;
    if j == i {
      assert cs[j] == l && ks[j] == m;
      assert j > 0 ==> ks[j - 1] == K[j - 1];
    } else {
      assert cs[j] == r && ks[j - 1] == m;
      assert j < |ks| ==> ks[j] == K[j - 1];
    }
  }

  /** A child other than the split one keeps its separators, shifted past the midpoint when it lies right of it. */
  lemma WidenedOther<V>(n: Node<V>, i: nat, l: Node<V>, m: int, mv: V, r: Node<V>, order: nat, j: nat)
    requires SearchTree(n) && n.InternalNode? && Fits(n, order) && i < |n.children|
    requires j < |n.children| + 1 && j != i && j != i + 1
    ensures var w := Widened(n, i, l, m, mv, r);
      SearchTree(w.children[j]) && Separated(w.keys, j, w.children[j]) && Fits(w.children[j], order)
  {
    var K, C := n.keys, n.children;
    var w := Widened(n, i, l, m, mv, r);
    var ks, cs := w.keys, w.children;
    if j < i {
      assert cs[j] == C[j] && ks[j] == K[j];
      assert j > 0 ==> ks[j - 1] == K[j - 1];
      assert Separated(K, j, C[j]);
    } else {
      assert cs[j] == C[j - 1] && ks[j - 1] == K[j - 2];
      assert j < |ks| ==> ks[j] == K[j - 1];
      assert Separated(K, j - 1, C[j - 1]);
    }
  }

  /** Separators with one more entry placed at `i`. */
  lemma SeparatorHoldsInsert<V>(keys: seq<int>, values: seq<V>, i: nat, m: int, mv: V, k: int, v: V)
    requires |keys| == |values| && i <= |keys|
    ensures SeparatorHolds(InsertAt(keys, i, m), InsertAt(values, i, mv), k, v)
        <==> SeparatorHolds(keys, values, k, v) || (k == m && v == mv)
  {
    var ks, vs := InsertAt(keys, i, m), InsertAt(values, i, mv);
    SeparatorHoldsAt(ks, vs, i, k, v);
    assert ks[..i] == keys[..i] && ks[i + 1..] == keys[i..] && vs[..i] == values[..i] && vs[i + 1..] == values[i..];
    assert keys == keys[..i] + keys[i..] && values == values[..i] + values[i..];
    SeparatorHoldsConcat(keys[..i], values[..i], keys[i..], values[i..], k, v);
  }

  /** Children with the one at `i` replaced by the two halves `l` and `r`. */
  lemma ChildHoldsPair<V>(cs: seq<Node<V>>, i: nat, l: Node<V>, r: Node<V>, k: int, v: V)
    requires i < |cs|
    ensures ChildHolds(cs[..i] + [l, r] + cs[i + 1..], k, v)
        <==> ChildHolds(cs[..i], k, v) || Holds(l, k, v) || Holds(r, k, v) || ChildHolds(cs[i + 1..], k, v)
  {
    assert cs[..i] + [l, r] + cs[i + 1..] == cs[..i] + ([l] + [r]) + cs[i + 1..];
    ChildHoldsConcat(cs[..i] + ([l] + [r]), cs[i + 1..], k, v);
    ChildHoldsConcat(cs[..i], [l] + [r], k, v);
    ChildHoldsConcat([l], [r], k, v);
    ChildHoldsOne(l, k, v);
    ChildHoldsOne(r, k, v);
  }

  /** One entry of the widened node: held there exactly when the insertion says so. */
  lemma WidenedHolds<V(!new)>(n: Node<V>, key: int, value: V, l: Node<V>, m: int, mv: V, r: Node<V>, k: int, v: V)
    requires SearchTree(n) && n.InternalNode? && key !in n.keys
    requires forall k, v :: (GrownHolds(Split(l, m, mv, r), k, v)
      <==> if k == key then v == value else Holds(n.children[UpperBound(n.keys, key)], k, v))
    ensures Holds(Widened(n, UpperBound(n.keys, key), l, m, mv, r), k, v)
      <==> if k == key then v == value else Holds(n, k, v)
  {
    var i := UpperBound(n.keys, key);
    SeparatorHoldsInsert(n.keys, n.values, i, m, mv, k, v);
    ChildHoldsPair(n.children, i, l, r, k, v);
    ChildHoldsAt(n.children, i, k, v);
    assert GrownHolds(Split(l, m, mv, r), k, v) <==> Holds(l, k, v) || (k == m && v == mv) || Holds(r, k, v);
    if k == key {
      OnlyChildHolds(n, key, v);
    }
  }

  /** The halves `splitInternalNode` cuts a full widened node into fit the order. */
  lemma CutFits<V>(w: Node<V>, p: nat, order: nat)
    requires w.InternalNode? && p < |w.keys| && |w.values| == |w.keys| && |w.children| == |w.keys| + 1
    requires p <= order && |w.keys| - p - 1 <= order
    requires forall j :: 0 <= j < |w.children| ==> Fits(w.children[j], order)
    ensures Fits(InternalNode(w.keys[..p], w.values[..p], w.children[..p + 1]), order)
    ensures Fits(InternalNode(w.keys[p + 1..], w.values[p + 1..], w.children[p + 1..]), order)
  {
    var left := InternalNode(w.keys[..p], w.values[..p], w.children[..p + 1]);
    var right := InternalNode(w.keys[p + 1..], w.values[p + 1..], w.children[p + 1..]);
    forall j | 0 <= j < |left.children|
      ensures Fits(left.children[j], order)
    {
      assert left.children[j] == w.children[j];
    }
    forall j | 0 <= j < |right.children|
      ensures Fits(right.children[j], order)
    {
      assert right.children[j] == w.children[p + 1 + j];
    }
  }

  /**
   * The parent after `AddChild` is the widened node itself when it fits, or
   * that node cut around its middle entry: either way a valid result that
   * holds what the widened node holds.
   */
  lemma AddChildOfWidened<V>(n: Node<V>, i: nat, l: Node<V>, m: int, mv: V, r: Node<V>, order: nat)
    requires n.InternalNode? && |n.keys| == |n.values| && |n.children| == |n.keys| + 1 && i < |n.children|
    requires ValidOrder(order) && |n.keys| <= order
    requires var w := Widened(n, i, l, m, mv, r);
      SearchTree(w) && forall j :: 0 <= j < |w.children| ==> Fits(w.children[j], order)
    ensures var g := AddChild(n.keys, n.values, n.children, i, l, m, mv, r, order);
      var w := Widened(n, i, l, m, mv, r);
      GrownValid(g, order) && forall k, v :: GrownHolds(g, k, v) <==> Holds(w, k, v)
  {
    var w := Widened(n, i, l, m, mv, r);
    var half := order / 2;
    var p := if i <= half then half + 1 else half;
    AddChildIsWidened(n, i, l, m, mv, r, order);
    var g := AddChild(n.keys, n.values, n.children, i, l, m, mv, r, order);
    if |n.keys| < order {
      assert g == Fit(w);
      FitIsValid(w, order);
    } else {
      assert g == CutAt(w, p);
      CutIsValidSplit(w, p, order);
    }
  }

  /** A widened node within the order is itself a valid result holding what it holds. */
  lemma FitIsValid<V>(w: Node<V>, order: nat)
    requires SearchTree(w) && w.InternalNode? && |w.keys| <= order
    requires forall j :: 0 <= j < |w.children| ==> Fits(w.children[j], order)
    ensures GrownValid(Fit(w), order) && forall k, v :: GrownHolds(Fit(w), k, v) <==> Holds(w, k, v)
  {
    assert Fits(w, order);
  }

  /** `AddChild` leaves the widened node whole when the parent had room, and cuts it otherwise. */
  lemma AddChildIsWidened<V>(n: Node<V>, i: nat, l: Node<V>, m: int, mv: V, r: Node<V>, order: nat)
    requires n.InternalNode? && |n.keys| == |n.values| && |n.children| == |n.keys| + 1 && i < |n.children|
    requires ValidOrder(order) && |n.keys| <= order
    ensures var w := Widened(n, i, l, m, mv, r);
      |w.keys| == |n.keys| + 1 && |w.children| == |w.keys| + 1
    ensures |n.keys| < order ==>
      AddChild(n.keys, n.values, n.children, i, l, m, mv, r, order) == Fit(Widened(n, i, l, m, mv, r))
    ensures var w := Widened(n, i, l, m, mv, r);
      var half := order / 2;
      var p := if i <= half then half + 1 else half;
      |n.keys| >= order ==> p < |w.keys| && AddChild(n.keys, n.values, n.children, i, l, m, mv, r, order) == CutAt(w, p)
  {
    var w := Widened(n, i, l, m, mv, r);
    assert |w.keys| == |n.keys| + 1;
  }

  /** Cutting a full widened node at `p` gives a valid split holding what the node held. */
  lemma CutIsValidSplit<V>(w: Node<V>, p: nat, order: nat)
    requires SearchTree(w) && w.InternalNode? && p < |w.keys| && p <= order && |w.keys| - p - 1 <= order
    requires forall j :: 0 <= j < |w.children| ==> Fits(w.children[j], order)
    ensures GrownValid(CutAt(w, p), order) && forall k, v :: GrownHolds(CutAt(w, p), k, v) <==> Holds(w, k, v)
  {
    CutInternal(w, p);
    CutFits(w, p, order);
  }

  /** The widened node holds the inserted entry and what the parent held. */
  lemma WidenedHoldsAll<V(!new)>(n: Node<V>, key: int, value: V, l: Node<V>, m: int, mv: V, r: Node<V>)
    requires SearchTree(n) && n.InternalNode? && key !in n.keys
    requires forall k, v :: (GrownHolds(Split(l, m, mv, r), k, v)
      <==> if k == key then v == value else Holds(n.children[UpperBound(n.keys, key)], k, v))
    ensures forall k, v :: (Holds(Widened(n, UpperBound(n.keys, key), l, m, mv, r), k, v)
      <==> if k == key then v == value else Holds(n, k, v))
  {
    forall k, v
      ensures Holds(Widened(n, UpperBound(n.keys, key), l, m, mv, r), k, v)
        <==> if k == key then v == value else Holds(n, k, v)
    {
      WidenedHolds(n, key, value, l, m, mv, r, k, v);
    }
  }

  /** The parent that takes a child's split: still a search tree within the order, holding the inserted entry. */
  lemma {:induction false} AddChildIsInsertion<V(!new)>(n: Node<V>, key: int, value: V, l: Node<V>, m: int, mv: V, r: Node<V>, order: nat)
    requires SearchTree(n) && n.InternalNode? && Fits(n, order) && ValidOrder(order) && key !in n.keys
    requires var i := UpperBound(n.keys, key);
      var g := Split(l, m, mv, r);
      GrownValid(g, order) && Inserted(g, n.children[i], key, value)
    ensures var g := AddChild(n.keys, n.values, n.children, UpperBound(n.keys, key), l, m, mv, r, order);
      GrownValid(g, order) && Inserted(g, n, key, value)
  {
    var i := UpperBound(n.keys, key);
    var w := Widened(n, i, l, m, mv, r);
    var g := AddChild(n.keys, n.values, n.children, i, l, m, mv, r, order);
    WidenedIsSearchTree(n, key, value, l, m, mv, r, order);
    WidenedHoldsAll(n, key, value, l, m, mv, r);
    AddChildOfWidened(n, i, l, m, mv, r, order);
    InsertedHas(g, n, key, value);
  }

  /** Overwriting the value of a separator equal to `key`. */
  lemma UpdateSeparator<V>(n: Node<V>, a: nat, value: V, order: nat)
    requires SearchTree(n) && n.InternalNode? && Fits(n, order) && a < |n.keys|
    ensures var u := InternalNode(n.keys, n.values[a := value], n.children);
      SearchTree(u) && Fits(u, order)
      && forall k, v :: Holds(u, k, v) <==> if k == n.keys[a] then v == value else Holds(n, k, v)
  {
    var u := InternalNode(n.keys, n.values[a := value], n.children);
    assert forall j :: 0 <= j < |u.children| ==> Separated(n.keys, j, u.children[j]);
    forall k, v
      ensures Holds(u, k, v) <==> if k == n.keys[a] then v == value else Holds(n, k, v)
    {
      SeparatorHoldsAt(n.keys, n.values, a, k, v);
      SeparatorHoldsAt(u.keys, u.values, a, k, v);
      assert u.values[..a] == n.values[..a] && u.values[a + 1..] == n.values[a + 1..];
      if k == n.keys[a] {
        SeparatorHoldsOnly(u, a, v);
      }
    }
  }

  /** `insertInto` meeting `key` as a separator: the value is overwritten in place. */
  lemma SeparatorInsertion<V(!new)>(n: Node<V>, key: int, value: V, order: nat)
    requires SearchTree(n) && n.InternalNode? && Fits(n, order) && ValidOrder(order)
    requires var i := UpperBound(n.keys, key); i != 0 && n.keys[i - 1] == key
    ensures var g := InsertInNode(n, key, value, order);
      GrownValid(g, order) && Inserted(g, n, key, value)
  {
    var i := UpperBound(n.keys, key);
    UpdateSeparator(n, i - 1, value, order);
    InsertedHas(InsertInNode(n, key, value, order), n, key, value);
  }

  /** A key `upperBound` does not find among the separators is none of them. */
  lemma KeyBelowSeparators<V>(n: Node<V>, key: int)
    requires SearchTree(n) && n.InternalNode?
    requires var i := UpperBound(n.keys, key); !(i != 0 && n.keys[i - 1] == key)
    ensures key !in n.keys
  {
    var i := UpperBound(n.keys, key);
    forall a | 0 <= a < |n.keys|
      ensures n.keys[a] != key
    {
      if a + 1 < i {
        assert n.keys[a] < n.keys[i - 1];
      }
    }
  }

  /** `insertInto` going down to a child: the node takes the child's result, or its split. */
  lemma {:induction false} ChildInsertion<V(!new)>(n: Node<V>, key: int, value: V, order: nat)
    requires SearchTree(n) && n.InternalNode? && Fits(n, order) && ValidOrder(order) && key !in n.keys
    requires var c := n.children[UpperBound(n.keys, key)];
      var g := InsertInNode(c, key, value, order);
      GrownValid(g, order) && Inserted(g, c, key, value)
    ensures var g := InsertInNode(n, key, value, order);
      GrownValid(g, order) && Inserted(g, n, key, value)
  {
    var i := UpperBound(n.keys, key);
    var g := InsertInNode(n, key, value, order);
    match InsertInNode(n.children[i], key, value, order) {
      case Fit(c) =>
        ReplaceChild(n, key, c);
        var u := InternalNode(n.keys, n.values, n.children[i := c]);
        forall j | 0 <= j < |u.children|
          ensures Fits(u.children[j], order)
        {
          assert j != i ==> u.children[j] == n.children[j];
        }
        assert g == Fit(u);
        forall k, v
          ensures GrownHolds(g, k, v) <==> if k == key then v == value else Holds(n, k, v)
        {
          assert GrownHolds(Fit(c), k, v) <==> Holds(c, k, v);
        }
        InsertedHas(g, n, key, value);
      case Split(l, m, mv, r) =>
        AddChildIsInsertion(n, key, value, l, m, mv, r, order);
    }
  }

  /**
   * `insertInto` on a search tree within the order gives a search tree
   * within the order (or two and the midpoint between them) holding
   * `value` under `key` and every other entry it held.
   */
  lemma {:induction false} InsertInNodeIsInsertion<V(!new)>(n: Node<V>, key: int, value: V, order: nat)
    requires SearchTree(n) && Fits(n, order) && ValidOrder(order)
    ensures var g := InsertInNode(n, key, value, order);
      GrownValid(g, order) && Inserted(g, n, key, value)
    decreases n
  {
    match n
    case LeafNode(keys, values) =>
      InsertInLeafIsInsertion(keys, values, key, value, order);
    case InternalNode(keys, values, children) =>
      var i := UpperBound(keys, key);
      if i != 0 && keys[i - 1] == key {
        SeparatorInsertion(n, key, value, order);
      } else {
        KeyBelowSeparators(n, key);
        assert children[i] in children;
        InsertInNodeIsInsertion(children[i], key, value, order);
        ChildInsertion(n, key, value, order);
      }
  }

  /** The new root `splitRootNode` makes is a search tree within the order holding what the split held. */
  lemma NewRootIsSearchTree<V>(g: Grown<V>, order: nat)
    requires GrownValid(g, order) && ValidOrder(order)
    ensures SearchTree(NewRoot(g)) && Fits(NewRoot(g), order)
    ensures forall k, v :: Holds(NewRoot(g), k, v) <==> GrownHolds(g, k, v)
    ensures forall k :: Has(NewRoot(g), k) <==> GrownHas(g, k)
  {
    match g
    case Fit(_) =>
    case Split(l, m, mv, r) =>
      var root := NewRoot(g);
      assert root.children[0] == l && root.children[1] == r;
      forall k, v
        ensures Holds(root, k, v) <==> GrownHolds(g, k, v)
      {
        ChildHoldsConcat([l], [r], k, v);
        ChildHoldsOne(l, k, v);
        ChildHoldsOne(r, k, v);
        assert root.children == [l] + [r];
        if k == m && v == mv {
          assert root.keys[0] == k && root.values[0] == v;
        }
        if SeparatorHolds(root.keys, root.values, k, v) {
          var a :| 0 <= a < 1 && a < 1 && root.keys[a] == k && root.values[a] == v;
        }
      }
      forall k
        ensures Has(root, k) <==> GrownHas(g, k)
      {
        if Has(r, k) {
          assert Has(root.children[1], k);
        }
        if Has(l, k) {
          assert Has(root.children[0], k);
        }
      }
  }
}
