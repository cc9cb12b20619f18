/**
 * `BTreeMap` of std/container/btree.hpp: the root node, or none for the
 * empty map, and the operations on the whole map.
 */
module BTreeMaps {
  import opened Status
  import opened BTreeTrees
  import opened BTreeInserts
  import opened BTreeErases
  import BTreeLeaves

  /** `BTreeMap`: the root node, or none for the empty map. */
  class BTreeMap<V(!new)> {
    /** `kOrder` of the map's nodes, fixed by the key and value sizes. */
    const order: nat
    var root: Option<Node<V>>

    /** The root, when there is one, is a search tree none of whose nodes holds more than `kOrder` keys. */
    ghost predicate Valid()
      reads this
    {
      ValidOrder(order) && (root.Some? ==> SearchTree(root.value) && Fits(root.value, order))
    }

    /** The map stores `value` beside `key`. */
    ghost predicate Stores(key: int, value: V)
      reads this
    {
      root.Some? && Holds(root.value, key, value)
    }

    /** The map holds `key`. */
    ghost predicate Contains(key: int)
      reads this
    {
      root.Some? && Has(root.value, key)
    }

    /** An empty map allocates no node; its nodes hold `Leaf::kOrder` entries of these sizes. */
    constructor (keySize: nat, valueSize: nat)
      requires keySize + valueSize > 0
      ensures Valid() && IsEmpty() && order == BTreeLeaves.Order(keySize, valueSize)
    {
      order := BTreeLeaves.Order(keySize, valueSize);
      root := None;
    }

    /** `isEmpty`: no root node. */
    predicate IsEmpty()
      reads this
    {
      root.None?
    }

    /** `clear`: the nodes go and the map holds no key. */
    method Clear()
      requires Valid()
      modifies this
      ensures Valid() && IsEmpty()
      ensures forall k :: !Contains(k)
    {
      root := None;
    }

    /** `contains`: false for the empty map, else `nodeContains` from the root. */
    method ContainsKey(key: int) returns (found: bool)
      requires Valid()
      ensures found <==> Contains(key)
    {
      if root.None? {
        return false;
      }
      found := NodeContains(root.value, key);
      NodeContainsIsMembership(root.value, key);
    }

    /** `find`: the value stored beside `key`, if any. */
    method Find(key: int) returns (r: Option<V>)
      requires Valid()
      ensures r.Some? <==> Contains(key)
      ensures r.Some? ==> Holds(root.value, key, r.value)
      ensures forall v :: root.Some? && Holds(root.value, key, v) ==> r == Some(v)
    {
      if root.None? {
        return None;
      }
      r := FindInNode(root.value, key);
      forall v | Holds(root.value, key, v)
        ensures r == Some(v)
      {
        HoldsHas(root.value, key, v);
        HoldsIsUnique(root.value, key, r.value, v);
      }
    }
  
    /**
     * `insert`: an empty map first gets an empty root leaf; then
     * `insertInto` from the root, a root that splits giving way to a new
     * root with the middle entry as its only separator. Afterwards the map
     * stores `value` beside `key` and every other entry as before.
     */
    method Insert(key: int, value: V) returns (status: OsStatus)
      requires Valid()
      modifies this
      ensures Valid() && status == Success
      ensures Stores(key, value) && forall v :: Stores(key, v) ==> v == value
      ensures forall k, v :: k != key ==> (Stores(k, v) <==> old(Stores(k, v)))
      ensures forall k :: Contains(k) <==> k == key || old(Contains(k))
    {
      var n: Node<V> := if root.None? then LeafNode([], []) else root.value;
      ghost var before := root;
      var g := InsertInNode(n, key, value, order);
      InsertInNodeIsInsertion(n, key, value, order);
      NewRootIsSearchTree(g, order);
      root := Some(NewRoot(g));
      forall k, v
        ensures Stores(k, v) <==> if k == key then v == value else before.Some? && Holds(before.value, k, v)
      {
      }
      forall k
        ensures Contains(k) <==> k == key || (before.Some? && Has(before.value, k))
      {
      }
      status := Success;
    }

    /**
     * `remove`: `erase(find(key))`; the entry leaves its node, a separator
     * giving way to the greatest entry of its left subtree, and a root left
     * without keys collapses. Afterwards the map lacks `key` and stores
     * every other entry as before.
     */
    method Remove(key: int)
      requires Valid()
      modifies this
      ensures Valid()
      ensures !Contains(key) && forall v :: !Stores(key, v)
      ensures forall k, v :: k != key ==> (Stores(k, v) <==> old(Stores(k, v)))
      ensures forall k :: k != key ==> (Contains(k) <==> old(Contains(k)))
    {
      if root.None? {
        return;
      }
      var n := root.value;
      var m := EraseInNode(n, key);
      EraseInNodeIsRemoval(n, key, order);
      CollapseRootKeeps(m, order);
      root := CollapseRoot(m);
    }
  }
}
