/**
 * `FixedSizeDeque` of std/fixed_deque.hpp: a double-ended queue over a
 * ring of `capacity` slots. `mBack` is the slot of the element at the back
 * (index 0), `mFront` the free slot after the element at the front (index
 * `mCount - 1`); both move around the ring modulo the capacity.
 */
module Deques {
  import Util

  /** `SIZE_MAX`, what `0 - 1` becomes in a `size_t`. */
  const SizeMax: nat := 0xFFFF_FFFF_FFFF_FFFF

  /** The ring slot `i` places after `back`: `(back + i) % capacity`, without the division. */
  function Slot(back: nat, i: nat, capacity: nat): (slot: nat)
    requires back < capacity && i <= capacity
    ensures slot < capacity
  {
    if back + i < capacity then back + i else back + i - capacity
  }

  /** `Slot` is `fixed_deque.hpp`'s `(mBack + index) % capacity()`. */
  lemma SlotIsMod(back: nat, i: nat, capacity: nat)
    requires back < capacity && i <= capacity
    ensures Slot(back, i, capacity) == (back + i) % capacity
    ensures Slot(back, i, capacity) < capacity
  {
    if back + i < capacity {
      Util.DivModUnique(back + i, capacity, 0, back + i);
    } else {
      Util.DivModUnique(back + i, capacity, 1, back + i - capacity);
    }
  }

  /** The slot `get(index)` reads as written: out of range is `index > mCount`. */
  function ReadSlotAsWritten(count: nat, back: nat, capacity: nat, index: nat): nat
    requires back < capacity && count <= capacity
  {
    if count == 0 || index > count then 0
    else if index == count then Slot(back, count, capacity)
    else Slot(back, index, capacity)
  }

  /** The slot `get(index)` reads with the range check `index >= mCount`. */
  function ReadSlot(count: nat, back: nat, capacity: nat, index: nat): (slot: nat)
    requires back < capacity && count <= capacity
    ensures slot < capacity
    ensures index < count ==> slot == Slot(back, index, capacity)
    ensures index >= count ==> slot == 0
  {
    if count == 0 || index >= count then 0 else Slot(back, index, capacity)
  }

  /**
   * With one element at slot 0 of a two-slot ring, `get(1)` as written
   * reads slot 1: it holds no element, and it is not the fallback slot 0
   * the range check returns for other out-of-range indices.
   */
  lemma ReadPastEndAsWritten()
    ensures ReadSlotAsWritten(1, 0, 2, 1) == 1
    ensures forall i :: 0 <= i < 1 ==> Slot(0, i, 2) != 1
    ensures ReadSlot(1, 0, 2, 1) == 0
  {
  }

  class Deque<T(0)> {
    var entries: array<T>
    var count: nat
    var front: nat
    var back: nat
    /** The elements from the back (index 0) to the front (index `count - 1`). */
    ghost var elems: seq<T>

    ghost predicate Valid()
      reads this, entries
    {
      count <= entries.Length && |elems| == count
      && (entries.Length == 0 ==> front == 0 && back == 0)
      && (entries.Length > 0 ==>
            back < entries.Length && front == Slot(back, count, entries.Length)
            && forall i :: 0 <= i < count ==> elems[i] == entries[Slot(back, i, entries.Length)])
    }

    function Capacity(): nat
      reads this
    {
      entries.Length
    }

    /** `FixedSizeDeque(entries, size)`: an empty deque over `size` slots. */
    constructor (size: nat)
      ensures Valid() && elems == [] && Capacity() == size && fresh(entries)
    {
      entries := new T[size];
      count, front, back := 0, 0, 0;
      elems := [];
    }

    /** `addFront`: `false` and no change when full; otherwise `e` becomes the front element. */
    method AddFront(e: T) returns (ok: bool)
      requires Valid()
      modifies this, entries
      ensures Valid() && entries == old(entries)
      ensures ok <==> old(count) < entries.Length
      ensures ok ==> elems == old(elems) + [e] && count == old(count) + 1
      ensures !ok ==> elems == old(elems) && count == old(count) && unchanged(entries)
    {
      if count == entries.Length {
        return false;
      }
      SlotIsMod(front, 1, entries.Length);
      ghost var before := elems;
      entries[front] := e;
      front := (front + 1) % entries.Length;
      count := count + 1;
      elems := elems + [e];
      forall i | 0 <= i < count
        ensures elems[i] == entries[Slot(back, i, entries.Length)]
      {
        if i < count - 1 {
          assert elems[i] == before[i];
        }
      }
      return true;
    }

    /** `popFront`: `false` when empty; otherwise the front element goes. */
    method PopFront() returns (ok: bool)
      requires Valid()
      modifies this
      ensures Valid() && entries == old(entries)
      ensures ok <==> old(count) > 0
      ensures ok ==> elems == old(elems)[..old(count) - 1] && count == old(count) - 1
      ensures !ok ==> elems == old(elems) && count == old(count)
    {
      if count == 0 {
        return false;
      } else {
        count := count - 1;
      }
      if front == 0 {
        front := entries.Length - 1;
      } else {
        front := front - 1;
      }
      elems := elems[..count];
      return true;
    }

    /** `addBack`: `false` and no change when full; otherwise `e` becomes the back element. */
    method AddBack(e: T) returns (ok: bool)
      requires Valid()
      modifies this, entries
      ensures Valid() && entries == old(entries)
      ensures ok <==> old(count) < entries.Length
      ensures ok ==> elems == [e] + old(elems) && count == old(count) + 1
      ensures !ok ==> elems == old(elems) && count == old(count) && unchanged(entries)
    {
      if count == entries.Length {
        return false;
      }
      if back == 0 {
        back := entries.Length - 1;
      } else {
        back := back - 1;
      }
      entries[back] := e;
      count := count + 1;
      elems := [e] + elems;
      return true;
    }

    /** `popBack`: `false` when empty; otherwise the back element goes. */
    method PopBack() returns (ok: bool)
      requires Valid()
      modifies this
      ensures Valid() && entries == old(entries)
      ensures ok <==> old(count) > 0
      ensures ok ==> elems == old(elems)[1..] && count == old(count) - 1
      ensures !ok ==> elems == old(elems) && count == old(count)
    {
      if count == 0 {
        return false;
      } else {
        count := count - 1;
      }
      SlotIsMod(back, 1, entries.Length);
      back := back + 1;
      back := back % entries.Length;
      elems := elems[1..];
      return true;
    }

    /**
     * `get`: the element at `index` counted from the back; an index out of
     * range reads slot 0 (see `ReadPastEndAsWritten` for the range check).
     */
    method Get(index: nat) returns (r: T)
      requires Valid() && entries.Length > 0
      ensures index < count ==> r == elems[index]
      ensures index >= count ==> r == entries[0]
    {
      if count == 0 || index >= count {
        return entries[0];
      }
      SlotIsMod(back, index, entries.Length);
      return entries[(back + index) % entries.Length];
    }

    /** `front()`, the element `*--end()`: index `count - 1` as a `size_t`. */
    method Front() returns (r: T)
      requires Valid() && entries.Length > 0
      ensures count > 0 ==> r == elems[count - 1]
      ensures count == 0 ==> r == entries[0]
    {
      var index := if count == 0 then SizeMax else count - 1;
      r := Get(index);
    }

    /** `back()`, the element `*begin()`. */
    method Back() returns (r: T)
      requires Valid() && entries.Length > 0
      ensures count > 0 ==> r == elems[0]
      ensures count == 0 ==> r == entries[0]
    {
      r := Get(0);
    }

    /** `pollFront`: reads the front element, then pops it. */
    method PollFront() returns (r: T)
      requires Valid() && entries.Length > 0
      modifies this
      ensures Valid() && entries == old(entries)
      ensures old(count) > 0 ==> r == old(elems)[old(count) - 1] && elems == old(elems)[..old(count) - 1]
      ensures old(count) == 0 ==> r == entries[0] && elems == old(elems)
    {
      r := Front();
      var _ := PopFront();
    }

    /** `pollBack`: reads the back element, then pops it. */
    method PollBack() returns (r: T)
      requires Valid() && entries.Length > 0
      modifies this
      ensures Valid() && entries == old(entries)
      ensures old(count) > 0 ==> r == old(elems)[0] && elems == old(elems)[1..]
      ensures old(count) == 0 ==> r == entries[0] && elems == old(elems)
    {
      r := Back();
      var _ := PopBack();
    }
  }
}
