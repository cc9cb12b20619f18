/**
 * The growable array `stdx::Vector2` of std/vector.hpp. The storage
 * `[mFront, mCapacity)` is an array, `mBack` is the element count. The
 * allocator's answer to an allocation request is a parameter (`allocOk`);
 * the caller-visible outcome of a failed one is `OutOfMemory` with the
 * vector unchanged.
 */
module Vectors {
  import opened Status
  import opened Seqs

  class Vector<T(0,==)> {
    var data: array<T>
    var count: nat

    ghost predicate Valid()
      reads this
    {
      count <= data.Length
    }

    /** The live elements, `[mFront, mBack)`. */
    function Elements(): seq<T>
      requires Valid()
      reads this, data
    {
      data[..count]
    }

    /** `capacity()`: the number of slots the storage has. */
    function Capacity(): nat
      reads this
    {
      data.Length
    }

    /** `Vector2()`: no storage and no elements. */
    constructor()
      ensures Valid() && Elements() == [] && Capacity() == 0
    {
      data := new T[0];
      count := 0;
    }

    /** `Vector2(capacity)`: storage for `capacity` elements and no elements. */
    constructor WithCapacity(capacity: nat)
      ensures Valid() && Elements() == [] && Capacity() == capacity
    {
      data := new T[capacity];
      count := 0;
    }

    /** `isEmpty`: no live element. */
    predicate IsEmpty()
      reads this
    {
      count == 0
    }

    /** `clear`: drops every element and keeps the storage. */
    method Clear()
      requires Valid()
      modifies this
      ensures Valid() && Elements() == [] && data == old(data)
    {
      count := 0;
    }

    /**
     * `reserveExact`: a request below the current capacity changes nothing;
     * otherwise the elements move to new storage of exactly `size` slots,
     * unless the allocation fails. The capacity never shrinks.
     */
    method ReserveExact(size: nat, allocOk: bool) returns (status: OsStatus)
      requires Valid()
      modifies this
      ensures Valid() && Elements() == old(Elements())
      ensures Capacity() >= old(Capacity())
      ensures size < old(Capacity()) ==> status == Success && data == old(data)
      ensures size >= old(Capacity()) && !allocOk ==> status == OutOfMemory && data == old(data)
      ensures size >= old(Capacity()) && allocOk ==> status == Success && Capacity() == size && fresh(data)
    {
      if size < data.Length {
        return Success;
      }
      if !allocOk {
        return OutOfMemory;
      }
      var newData := new T[size];
      var i := 0;
      while i < count
        invariant i <= count <= data.Length <= newData.Length
        invariant newData[..i] == data[..i]
        modifies newData
      {
        newData[i] := data[i];
        i := i + 1;
      }
      data := newData;
      return Success;
    }

    /** `reserve`: `reserveExact` of the larger of `size` and the capacity. */
    method Reserve(size: nat, allocOk: bool) returns (status: OsStatus)
      requires Valid()
      modifies this
      ensures Valid() && Elements() == old(Elements())
      ensures status == Success ==> Capacity() >= size
      ensures status == OutOfMemory <==> !allocOk
      ensures Capacity() >= old(Capacity())
    {
      status := ReserveExact(if size > data.Length then size else data.Length, allocOk);
    }

    /**
     * `ensureExtra`: room for `extra` more elements. The storage grows by
     * `extra` slots once `count + extra` reaches the capacity.
     */
    method EnsureExtra(extra: nat, allocOk: bool) returns (status: OsStatus)
      requires Valid()
      modifies this
      ensures Valid() && Elements() == old(Elements())
      ensures status == Success || status == OutOfMemory
      ensures status == OutOfMemory <==> old(count) + extra >= old(Capacity()) && !allocOk
      ensures status == Success ==> count + extra <= Capacity()
      ensures status == OutOfMemory ==> data == old(data)
      ensures data == old(data) || fresh(data)
    {
      if count + extra >= data.Length {
        status := ReserveExact(data.Length + extra, allocOk);
      } else {
        status := Success;
      }
    }

    /**
     * `resize`: shrinking drops the tail; growing keeps the elements and
     * adds default-constructed ones, `initial` being the value a
     * default-constructed `T` has, or fails with nothing changed.
     */
    method Resize(size: nat, allocOk: bool, initial: T) returns (status: OsStatus)
      requires Valid()
      modifies this, data
      ensures Valid()
      ensures status == Success ==> count == size
      ensures status == Success && size <= old(count) ==> Elements() == old(Elements())[..size]
      ensures status == Success && size > old(count) ==>
        Elements() == old(Elements()) + seq(size - old(count), _ => initial)
      ensures status != Success ==> size > old(count) && Elements() == old(Elements())
      ensures status == OutOfMemory <==> size > old(count) && size >= old(Capacity()) && !allocOk
    {
      if size < count {
        count := size;
      } else if size > count {
        status := EnsureExtra(size - count, allocOk);
        if status != Success {
          return;
        }
        ghost var before := Elements();
        var tail := seq(size - count, _ => initial);
        CopyInto(data, count, tail);
        assert forall k :: 0 <= k < count ==> data[k] == before[k];
        count := size;
        assert Elements() == before + tail;
      }
      status := Success;
    }

    /** `add`: appends `value`, or fails with the vector unchanged. */
    method Add(value: T, allocOk: bool) returns (status: OsStatus)
      requires Valid()
      modifies this, data
      ensures Valid()
      ensures status == OutOfMemory <==> old(count) + 1 >= old(Capacity()) && !allocOk
      ensures status == Success ==> Elements() == old(Elements()) + [value]
      ensures status != Success ==> status == OutOfMemory && Elements() == old(Elements())
    {
      status := EnsureExtra(1, allocOk);
      if status != Success {
        return;
      }
      data[count] := value;
      count := count + 1;
    }

    /** `addRange`: appends every element of `src`, or fails with the vector unchanged. */
    method AddRange(src: seq<T>, allocOk: bool) returns (status: OsStatus)
      requires Valid()
      modifies this, data
      ensures Valid()
      ensures status == OutOfMemory <==> old(count) + |src| >= old(Capacity()) && !allocOk
      ensures status == Success ==> Elements() == old(Elements()) + src
      ensures status != Success ==> status == OutOfMemory && Elements() == old(Elements())
    {
      status := EnsureExtra(|src|, allocOk);
      if status != Success {
        return;
      }
      ghost var before := Elements();
      CopyInto(data, count, src);
      assert forall k :: 0 <= k < count ==> data[k] == before[k];
      assert forall k :: count <= k < count + |src| ==> data[k] == src[k - count];
      count := count + |src|;
      assert Elements() == before + src;
    }

    /** `pop`: drops the last element. */
    method Pop()
      requires Valid() && count > 0
      modifies this
      ensures Valid() && data == old(data)
      ensures Elements() + [old(Elements())[old(count) - 1]] == old(Elements())
    {
      count := count - 1;
    }

    /**
     * `insert(index, value)`: `value` at `index`, later elements one place
     * up; or failure with the vector unchanged.
     */
    method Insert(index: nat, value: T, allocOk: bool) returns (status: OsStatus)
      requires Valid() && index <= count
      modifies this, data
      ensures Valid()
      ensures status == OutOfMemory <==> old(count) + 1 >= old(Capacity()) && !allocOk
      ensures status == Success ==> Elements() == InsertAt(old(Elements()), index, value)
      ensures status != Success ==> Elements() == old(Elements())
    {
      status := EnsureExtra(1, allocOk);
      if status != Success {
        return;
      }
      ghost var s := Elements();
      MoveUp(data, index, count);
      data[index] := value;
      count := count + 1;
      forall k | 0 <= k < count
        ensures Elements()[k] == InsertAt(s, index, value)[k]
      {
      }
    }

    /** `remove(index)`: drops the element at `index`; later elements move one place down. */
    method Remove(index: nat)
      requires Valid() && index < count
      modifies this, data
      ensures Valid() && data == old(data)
      ensures Elements() == RemoveAt(old(Elements()), index)
    {
      ghost var s := Elements();
      ghost var t := RemoveAt(s, index);
      MoveDown(data, index, index + 1, count - index - 1);
      assert forall k :: 0 <= k < index ==> data[k] == t[k];
      assert forall k :: index <= k < count - 1 ==> data[k] == t[k];
      count := count - 1;
      assert Elements() == t;
    }

    /** `erase(value)`: removes the first element equal to `value`, if there is one. */
    method EraseValue(value: T)
      requires Valid()
      modifies this, data
      ensures Valid()
      ensures value !in old(Elements()) ==> Elements() == old(Elements())
      ensures value in old(Elements()) ==> Elements() == RemoveAt(old(Elements()), IndexOf(old(Elements()), value))
    {
      var i := 0;
      while i < count && data[i] != value
        invariant i <= count
        invariant forall k :: 0 <= k < i ==> data[k] != value
      {
        i := i + 1;
      }
      if i < count {
        IndexOfIsFirst(Elements(), value, i);
        Remove(i);
      }
    }

    /** `erase(first, last)`: drops the elements at `[first, last)`. */
    method EraseRange(first: nat, last: nat)
      requires Valid() && first <= last <= count
      modifies this, data
      ensures Valid() && data == old(data)
      ensures Elements() == old(Elements())[..first] + old(Elements())[last..]
      ensures count == old(count) - (last - first)
    {
      ghost var s := Elements();
      ghost var t := s[..first] + s[last..];
      MoveDown(data, first, last, count - last);
      assert forall k :: 0 <= k < first ==> data[k] == t[k];
      assert forall k :: first <= k < count - (last - first) ==> data[k] == t[k];
      count := count - (last - first);
      assert Elements() == t;
    }
  }

  /** Writes `src` into the slots from `at` on; the rest stays. */
  method CopyInto<T>(a: array<T>, at: nat, src: seq<T>)
    requires at + |src| <= a.Length
    modifies a
    ensures forall k :: 0 <= k < a.Length ==>
      a[k] == if at <= k < at + |src| then src[k - at] else old(a[k])
  {
    var i := 0;
    while i < |src|
      invariant i <= |src|
      invariant forall k :: 0 <= k < a.Length ==>
        a[k] == if at <= k < at + i then src[k - at] else old(a[k])
    {
      a[at + i] := src[i];
      i := i + 1;
    }
  }

  /**
   * Copies the `n` elements at `src` down to `dst` front to back, as the
   * shifting loops of `remove` and `erase` do; the rest stays.
   */
  method MoveDown<T>(a: array<T>, dst: nat, src: nat, n: nat)
    requires dst <= src && src + n <= a.Length
    modifies a
    ensures forall k :: 0 <= k < a.Length ==>
      a[k] == if dst <= k < dst + n then old(a[k + (src - dst)]) else old(a[k])
  {
    var i := 0;
    while i < n
      invariant i <= n
      invariant forall k :: 0 <= k < a.Length ==>
        a[k] == if dst <= k < dst + i then old(a[k + (src - dst)]) else old(a[k])
    {
      a[dst + i] := a[src + i];
      i := i + 1;
    }
  }

  /**
   * Moves the elements at `[lo, hi)` one place up, back to front, as the
   * shifting loop of `insert` does; the rest stays.
   */
  method MoveUp<T>(a: array<T>, lo: nat, hi: nat)
    requires lo <= hi < a.Length
    modifies a
    ensures forall k :: 0 <= k < a.Length ==>
      a[k] == if lo < k <= hi then old(a[k - 1]) else old(a[k])
  {
    var j := hi;
    while j > lo
      invariant lo <= j <= hi
      invariant forall k :: 0 <= k < a.Length ==>
        a[k] == if j < k <= hi then old(a[k - 1]) else old(a[k])
    {
      a[j] := a[j - 1];
      j := j - 1;
    }
  }
}
