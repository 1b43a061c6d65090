/**
 * The ring buffer used as the FIFO frontier of breadth-first search and as the LIFO
 * frontier of iterative deepening.  Elements live in `mData[readPos]`,
 * `mData[readPos + 1]`, ... wrapping at `capacity`, up to but excluding `writePos`.
 * A push that fills the ring grows it at once, so the ring is never full between calls.
 */
module Deques {

  /** `start + k` wrapped once into `[0, cap)`. */
  function Wrap(start: nat, k: nat, cap: nat): (r: nat)
    requires start < cap && k < cap
    ensures r < cap
    ensures start + k < cap ==> r == start + k
    ensures start + k >= cap ==> r + cap == start + k
  {
    if start + k < cap then start + k else start + k - cap
  }

  /** The `n` elements of the ring `a` that start at slot `start`. */
  function Ring<T>(a: seq<T>, start: nat, n: nat): (r: seq<T>)
    requires start < |a| && n <= |a|
    ensures |r| == n
    ensures forall k :: 0 <= k < n ==> r[k] == a[Wrap(start, k, |a|)]
  {
    seq(n, k requires 0 <= k < n => a[Wrap(start, k, |a|)])
  }

  /** Writing the slot just past a ring of `n < |a|` elements extends that ring by one. */
  lemma RingExtend<T>(a: seq<T>, start: nat, n: nat, v: T)
    requires start < |a| && n < |a|
    ensures Ring(a[Wrap(start, n, |a|) := v], start, n + 1) == Ring(a, start, n) + [v]
  {
    var w := Wrap(start, n, |a|);
    var lhs := Ring(a[w := v], start, n + 1);
    var rhs := Ring(a, start, n) + [v];
    forall k | 0 <= k < n + 1
      ensures lhs[k] == rhs[k]
    {
      if k < n {
        assert Wrap(start, k, |a|) != w;
      }
    }
  }

  /** Writing the slot just before a ring of `n < |a|` elements extends it at the front. */
  lemma RingPrepend<T>(a: seq<T>, start: nat, n: nat, v: T)
    requires start < |a| && n < |a|
    ensures var s := if start == 0 then |a| - 1 else start - 1;
      Ring(a[s := v], s, n + 1) == [v] + Ring(a, start, n)
  {
    var s := if start == 0 then |a| - 1 else start - 1;
    var lhs := Ring(a[s := v], s, n + 1);
    var rhs := [v] + Ring(a, start, n);
    forall k | 0 <= k < n + 1
      ensures lhs[k] == rhs[k]
    {
      if k > 0 {
        assert Wrap(s, k, |a|) == Wrap(start, k - 1, |a|);
      }
    }
  }

  class Deque<T(0)> {
    var mData: array<T>
    var readPos: nat
    var writePos: nat
    var capacity: nat
    ghost var Repr: set<object>

    /** Both positions lie inside the storage, whose length is `capacity`, at least 8. */
    ghost predicate Valid()
      reads this, Repr
    {
      Repr == {this, mData} &&
      capacity == mData.Length && capacity >= 8 &&
      readPos < capacity && writePos < capacity
    }

    /** The number of stored elements, computed as `size()` computes it. */
    function Count(): (r: nat)
      reads this
      requires readPos < capacity && writePos < capacity
      ensures r < capacity
      ensures r == 0 <==> readPos == writePos
    {
      if writePos >= readPos then writePos - readPos else capacity - readPos + writePos
    }

    /** The stored elements from front to back. */
    ghost function Contents(): seq<T>
      reads this, Repr
      requires Valid()
    {
      Ring(mData[..], readPos, Count())
    }

    /** A new deque owns 8 slots and holds nothing. */
    constructor ()
      ensures Valid() && fresh(Repr)
      ensures Contents() == [] && capacity == 8 && readPos == 0
    {
      mData := new T[8];
      readPos := 0;
      writePos := 0;
      capacity := 8;
      Repr := {this, mData};
    }

    /**
     * Grows a ring that has just become full (`readPos == writePos` with every slot in
     * use) to `old + old / 2` slots, copying the elements in order to slots `0 ..`.
     */
    method Resize()
      requires Valid() && readPos == writePos
      modifies this
      ensures Valid() && fresh(mData)
      ensures capacity == old(capacity) + old(capacity) / 2
      ensures readPos == 0 && writePos == old(capacity)
      ensures Contents() == old(Ring(mData[..], readPos, capacity))
    {
      var oldCap := capacity;
      ghost var ring := Ring(mData[..], readPos, capacity);
      var newCap := oldCap / 2 + oldCap;
      var newData := new T[newCap];
      var i, j := 0, readPos;
      while i != oldCap
        invariant 0 <= i <= oldCap && j < oldCap
        invariant mData == old(mData) && oldCap == mData.Length
        invariant i < oldCap ==> j == Wrap(old(readPos), i, oldCap)
        invariant forall k :: 0 <= k < i ==> newData[k] == ring[k]
      {
        newData[i] := mData[j];
        j := j + 1;
        if j == oldCap {
          j := 0;
        }
        i := i + 1;
      }
      mData := newData;
      capacity := newCap;
      readPos := 0;
      writePos := oldCap;
      Repr := {this, mData};
      assert Contents() == ring;
    }

    /** Appends `value` at the back. */
    method PushBack(value: T)
      requires Valid()
      modifies Repr
      ensures Valid() && fresh(Repr - old(Repr))
      ensures Contents() == old(Contents()) + [value]
      ensures old(readPos) == 0 ==> readPos == 0 && writePos != 0
    {
      ghost var n := Count();
      RingExtend(mData[..], readPos, n, value);
      mData[writePos] := value;
      writePos := writePos + 1;
      if writePos == capacity {
        writePos := 0;
      }
      if writePos == readPos {
        Resize();
      }
    }

    /** Prepends `value` at the front. */
    method PushFront(value: T)
      requires Valid()
      modifies Repr
      ensures Valid() && fresh(Repr - old(Repr))
      ensures Contents() == [value] + old(Contents())
    {
      ghost var n := Count();
      ghost var a := mData[..];
      ghost var start := readPos;
      RingPrepend(a, start, n, value);
      if readPos == 0 {
        readPos := capacity;
      }
      readPos := readPos - 1;
      mData[readPos] := value;
      assert mData[..] == a[readPos := value];
      assert Ring(mData[..], readPos, n + 1) == [value] + Ring(a, start, n);
      if writePos == readPos {
        assert n + 1 == capacity;
        Resize();
      } else {
        assert Count() == n + 1;
      }
    }

    /** Removes the oldest element: the FIFO end. */
    method PopFront()
      requires Valid() && Contents() != []
      modifies this
      ensures Valid() && Repr == old(Repr) && mData == old(mData) && mData[..] == old(mData[..])
      ensures Contents() == old(Contents())[1..]
    {
      readPos := readPos + 1;
      if readPos == capacity {
        readPos := 0;
      }
      assert forall k :: 0 <= k < Count() ==> Wrap(readPos, k, capacity) == Wrap(old(readPos), k + 1, capacity);
    }

    /** Removes the newest element: the LIFO end. */
    method PopBack()
      requires Valid() && Contents() != []
      modifies this
      ensures Valid() && Repr == old(Repr) && mData == old(mData) && mData[..] == old(mData[..])
      ensures Contents() == old(Contents())[..|old(Contents())| - 1]
      ensures readPos == old(readPos)
    {
      if writePos == 0 {
        writePos := capacity;
      }
      writePos := writePos - 1;
    }

    /** The oldest element. */
    method Front() returns (r: T)
      requires Valid() && Contents() != []
      ensures r == Contents()[0]
    {
      r := mData[readPos];
    }

    /**
     * The newest element, read from the slot before `writePos`; the slot index would
     * underflow when `writePos` has wrapped to 0, so that state is excluded.
     */
    method Back() returns (r: T)
      requires Valid() && Contents() != [] && writePos != 0
      ensures r == Contents()[|Contents()| - 1]
    {
      r := mData[writePos - 1];
    }

    method Empty() returns (r: bool)
      requires Valid()
      ensures r <==> readPos == writePos
      ensures r <==> Contents() == []
    {
      r := readPos == writePos;
    }

    method Size() returns (r: nat)
      requires Valid()
      ensures r == |Contents()| && r < capacity
    {
      if writePos >= readPos {
        r := writePos - readPos;
      } else {
        r := capacity - readPos + writePos;
      }
    }
  }
}
