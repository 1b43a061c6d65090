/**
 * The growable array that backs the priority queue and the linear-scan set.
 * `mData` is the storage (its length is the capacity, i.e. `mCapacityEnd - mData`)
 * and `mEnd` is the number of constructed elements (`mEnd - mData`).
 */
module Vectors {

  class Vector<T(0)> {
    var mData: array<T>
    var mEnd: nat
    ghost var Repr: set<object>

    /** The object invariant: size never exceeds capacity; capacity is 0 or at least 8. */
    ghost predicate Valid()
      reads this, Repr
    {
      Repr == {this, mData} &&
      mEnd <= mData.Length &&
      (mData.Length == 0 || mData.Length >= 8)
    }

    /** The elements `[mData, mEnd)`, in order. */
    ghost function Elements(): seq<T>
      reads this, mData
      requires mEnd <= mData.Length
    {
      mData[..mEnd]
    }

    /** An empty vector owns no storage (all three pointers are null). */
    constructor ()
      ensures Valid() && fresh(Repr)
      ensures Elements() == [] && mData.Length == 0
    {
      mData := new T[0];
      mEnd := 0;
      Repr := {this, mData};
    }

    /**
     * Moves the elements into fresh storage of 8 slots when the vector is empty and of
     * `size + size / 2` slots otherwise; it is only called when the vector is full.
     */
    method IncreaseCapacity()
      requires Valid()
      requires mEnd == mData.Length
      modifies this
      ensures Valid() && fresh(mData)
      ensures mEnd == old(mEnd)
      ensures Elements() == old(Elements())
      ensures mData.Length == if old(mEnd) == 0 then 8 else old(mEnd) + old(mEnd) / 2
      ensures mEnd < mData.Length
    {
      var oldSize := mEnd;
      var newSize := if oldSize == 0 then 8 else oldSize + oldSize / 2;
      var newData := new T[newSize];
      var i := 0;
      while i != oldSize
        invariant 0 <= i <= oldSize == mData.Length == mEnd
        invariant mData == old(mData) && mData[..] == old(mData[..])
        invariant newData[..i] == mData[..i]
      {
        newData[i] := mData[i];
        i := i + 1;
      }
      mData := newData;
      Repr := {this, mData};
    }

    /** Appends `value`, growing the storage first when it is full. */
    method PushBack(value: T)
      requires Valid()
      modifies Repr
      ensures Valid() && fresh(Repr - old(Repr))
      ensures Elements() == old(Elements()) + [value]
      ensures old(mEnd) < old(mData.Length) ==> mData == old(mData)
      ensures mEnd <= old(mData.Length) ==> mData == old(mData)
    {
      if mEnd == mData.Length {
        IncreaseCapacity();
      }
      mData[mEnd] := value;
      mEnd := mEnd + 1;
    }

    /** Destroys the last element; the storage is kept. */
    method PopBack()
      requires Valid() && mEnd > 0
      modifies this
      ensures Valid() && Repr == old(Repr) && mData == old(mData)
      ensures Elements() == old(Elements())[..old(mEnd) - 1]
    {
      mEnd := mEnd - 1;
    }

    /** `operator[]` read: the element at `pos`. */
    method Get(pos: nat) returns (r: T)
      requires Valid() && pos < mEnd
      ensures r == Elements()[pos]
    {
      r := mData[pos];
    }

    /** `operator[]` write: stores `value` through the reference to the element at `pos`. */
    method Put(pos: nat, value: T)
      requires Valid() && pos < mEnd
      modifies mData
      ensures Valid()
      ensures Elements() == old(Elements())[pos := value]
    {
      mData[pos] := value;
    }

    method Size() returns (r: nat)
      requires Valid()
      ensures r == |Elements()|
    {
      r := mEnd;
    }

    method Empty() returns (r: bool)
      requires Valid()
      ensures r <==> Elements() == []
    {
      r := mEnd == 0;
    }

    /** Destroys every element and keeps the storage. */
    method Clear()
      requires Valid()
      modifies this
      ensures Valid() && Repr == old(Repr) && mData == old(mData)
      ensures Elements() == []
    {
      mEnd := 0;
    }
  }
}
