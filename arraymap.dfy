/**
 * A set kept as a vector searched linearly: `insert` appends without looking for an
 * equal element, `find` returns the first equal element in insertion order.
 */
module ArrayMaps {
  import opened Common
  import opened Vectors

  class ArrayMap<T(0)> {
    const equal: (T, T) -> bool
    var mData: Vector<T>
    ghost var Repr: set<object>

    ghost predicate Valid()
      reads this, Repr
    {
      mData in Repr && Repr == {this} + mData.Repr &&
      this !in mData.Repr && mData.Valid()
    }

    /** The stored elements in insertion order. */
    ghost function Elements(): seq<T>
      reads this, Repr
      requires Valid()
    {
      mData.Elements()
    }

    constructor (equal: (T, T) -> bool)
      ensures Valid() && fresh(Repr)
      ensures Elements() == [] && this.equal == equal
    {
      this.equal := equal;
      mData := new Vector<T>();
      new;
      Repr := {this} + mData.Repr;
    }

    /**
     * Appends `value` whether or not an equal element is present; afterwards `find` of a
     * value that is equal to itself succeeds.
     */
    method Insert(value: T)
      requires Valid()
      modifies Repr
      ensures Valid() && fresh(Repr - old(Repr))
      ensures Elements() == old(Elements()) + [value]
      ensures equal(value, value) ==> FirstIndex(Elements(), value, equal) < |Elements()|
    {
      mData.PushBack(value);
      Repr := {this} + mData.Repr;
      if equal(value, value) {
        FirstIndexAfterAppend(old(Elements()), value, equal);
      }
    }

    /**
     * The position of the first element equal to `value`, or the size (the position of
     * `end()`) when there is none.
     */
    method Find(value: T) returns (r: nat)
      requires Valid()
      ensures r <= |Elements()|
      ensures r < |Elements()| ==> equal(Elements()[r], value)
      ensures r == |Elements()| <==> forall j :: 0 <= j < |Elements()| ==> !equal(Elements()[j], value)
      ensures r == FirstIndex(Elements(), value, equal)
    {
      var endVal := mData.Size();
      var current := 0;
      while current != endVal
        invariant current <= endVal == |Elements()|
        invariant forall j :: 0 <= j < current ==> !equal(Elements()[j], value)
      {
        var e := mData.Get(current);
        if equal(e, value) {
          FirstIndexIsFirst(Elements(), value, equal, current);
          return current;
        }
        current := current + 1;
      }
      FirstIndexIsFirst(Elements(), value, equal, current);
      r := endVal;
    }

    method Clear()
      requires Valid()
      modifies Repr
      ensures Valid() && Repr == old(Repr)
      ensures Elements() == []
    {
      mData.Clear();
    }

    method Size() returns (r: nat)
      requires Valid()
      ensures r == |Elements()|
    {
      r := mData.Size();
    }

    method Empty() returns (r: bool)
      requires Valid()
      ensures r <==> Elements() == []
    {
      r := mData.Empty();
    }
  }
}
