/**
 * The open-addressing hash set with Robin Hood probing and backward-shift deletion that
 * holds the visited, expanded and queued states of the searches.
 *
 * The slot array has a power-of-two `capacity`, so the source's `hash & (capacity - 1)`
 * is `hash % capacity`, which is how it is written here.  Positions (the source's
 * iterators) are slot indices, and `capacity` stands for `end()`.
 */
module HashMaps {
  import opened RobinHood

  /** `n` is a power of two. */
  ghost predicate IsPow2(n: nat)
  {
    n == 1 || (n >= 2 && n % 2 == 0 && IsPow2(n / 2))
  }

  lemma Pow2Eight()
    ensures IsPow2(8)
  {
    assert IsPow2(1);
    assert IsPow2(2);
    assert IsPow2(4);
  }

  /** Doubling a power of two gives a power of two. */
  lemma Pow2Double(n: nat)
    requires IsPow2(n)
    ensures IsPow2(2 * n)
  {
    assert (2 * n) / 2 == n;
  }

  /** Equal keys have equal hashes, as every hasher paired with an equality must ensure. */
  ghost predicate Consistent<T(!new)>(hash: T -> nat, equal: (T, T) -> bool)
  {
    forall a, b :: equal(a, b) ==> hash(a) == hash(b)
  }

  /** Some live slot of `s` holds a key equal to `value`. */
  ghost predicate Present<T>(s: seq<Node<T>>, equal: (T, T) -> bool, value: T)
  {
    exists i :: 0 <= i < |s| && s[i].dist != 0 && equal(s[i].value, value)
  }

  /** A key equal to `value` is present exactly when one of the live keys is equal to it. */
  lemma PresentLive<T>(s: seq<Node<T>>, equal: (T, T) -> bool, value: T)
    ensures Present(s, equal, value) <==> exists x :: x in LiveOf(s) && equal(x, value)
  {
    if Present(s, equal, value) {
      var i :| 0 <= i < |s| && s[i].dist != 0 && equal(s[i].value, value);
      LiveMember(s, s[i].value);
    }
    if exists x :: x in LiveOf(s) && equal(x, value) {
      var x :| x in LiveOf(s) && equal(x, value);
      LiveMember(s, x);
    }
  }

  /**
   * The state of a lookup in progress: slot `b` is probed at distance `p`, that is `p - 1`
   * slots past the ideal bucket of `value`; the empty slot `e` is not passed yet, and no
   * live key equal to `value` sits before `b` on the probe sequence.
   */
  ghost predicate Probe<T(!new)>(s: seq<Node<T>>, hash: T -> nat, equal: (T, T) -> bool, value: T, e: nat, b: nat, p: nat)
  {
    b < |s| && e < |s| && s[e].dist == 0 &&
    Table(s, hash) && Consistent(hash, equal) &&
    var h := Ideal(hash, value, |s|);
    p == Off(b, h, |s|) + 1 && Off(b, h, |s|) <= Off(e, h, |s|) &&
    forall i :: 0 <= i < |s| && s[i].dist != 0 && equal(s[i].value, value) ==> Off(i, h, |s|) >= Off(b, h, |s|)
  }

  /** A lookup starts at the ideal bucket with distance 1. */
  lemma ProbeStart<T(!new)>(s: seq<Node<T>>, hash: T -> nat, equal: (T, T) -> bool, value: T, e: nat)
    requires Table(s, hash) && Consistent(hash, equal) && e < |s| && s[e].dist == 0
    ensures Probe(s, hash, equal, value, e, Ideal(hash, value, |s|), 1)
  {
  }

  /** A slot at least as far from home that holds no match is passed over. */
  lemma ProbeStep<T(!new)>(s: seq<Node<T>>, hash: T -> nat, equal: (T, T) -> bool, value: T, e: nat, b: nat, p: nat)
    requires Probe(s, hash, equal, value, e, b, p) && s[b].dist >= p
    requires !(s[b].dist == p && equal(s[b].value, value))
    ensures b != e && Off(e, Next(b, |s|), |s|) < Off(e, b, |s|)
    ensures Probe(s, hash, equal, value, e, Next(b, |s|), p + 1)
  {
    var h := Ideal(hash, value, |s|);
    OffNext(b, h, |s|);
    if s[b].dist != 0 && equal(s[b].value, value) {
      assert false;
    }
  }

  /**
   * A slot whose distance is below the probe distance ends the lookup: a key equal to
   * `value` further along would break the Robin Hood ordering.
   */
  lemma ProbeStop<T(!new)>(s: seq<Node<T>>, hash: T -> nat, equal: (T, T) -> bool, value: T, e: nat, b: nat, p: nat)
    requires Probe(s, hash, equal, value, e, b, p) && s[b].dist < p
    ensures !Present(s, equal, value)
  {
    var n := |s|;
    var h := Ideal(hash, value, n);
    if Present(s, equal, value) {
      var i :| 0 <= i < n && s[i].dist != 0 && equal(s[i].value, value);
      assert hash(s[i].value) == hash(value);
      OffSplit(i, b, h, n);
      var k := Off(i, b, n);
      ChainForward(s, b, k);
      OffInjective(Pos(b, k, n), i, b, n);
      assert false;
    }
  }

  /** A fresh array of `n` slots, each marked empty: an empty table. */
  method NewSlots<T(0)>(n: nat, ghost hash: T -> nat) returns (a: array<Node<T>>)
    ensures fresh(a) && a.Length == n
    ensures forall k :: 0 <= k < n ==> a[k].dist == 0
    ensures Table(a[..], hash) && LiveOf(a[..]) == multiset{}
  {
    a := new Node<T>[n];
    var i := 0;
    while i != n
      invariant 0 <= i <= n == a.Length
      invariant forall k :: 0 <= k < i ==> a[k].dist == 0
    {
      a[i] := Node(0, a[i].value);
      i := i + 1;
    }
    AllEmpty(a[..], hash);
  }

  class HashMap<T(0,!new)> {
    const hash: T -> nat
    const equal: (T, T) -> bool
    var data: array<Node<T>>
    var capacity: nat
    var mSize: nat
    var loadThreshold: nat
    ghost var Repr: set<object>

    /**
     * Capacity is 0 before the first insert and afterwards a power of two of at least 8;
     * the load threshold is half the capacity; `mSize` counts at least the live keys (it
     * can count more after `clear`) and never exceeds the threshold; the slots satisfy the
     * Robin Hood invariants.
     */
    ghost predicate Valid()
      reads this, Repr
    {
      Repr == {this, data} &&
      Consistent(hash, equal) &&
      capacity == data.Length &&
      (capacity == 0 || (capacity >= 8 && IsPow2(capacity))) &&
      loadThreshold == capacity / 2 &&
      |LiveOf(data[..])| <= mSize <= loadThreshold &&
      Table(data[..], hash)
    }

    /** The live keys. */
    ghost function Contents(): multiset<T>
      reads this, Repr
      requires Valid()
    {
      LiveOf(data[..])
    }

    /** A new set has no slots at all. */
    constructor (hash: T -> nat, equal: (T, T) -> bool)
      requires Consistent(hash, equal)
      ensures Valid() && fresh(Repr)
      ensures Contents() == multiset{} && capacity == 0 && mSize == 0
      ensures this.hash == hash && this.equal == equal
    {
      this.hash := hash;
      this.equal := equal;
      data := new Node<T>[0];
      capacity := 0;
      mSize := 0;
      loadThreshold := 0;
      Repr := {this, data};
    }

    /** Writes one slot; the rest of the slot array is unchanged. */
    method Store(i: nat, x: Node<T>)
      requires i < data.Length
      modifies data
      ensures data[..] == old(data[..])[i := x]
    {
      data[i] := x;
    }

    /**
     * The probing part of `insert`: carries `value` forward from its ideal bucket, swapping
     * it with every resident whose distance is strictly smaller, until an empty slot takes
     * whatever is being carried.  There must be an empty slot.
     */
    method Place(value: T)
      requires capacity == data.Length > 0
      requires Table(data[..], hash) && |LiveOf(data[..])| < capacity
      modifies data
      ensures Table(data[..], hash)
      ensures LiveOf(data[..]) == old(LiveOf(data[..])) + multiset{value}
    {
      ghost var e := EmptySlot(data[..]);
      ghost var want := LiveOf(data[..]) + multiset{value};
      var v := value;
      var bucket: nat := hash(v) % capacity;
      var dist: nat := 1;
      CarryStart(data[..], hash, e, v);
      while true
        invariant Carry(data[..], hash, e, bucket, dist, v)
        invariant LiveOf(data[..]) + multiset{v} == want
        decreases Off(e, bucket, capacity)
      {
        ghost var s := data[..];
        if data[bucket].dist == 0 {
          CarryLand(s, hash, e, bucket, dist, v);
          Store(bucket, Node(dist, v));
          return;
        } else if data[bucket].dist < dist {
          CarrySwap(s, hash, e, bucket, dist, v);
          var resident := data[bucket];
          Store(bucket, Node(dist, v));
          v := resident.value;
          dist := resident.dist;
        } else {
          CarryPass(s, hash, e, bucket, dist, v);
        }
        bucket := Next(bucket, capacity);
        dist := dist + 1;
      }
    }
    /**
     * Moves every live key into a fresh, empty slot array of `newCapacity` slots (8 when
     * the set has no slots yet), recounting `mSize` from zero as the keys go back in.
     * The threshold test of the inner `insert` never fires here, because the old keys
     * fill at most a quarter of the new slots, so the reinsertion is the probing part.
     */
    method Rehash(newCapacity: nat)
      requires Valid() && newCapacity == 2 * capacity
      modifies this
      ensures Valid() && fresh(data) && Repr == {this, data}
      ensures capacity == (if old(capacity) == 0 then 8 else newCapacity)
      ensures Contents() == old(Contents()) && mSize == |old(Contents())|
    {
      var newCap := newCapacity;
      if capacity == 0 {
        newCap := 8;
        Pow2Eight();
      } else {
        Pow2Double(capacity);
      }
      var oldData := data;
      Reset(newCap);
      Reinsert(oldData);
    }

    /** The first half of `rehashNoChecks`: a fresh slot array of `newCap` empty slots. */
    method Reset(newCap: nat)
      modifies this
      ensures fresh(data) && data.Length == newCap == capacity
      ensures Table(data[..], hash) && LiveOf(data[..]) == multiset{}
      ensures mSize == 0 && loadThreshold == newCap / 2 && Repr == {this, data}
    {
      var newData := NewSlots(newCap, hash);
      capacity := newCap;
      data := newData;
      mSize := 0;
      loadThreshold := newCap / 2;
      Repr := {this, data};
    }

    /**
     * The second loop of `rehashNoChecks`: inserts every live key of `oldData`, slot by
     * slot, into the current (fresh) slots, counting each in `mSize`.
     */
    method Reinsert(oldData: array<Node<T>>)
      requires data != oldData && capacity == data.Length > 0
      requires Table(data[..], hash) && LiveOf(data[..]) == multiset{}
      requires 2 * |LiveOf(oldData[..])| <= capacity
      modifies this, data
      ensures capacity == old(capacity) && data == old(data) && loadThreshold == old(loadThreshold)
      ensures Repr == old(Repr) && oldData[..] == old(oldData[..])
      ensures Table(data[..], hash) && LiveOf(data[..]) == LiveOf(oldData[..])
      ensures mSize == old(mSize) + |LiveOf(oldData[..])|
    {
      assert oldData[..0] == [];
      var j := 0;
      while j != oldData.Length
        invariant 0 <= j <= oldData.Length && data != oldData
        invariant capacity == old(capacity) == data.Length && data == old(data)
        invariant loadThreshold == old(loadThreshold) && Repr == old(Repr)
        invariant oldData[..] == old(oldData[..])
        invariant Table(data[..], hash)
        invariant LiveOf(data[..]) == LiveOf(oldData[..j]) && mSize == old(mSize) + |LiveOf(oldData[..j])|
      {
        ReinsertOne(oldData, j);
        j := j + 1;
      }
      assert oldData[..oldData.Length] == oldData[..];
    }

    /** One step of `Reinsert`: the key in slot `j` of `oldData`, if live, is placed and counted. */
    method ReinsertOne(oldData: array<Node<T>>, j: nat)
      requires data != oldData && capacity == data.Length > 0 && j < oldData.Length
      requires Table(data[..], hash) && LiveOf(data[..]) == LiveOf(oldData[..j])
      requires 2 * |LiveOf(oldData[..])| <= capacity
      modifies this, data
      ensures capacity == old(capacity) && data == old(data) && loadThreshold == old(loadThreshold)
      ensures Repr == old(Repr) && oldData[..] == old(oldData[..])
      ensures Table(data[..], hash) && LiveOf(data[..]) == LiveOf(oldData[..j + 1])
      ensures mSize + |LiveOf(oldData[..j])| == old(mSize) + |LiveOf(oldData[..j + 1])|
    {
      ghost var s := oldData[..];
      LivePrefix(s, j);
      if oldData[j].dist != 0 {
        LivePrefixBound(s, j + 1);
        PlaceCounted(oldData[j].value);
        assert oldData[..] == s;
      }
    }

    /** `++mSize` followed by the probing part of `insert`, with an empty slot to land in. */
    method PlaceCounted(value: T)
      requires capacity == data.Length > 0
      requires Table(data[..], hash) && |LiveOf(data[..])| < capacity
      modifies this, data
      ensures capacity == old(capacity) && data == old(data) && loadThreshold == old(loadThreshold)
      ensures Repr == old(Repr) && mSize == old(mSize) + 1
      ensures Table(data[..], hash) && LiveOf(data[..]) == old(LiveOf(data[..])) + multiset{value}
    {
      mSize := mSize + 1;
      Place(value);
    }

    /**
     * Adds `value` without looking for an equal key: the live keys gain one copy and
     * `mSize` grows by one.  When `mSize` has reached the threshold the table is first
     * rehashed to twice its capacity (8 slots for the first insert).
     */
    method Insert(value: T)
      requires Valid()
      modifies Repr
      ensures Valid() && fresh(Repr - old(Repr))
      ensures Contents() == old(Contents()) + multiset{value}
      ensures old(mSize) == old(loadThreshold) ==>
        mSize == |old(Contents())| + 1 &&
        capacity == (if old(capacity) == 0 then 8 else 2 * old(capacity))
      ensures old(mSize) != old(loadThreshold) ==>
        mSize == old(mSize) + 1 && capacity == old(capacity) && data == old(data)
    {
      Grow();
      PlaceCounted(value);
    }

    /** The threshold test of `insert`: a full set is rehashed to twice its capacity. */
    method Grow()
      requires Valid()
      modifies Repr
      ensures Valid() && fresh(Repr - old(Repr)) && mSize < loadThreshold
      ensures Contents() == old(Contents())
      ensures old(mSize) == old(loadThreshold) ==>
        mSize == |old(Contents())| && capacity == (if old(capacity) == 0 then 8 else 2 * old(capacity))
      ensures old(mSize) != old(loadThreshold) ==>
        mSize == old(mSize) && capacity == old(capacity) && data == old(data)
    {
      if mSize == loadThreshold {
        Rehash(capacity * 2);
      }
    }

    /**
     * The slot of a live key equal to `value`, or `capacity` (the position of `end()`)
     * when there is none.  The probe starts at the ideal bucket and stops at the first
     * slot whose distance is smaller than the probe distance: no equal key lies beyond.
     */
    method Find(value: T) returns (r: nat)
      requires Valid()
      ensures r <= capacity
      ensures r < capacity ==> data[r].dist != 0 && equal(data[r].value, value)
      ensures r == capacity <==> !Present(data[..], equal, value)
      ensures r == capacity <==> forall x :: x in Contents() ==> !equal(x, value)
    {
      PresentLive(data[..], equal, value);
      if capacity == 0 {
        return 0;
      }
      ghost var s := data[..];
      ghost var e := EmptySlot(s);
      var bucket: nat := hash(value) % capacity;
      var dist: nat := 1;
      ProbeStart(s, hash, equal, value, e);
      while data[bucket].dist >= dist
        invariant Probe(s, hash, equal, value, e, bucket, dist)
        decreases Off(e, bucket, capacity)
      {
        if data[bucket].dist == dist && equal(data[bucket].value, value) {
          return bucket;
        }
        ProbeStep(s, hash, equal, value, e, bucket, dist);
        bucket := Next(bucket, capacity);
        dist := dist + 1;
      }
      ProbeStop(s, hash, equal, value, e, bucket, dist);
      r := capacity;
    }

    /** The key at a live slot, as the dereferenced position gives it. */
    method Get(pos: nat) returns (r: T)
      requires Valid() && pos < capacity && data[pos].dist != 0
      ensures r == data[pos].value && r in Contents()
    {
      r := data[pos].value;
      SlotIn(data[..], pos);
    }

    /**
     * Overwrites the key at a live slot with an equal key, as writing through a found
     * position does; equal keys hash alike, so the slot keeps its distance.
     */
    method SetAt(pos: nat, value: T)
      requires Valid() && pos < capacity && data[pos].dist != 0 && equal(data[pos].value, value)
      modifies data
      ensures Valid()
      ensures data[pos] == Node(old(data[pos].dist), value)
      ensures Contents() == old(Contents()) - multiset{old(data[pos].value)} + multiset{value}
    {
      ghost var s := data[..];
      var x := Node(data[pos].dist, value);
      assert hash(s[pos].value) == hash(value);
      WriteKeepsTable(s, hash, pos, x);
      LiveUpdate(s, pos, x);
      Store(pos, x);
    }

    /**
     * Removes the key at live slot `pos` by backward shift: each following key that is away
     * from its ideal bucket moves back one slot with its distance one smaller, until an
     * empty slot or a key at home; the last vacated slot becomes empty.
     */
    method Erase(pos: nat)
      requires Valid() && pos < capacity && data[pos].dist != 0
      modifies Repr
      ensures Valid() && Repr == old(Repr) && data == old(data)
      ensures capacity == old(capacity) && loadThreshold == old(loadThreshold)
      ensures mSize == old(mSize) - 1
      ensures old(data[pos].value) in old(Contents())
      ensures Contents() == old(Contents()) - multiset{old(data[pos].value)}
    {
      SlotIn(data[..], pos);
      mSize := mSize - 1;
      ShiftBack(pos);
    }

    /** The loop of `erase`: the backward shift that closes the hole left at `pos`. */
    method ShiftBack(pos: nat)
      requires capacity == data.Length >= 3 && pos < capacity && data[pos].dist != 0
      requires Table(data[..], hash) && |LiveOf(data[..])| < capacity
      modifies data
      ensures Table(data[..], hash)
      ensures LiveOf(data[..]) == old(LiveOf(data[..])) - multiset{old(data[pos].value)}
    {
      ghost var s0 := data[..];
      ghost var e := EmptySlot(s0);
      ghost var keys := LiveOf(s0) - multiset{data[pos].value};
      HoleStart(s0, hash, e, pos);
      var previousBucket := pos;
      var bucket := Next(previousBucket, capacity);
      while data[bucket].dist > 1
        invariant previousBucket < capacity && bucket == Next(previousBucket, capacity)
        invariant Hole(data[..], hash, e, previousBucket, keys)
        decreases Off(e, previousBucket, capacity)
      {
        ShiftOne(previousBucket, e, keys);
        previousBucket := bucket;
        bucket := Next(previousBucket, capacity);
      }
      ghost var s := data[..];
      HoleClose(s, hash, e, previousBucket, keys);
      Store(previousBucket, Node(0, data[previousBucket].value));
    }

    /** One step of the backward shift: the key after the hole moves back into it. */
    method ShiftOne(previousBucket: nat, ghost e: nat, ghost keys: multiset<T>)
      requires capacity == data.Length && previousBucket < capacity
      requires Hole(data[..], hash, e, previousBucket, keys) && data[Next(previousBucket, capacity)].dist > 1
      modifies data
      ensures var bucket := Next(previousBucket, capacity);
        Hole(data[..], hash, e, bucket, keys) && Off(e, bucket, capacity) < Off(e, previousBucket, capacity)
    {
      var bucket := Next(previousBucket, capacity);
      ghost var s := data[..];
      var newDistance := data[bucket].dist - 1;
      Store(previousBucket, Node(newDistance, data[bucket].value));
      HoleShift(s, data[..], hash, e, previousBucket, keys);
    }

    /**
     * Removes a live key equal to `value`, of which `w` is one: the key `Find` reaches,
     * which is `x`.
     */
    method EraseValue(value: T, ghost w: T) returns (ghost x: T)
      requires Valid()
      requires w in Contents() && equal(w, value)
      modifies Repr
      ensures Valid() && Repr == old(Repr) && mSize == old(mSize) - 1
      ensures x in old(Contents()) && equal(x, value) && Contents() == old(Contents()) - multiset{x}
    {
      PresentLive(data[..], equal, value);
      var pos := Find(value);
      x := data[pos].value;
      Erase(pos);
    }

    /** Empties every slot and keeps the capacity; `mSize` is left as it was. */
    method Clear()
      requires Valid()
      modifies data
      ensures Valid() && Contents() == multiset{}
      ensures forall k :: 0 <= k < capacity ==> data[k].dist == 0
      ensures mSize == old(mSize) && capacity == old(capacity)
    {
      var i := 0;
      while i != capacity
        invariant 0 <= i <= capacity == data.Length
        invariant forall k :: 0 <= k < i ==> data[k].dist == 0
      {
        if data[i].dist != 0 {
          data[i] := Node(0, data[i].value);
        }
        i := i + 1;
      }
      AllEmpty(data[..], hash);
    }

    /** The recorded size, which counts at least the live keys. */
    method Size() returns (r: nat)
      requires Valid()
      ensures r == mSize && |Contents()| <= r <= capacity / 2
    {
      r := mSize;
    }
  }

  /**
   * `clear` empties the slots but keeps the count: after one insert and a clear the set
   * holds nothing and `size()` still answers 1.
   */
  method ClearKeepsCount(x: nat) returns (size: nat, found: nat, capacity: nat)
    ensures size == 1 && found == capacity == 8
  {
    var m := new HashMap<nat>(k => k, (a, b) => a == b);
    m.Insert(x);
    m.Clear();
    size := m.Size();
    found := m.Find(x);
    capacity := m.capacity;
  }

  /** `insert` does not look for duplicates: inserting the same key twice counts it twice. */
  method InsertTwice(x: nat) returns (size: nat, found: nat, capacity: nat)
    ensures size == 2 && found < capacity == 8
  {
    var m := new HashMap<nat>(k => k, (a, b) => a == b);
    m.Insert(x);
    m.Insert(x);
    size := m.Size();
    found := m.Find(x);
    capacity := m.capacity;
    assert x in m.Contents();
  }
}
