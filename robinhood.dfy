/**
 * The slot-level facts behind the Robin Hood hash set: index arithmetic on a ring of `n`
 * slots, the two shape invariants of the slot array, and the multiset of live keys.
 *
 * A slot holds a probe distance and a key.  Distance 0 marks an empty slot; distance
 * `k >= 1` says that the key sits `k - 1` slots past its ideal bucket `hash % n`.
 */
module RobinHood {

  datatype Node<T> = Node(dist: nat, value: T)

  /** The slot after `i`, wrapping at `n`. */
  function Next(i: nat, n: nat): (r: nat)
    requires i < n
    ensures r < n
  {
    if i + 1 == n then 0 else i + 1
  }

  /** The slot before `i`, wrapping at `n`. */
  function Prev(i: nat, n: nat): (r: nat)
    requires i < n
    ensures r < n && Next(r, n) == i
  {
    if i == 0 then n - 1 else i - 1
  }

  /** How many steps forward from `h` reach `i` on a ring of `n` slots. */
  function Off(i: nat, h: nat, n: nat): (r: nat)
    requires i < n && h < n
    ensures r < n
    ensures r == 0 <==> i == h
  {
    if i >= h then i - h else i + n - h
  }

  /** The slot `k` steps forward from `h`. */
  function Pos(h: nat, k: nat, n: nat): (r: nat)
    requires h < n && k < n
    ensures r < n && Off(r, h, n) == k
  {
    if h + k < n then h + k else h + k - n
  }

  lemma PrevNext(i: nat, n: nat)
    requires i < n
    ensures Prev(Next(i, n), n) == i
  {
  }

  /** Two slots at the same offset from `h` are the same slot. */
  lemma OffInjective(i: nat, j: nat, h: nat, n: nat)
    requires i < n && j < n && h < n && Off(i, h, n) == Off(j, h, n)
    ensures i == j
  {
  }

  /** Stepping forward from a slot that is short of `e` moves one offset further from `h`. */
  lemma OffNext(i: nat, h: nat, n: nat)
    requires i < n && h < n && Off(i, h, n) + 1 < n
    ensures Off(Next(i, n), h, n) == Off(i, h, n) + 1
  {
  }

  /** Offsets compose: going from `h` to `b` and then from `b` to `j`. */
  lemma OffSplit(j: nat, b: nat, h: nat, n: nat)
    requires j < n && b < n && h < n && Off(b, h, n) <= Off(j, h, n)
    ensures Off(j, b, n) == Off(j, h, n) - Off(b, h, n)
  {
  }

  /** The ideal bucket of key `v` in a table of `n` slots. */
  function Ideal<T>(hash: T -> nat, v: T, n: nat): (r: nat)
    requires n > 0
    ensures r < n
  {
    hash(v) % n
  }

  /** Every occupied slot records its true distance from its key's ideal bucket, plus one. */
  ghost predicate DistOK<T>(s: seq<Node<T>>, hash: T -> nat)
  {
    forall i :: 0 <= i < |s| && s[i].dist != 0 ==> s[i].dist == Off(i, Ideal(hash, s[i].value, |s|), |s|) + 1
  }

  /** Distances grow by at most one from a slot to the next: the Robin Hood ordering. */
  ghost predicate Ordered<T>(s: seq<Node<T>>)
  {
    forall i :: 0 <= i < |s| ==> s[Next(i, |s|)].dist <= s[i].dist + 1
  }

  ghost predicate Table<T>(s: seq<Node<T>>, hash: T -> nat)
  {
    DistOK(s, hash) && Ordered(s)
  }

  /** The key a slot contributes: none when it is empty. */
  function Slot<T>(x: Node<T>): (r: multiset<T>)
    ensures x.dist == 0 ==> r == multiset{}
    ensures x.dist != 0 ==> r == multiset{x.value}
  {
    if x.dist == 0 then multiset{} else multiset{x.value}
  }

  /** The keys stored in the occupied slots of `s`. */
  function LiveOf<T>(s: seq<Node<T>>): (r: multiset<T>)
    ensures |r| <= |s|
  {
    if s == [] then multiset{} else LiveOf(s[..|s| - 1]) + Slot(s[|s| - 1])
  }

  /** A key is live exactly when some occupied slot holds it. */
  lemma {:induction false} LiveMember<T>(s: seq<Node<T>>, x: T)
    ensures x in LiveOf(s) <==> exists j :: 0 <= j < |s| && s[j].dist != 0 && s[j].value == x
  {
    if s != [] {
      var t := s[..|s| - 1];
      LiveMember(t, x);
      if x in LiveOf(t) {
        var j :| 0 <= j < |t| && t[j].dist != 0 && t[j].value == x;
        assert s[j] == t[j];
      }
      if exists j :: 0 <= j < |s| && s[j].dist != 0 && s[j].value == x {
        var j :| 0 <= j < |s| && s[j].dist != 0 && s[j].value == x;
        if j < |t| {
          assert t[j] == s[j];
        }
      }
    }
  }

  /** Each slot's key is among the live keys. */
  lemma {:induction false} SlotIn<T>(s: seq<Node<T>>, i: nat)
    requires i < |s|
    ensures Slot(s[i]) <= LiveOf(s)
  {
    var t := s[..|s| - 1];
    if i < |t| {
      SlotIn(t, i);
      assert s[i] == t[i];
    }
  }

  /** Overwriting one slot removes that slot's key and adds the new slot's key. */
  lemma {:induction false} LiveUpdate<T>(s: seq<Node<T>>, i: nat, x: Node<T>)
    requires i < |s|
    ensures Slot(s[i]) <= LiveOf(s)
    ensures LiveOf(s[i := x]) == LiveOf(s) - Slot(s[i]) + Slot(x)
    decreases |s|, 1
  {
    SlotIn(s, i);
    if i == |s| - 1 {
      LiveUpdateLast(s, x);
    } else {
      LiveUpdateInner(s, i, x);
    }
  }

  /** `LiveUpdate` for the last slot. */
  lemma LiveUpdateLast<T>(s: seq<Node<T>>, x: Node<T>)
    requires s != []
    ensures LiveOf(s[|s| - 1 := x]) == LiveOf(s) - Slot(s[|s| - 1]) + Slot(x)
  {
    var t := s[..|s| - 1];
    var u := s[|s| - 1 := x];
    assert u[..|u| - 1] == t;
    assert LiveOf(u) == LiveOf(t) + Slot(x);
    assert LiveOf(s) == LiveOf(t) + Slot(s[|s| - 1]);
  }

  /** `LiveUpdate` for a slot before the last, by `LiveUpdate` on the slots before the last. */
  lemma {:induction false} LiveUpdateInner<T>(s: seq<Node<T>>, i: nat, x: Node<T>)
    requires i < |s| - 1
    ensures LiveOf(s[i := x]) == LiveOf(s) - Slot(s[i]) + Slot(x)
    decreases |s|, 0
  {
    var t := s[..|s| - 1];
    var u := s[i := x];
    var last := Slot(s[|s| - 1]);
    assert LiveOf(s) == LiveOf(t) + last;
    assert u[..|u| - 1] == t[i := x];
    assert u[|u| - 1] == s[|s| - 1];
    assert LiveOf(u) == LiveOf(t[i := x]) + last;
    LiveUpdate(t, i, x);
    assert s[i] == t[i];
    MultisetShuffle(LiveOf(t), Slot(s[i]), Slot(x), last);
  }

  lemma MultisetShuffle<T>(a: multiset<T>, b: multiset<T>, c: multiset<T>, d: multiset<T>)
    requires b <= a
    ensures a - b + c + d == a + d - b + c
  {
  }

  /** A table with fewer keys than slots has an empty slot. */
  lemma {:induction false} EmptySlot<T>(s: seq<Node<T>>) returns (e: nat)
    requires |LiveOf(s)| < |s|
    ensures e < |s| && s[e].dist == 0
  {
    var t := s[..|s| - 1];
    if s[|s| - 1].dist == 0 {
      e := |s| - 1;
    } else {
      e := EmptySlot(t);
      assert s[e] == t[e];
    }
  }

  /** Going `k` slots forward raises the distance by at most `k`. */
  lemma {:induction false} ChainForward<T>(s: seq<Node<T>>, b: nat, k: nat)
    requires Ordered(s) && b < |s| && k < |s|
    ensures s[Pos(b, k, |s|)].dist <= s[b].dist + k
  {
    if k > 0 {
      ChainForward(s, b, k - 1);
      assert Pos(b, k, |s|) == Next(Pos(b, k - 1, |s|), |s|);
    }
  }

  /**
   * Writing `x` at slot `b` keeps both invariants when `x` records its true distance and
   * fits the ordering with both neighbours.
   */
  lemma WriteKeepsTable<T>(s: seq<Node<T>>, hash: T -> nat, b: nat, x: Node<T>)
    requires Table(s, hash) && b < |s|
    requires x.dist != 0 ==> x.dist == Off(b, Ideal(hash, x.value, |s|), |s|) + 1
    requires s[Next(b, |s|)].dist <= x.dist + 1
    requires x.dist <= s[Prev(b, |s|)].dist + 1
    ensures Table(s[b := x], hash)
  {
    var t := s[b := x];
    forall i | 0 <= i < |t|
      ensures t[Next(i, |t|)].dist <= t[i].dist + 1
    {
      if i == Prev(b, |s|) && i != b {
        assert Next(i, |s|) == b;
      }
    }
  }

  /**
   * The state of an insertion in progress: key `v` is carried at slot `b`, `p - 1` slots
   * past its ideal bucket; slot `e` is empty and not passed yet, and the carried key fits
   * the ordering after slot `b`'s predecessor.
   */
  ghost predicate Carry<T>(s: seq<Node<T>>, hash: T -> nat, e: nat, b: nat, p: nat, v: T)
  {
    b < |s| && e < |s| && 1 <= p <= |s| && s[e].dist == 0 &&
    p == Off(b, Ideal(hash, v, |s|), |s|) + 1 &&
    (b == e || p <= Off(b, e, |s|)) &&
    (p == 1 || s[Prev(b, |s|)].dist + 1 >= p) &&
    Table(s, hash)
  }

  /** The insertion starts at the key's ideal bucket with distance 1. */
  lemma CarryStart<T>(s: seq<Node<T>>, hash: T -> nat, e: nat, v: T)
    requires Table(s, hash) && e < |s| && s[e].dist == 0
    ensures Carry(s, hash, e, Ideal(hash, v, |s|), 1, v)
  {
  }

  /** A resident at least as far from home is passed over. */
  lemma CarryPass<T>(s: seq<Node<T>>, hash: T -> nat, e: nat, b: nat, p: nat, v: T)
    requires Carry(s, hash, e, b, p, v) && s[b].dist >= p
    ensures b != e && Off(e, Next(b, |s|), |s|) < Off(e, b, |s|)
    ensures Carry(s, hash, e, Next(b, |s|), p + 1, v)
  {
    OffNext(b, Ideal(hash, v, |s|), |s|);
    PrevNext(b, |s|);
  }

  /**
   * A resident closer to home is displaced: the carried key takes its slot and the
   * resident is carried on from the next slot.
   */
  lemma CarrySwap<T>(s: seq<Node<T>>, hash: T -> nat, e: nat, b: nat, p: nat, v: T)
    requires Carry(s, hash, e, b, p, v) && 0 < s[b].dist < p
    ensures b != e && Off(e, Next(b, |s|), |s|) < Off(e, b, |s|)
    ensures Carry(s[b := Node(p, v)], hash, e, Next(b, |s|), s[b].dist + 1, s[b].value)
    ensures LiveOf(s[b := Node(p, v)]) + multiset{s[b].value} == LiveOf(s) + multiset{v}
  {
    var t := s[b := Node(p, v)];
    WriteKeepsTable(s, hash, b, Node(p, v));
    LiveUpdate(s, b, Node(p, v));
    OffNext(b, Ideal(hash, s[b].value, |s|), |s|);
    PrevNext(b, |s|);
    assert t[Prev(Next(b, |s|), |s|)] == Node(p, v);
  }

  /** An empty slot takes the carried key, which completes the insertion. */
  lemma CarryLand<T>(s: seq<Node<T>>, hash: T -> nat, e: nat, b: nat, p: nat, v: T)
    requires Carry(s, hash, e, b, p, v) && s[b].dist == 0
    ensures Table(s[b := Node(p, v)], hash)
    ensures LiveOf(s[b := Node(p, v)]) == LiveOf(s) + multiset{v}
  {
    WriteKeepsTable(s, hash, b, Node(p, v));
    LiveUpdate(s, b, Node(p, v));
  }

  /** Stepping back from a slot past `h` moves one offset closer to `h`. */
  lemma OffPrev(i: nat, h: nat, n: nat)
    requires i < n && h < n && Off(i, h, n) >= 1
    ensures Off(Prev(i, n), h, n) == Off(i, h, n) - 1
  {
  }

  /** The live keys of a prefix grow by the next slot's key. */
  lemma LivePrefix<T>(s: seq<Node<T>>, j: nat)
    requires j < |s|
    ensures LiveOf(s[..j + 1]) == LiveOf(s[..j]) + Slot(s[j])
  {
    assert s[..j + 1][..j] == s[..j];
  }

  /** A prefix holds no more keys than the whole array. */
  lemma {:induction false} LivePrefixBound<T>(s: seq<Node<T>>, j: nat)
    requires j <= |s|
    ensures |LiveOf(s[..j])| <= |LiveOf(s)|
    decreases |s|
  {
    if j < |s| {
      var u := s[..|s| - 1];
      assert u[..j] == s[..j];
      LivePrefixBound(u, j);
      assert |LiveOf(u)| <= |LiveOf(s)|;
    } else {
      assert s[..j] == s;
    }
  }

  /** An array of empty slots is a valid table with no keys. */
  lemma {:induction false} AllEmpty<T>(s: seq<Node<T>>, hash: T -> nat)
    requires forall i :: 0 <= i < |s| ==> s[i].dist == 0
    ensures Table(s, hash) && LiveOf(s) == multiset{}
  {
    if s != [] {
      AllEmpty(s[..|s| - 1], hash);
    }
  }

  /**
   * The state of a backward-shift deletion in progress: slot `prev` is the hole (its old
   * contents are stale), every other slot keeps the invariants, and the slot after the
   * hole may move back into it.
   */
  ghost predicate Hole<T>(s: seq<Node<T>>, hash: T -> nat, e: nat, prev: nat, keys: multiset<T>)
  {
    |s| >= 3 && prev < |s| && e < |s| && e != prev && s[e].dist == 0 && s[prev].dist >= 1 &&
    var t := s[prev := Node(0, s[prev].value)];
    DistOK(t, hash) &&
    (forall i :: 0 <= i < |t| && i != prev ==> t[Next(i, |t|)].dist <= t[i].dist + 1) &&
    s[Next(prev, |s|)].dist <= s[prev].dist + 1 &&
    s[prev].dist <= t[Prev(prev, |s|)].dist + 1 &&
    LiveOf(t) == keys
  }

  /** Deleting the key in an occupied slot opens a hole there. */
  lemma HoleStart<T>(s: seq<Node<T>>, hash: T -> nat, e: nat, pos: nat)
    requires Table(s, hash) && |s| >= 3 && pos < |s| && s[pos].dist != 0 && e < |s| && s[e].dist == 0
    ensures Hole(s, hash, e, pos, LiveOf(s) - multiset{s[pos].value})
  {
    var t := s[pos := Node(0, s[pos].value)];
    HoleStartDist(s, t, hash, pos);
    HoleStartOrder(s, t, pos);
    HoleStartKeys(s, t, pos);
    var p := Prev(pos, |s|);
    assert t[p] == s[p];
    assert s[Next(p, |s|)].dist <= s[p].dist + 1;
    assert s[Next(pos, |s|)].dist <= s[pos].dist + 1;
    HoleOf(s, t, hash, e, pos, LiveOf(s) - multiset{s[pos].value});
  }

  /** `Hole` from its parts, with the array `t` that has the hole emptied. */
  lemma HoleOf<T>(s: seq<Node<T>>, t: seq<Node<T>>, hash: T -> nat, e: nat, prev: nat, keys: multiset<T>)
    requires |s| >= 3 && prev < |s| && e < |s| && e != prev && s[e].dist == 0 && s[prev].dist >= 1
    requires t == s[prev := Node(0, s[prev].value)]
    requires DistOK(t, hash)
    requires forall i :: 0 <= i < |t| && i != prev ==> t[Next(i, |t|)].dist <= t[i].dist + 1
    requires s[Next(prev, |s|)].dist <= s[prev].dist + 1
    requires s[prev].dist <= t[Prev(prev, |s|)].dist + 1
    requires LiveOf(t) == keys
    ensures Hole(s, hash, e, prev, keys)
  {
  }

  /** Emptying an occupied slot removes its key from the live keys. */
  lemma HoleStartKeys<T>(s: seq<Node<T>>, t: seq<Node<T>>, pos: nat)
    requires pos < |s| && s[pos].dist != 0 && t == s[pos := Node(0, s[pos].value)]
    ensures LiveOf(t) == LiveOf(s) - multiset{s[pos].value}
  {
    LiveUpdate(s, pos, Node(0, s[pos].value));
  }

  /** Emptying a slot keeps every other slot at its recorded distance. */
  lemma HoleStartDist<T>(s: seq<Node<T>>, t: seq<Node<T>>, hash: T -> nat, pos: nat)
    requires DistOK(s, hash) && pos < |s| && t == s[pos := Node(0, s[pos].value)]
    ensures DistOK(t, hash)
  {
    forall i | 0 <= i < |t| && t[i].dist != 0
      ensures t[i].dist == Off(i, Ideal(hash, t[i].value, |t|), |t|) + 1
    {
      assert t[i] == s[i];
    }
  }

  /** Emptying a slot keeps the ordering between every other slot and its successor. */
  lemma HoleStartOrder<T>(s: seq<Node<T>>, t: seq<Node<T>>, pos: nat)
    requires Ordered(s) && pos < |s| && t == s[pos := Node(0, s[pos].value)]
    ensures forall i :: 0 <= i < |t| && i != pos ==> t[Next(i, |t|)].dist <= t[i].dist + 1
  {
    forall i | 0 <= i < |t| && i != pos
      ensures t[Next(i, |t|)].dist <= t[i].dist + 1
    {
      assert t[i] == s[i];
    }
  }

  /** The key after the hole, away from its ideal bucket, moves back into the hole. */
  lemma HoleShift<T>(s: seq<Node<T>>, s2: seq<Node<T>>, hash: T -> nat, e: nat, prev: nat, keys: multiset<T>)
    requires Hole(s, hash, e, prev, keys) && s[Next(prev, |s|)].dist > 1
    requires s2 == s[prev := Node(s[Next(prev, |s|)].dist - 1, s[Next(prev, |s|)].value)]
    ensures var b := Next(prev, |s|);
      b != e && Off(e, b, |s|) < Off(e, prev, |s|) && Hole(s2, hash, e, b, keys)
  {
    var n := |s|;
    var b := Next(prev, n);
    var t2 := s2[b := Node(0, s2[b].value)];
    PrevNext(prev, n);
    ShiftDist(s, s2, t2, hash, e, prev, keys);
    ShiftOrder(s, s2, t2, hash, e, prev, keys);
    ShiftKeys(s, s2, t2, prev, keys);
    assert s2[Next(b, n)] == s[Next(b, n)];
  }

  /** After the shift, every key left in place still sits at its recorded distance. */
  lemma ShiftDist<T>(s: seq<Node<T>>, s2: seq<Node<T>>, t2: seq<Node<T>>, hash: T -> nat, e: nat, prev: nat, keys: multiset<T>)
    requires Hole(s, hash, e, prev, keys) && s[Next(prev, |s|)].dist > 1
    requires s2 == s[prev := Node(s[Next(prev, |s|)].dist - 1, s[Next(prev, |s|)].value)]
    requires t2 == s2[Next(prev, |s|) := Node(0, s2[Next(prev, |s|)].value)]
    ensures DistOK(t2, hash)
  {
    var n := |s|;
    var b := Next(prev, n);
    var t := s[prev := Node(0, s[prev].value)];
    PrevNext(prev, n);
    assert t[b] == s[b];
    OffPrev(b, Ideal(hash, s[b].value, n), n);
    forall i | 0 <= i < n && t2[i].dist != 0
      ensures t2[i].dist == Off(i, Ideal(hash, t2[i].value, n), n) + 1
    {
      if i != prev {
        assert t2[i] == t[i];
      }
    }
  }

  /** After the shift, the Robin Hood ordering holds around the new hole. */
  lemma ShiftOrder<T>(s: seq<Node<T>>, s2: seq<Node<T>>, t2: seq<Node<T>>, hash: T -> nat, e: nat, prev: nat, keys: multiset<T>)
    requires Hole(s, hash, e, prev, keys) && s[Next(prev, |s|)].dist > 1
    requires s2 == s[prev := Node(s[Next(prev, |s|)].dist - 1, s[Next(prev, |s|)].value)]
    requires t2 == s2[Next(prev, |s|) := Node(0, s2[Next(prev, |s|)].value)]
    ensures var b := Next(prev, |s|);
      (forall i :: 0 <= i < |t2| && i != b ==> t2[Next(i, |t2|)].dist <= t2[i].dist + 1) &&
      s2[b].dist <= t2[Prev(b, |s|)].dist + 1
  {
    var n := |s|;
    var b := Next(prev, n);
    var t := s[prev := Node(0, s[prev].value)];
    PrevNext(prev, n);
    forall i | 0 <= i < n && i != b
      ensures t2[Next(i, n)].dist <= t2[i].dist + 1
    {
      if i == Prev(prev, n) {
        assert Next(i, n) == prev;
      } else if i != prev {
        assert t2[i] == t[i];
        assert Next(i, n) != prev;
        assert Next(i, n) != b;
        assert t2[Next(i, n)] == t[Next(i, n)];
      }
    }
  }

  /** After the shift, the live keys are still `keys`. */
  lemma ShiftKeys<T>(s: seq<Node<T>>, s2: seq<Node<T>>, t2: seq<Node<T>>, prev: nat, keys: multiset<T>)
    requires |s| >= 3 && prev < |s| && s[Next(prev, |s|)].dist > 1
    requires LiveOf(s[prev := Node(0, s[prev].value)]) == keys
    requires s2 == s[prev := Node(s[Next(prev, |s|)].dist - 1, s[Next(prev, |s|)].value)]
    requires t2 == s2[Next(prev, |s|) := Node(0, s2[Next(prev, |s|)].value)]
    ensures LiveOf(t2) == keys
  {
    var n := |s|;
    var b := Next(prev, n);
    var t := s[prev := Node(0, s[prev].value)];
    var x := Node(s[b].dist - 1, s[b].value);
    var y := Node(0, s[b].value);
    PrevNext(prev, n);
    ShiftLive(t, prev, b, x, y);
    assert t[prev := x] == s2;
    assert s2[b] == s[b];
  }

  /** Moving the key at `b` into the empty slot `prev` and emptying `b` keeps the live keys. */
  lemma ShiftLive<T>(t: seq<Node<T>>, prev: nat, b: nat, x: Node<T>, y: Node<T>)
    requires prev < |t| && b < |t| && prev != b
    requires t[prev].dist == 0 && t[b].dist != 0
    requires x.dist != 0 && x.value == t[b].value && y.dist == 0
    ensures LiveOf(t[prev := x][b := y]) == LiveOf(t)
  {
    var u := t[prev := x];
    LiveFill(t, prev, x);
    LiveEmpty(u, b, y);
    Cancel(LiveOf(u[b := y]), LiveOf(t), multiset{x.value});
  }

  lemma Cancel<T>(a: multiset<T>, b: multiset<T>, c: multiset<T>)
    requires a + c == b + c
    ensures a == b
  {
    assert a == a + c - c;
  }

  /** Filling an empty slot adds its key. */
  lemma LiveFill<T>(s: seq<Node<T>>, i: nat, x: Node<T>)
    requires i < |s| && s[i].dist == 0 && x.dist != 0
    ensures LiveOf(s[i := x]) == LiveOf(s) + multiset{x.value}
  {
    LiveUpdate(s, i, x);
  }

  /** Emptying an occupied slot removes its key. */
  lemma LiveEmpty<T>(s: seq<Node<T>>, i: nat, x: Node<T>)
    requires i < |s| && s[i].dist != 0 && x.dist == 0
    ensures LiveOf(s[i := x]) + multiset{s[i].value} == LiveOf(s)
  {
    LiveUpdate(s, i, x);
  }

  /** When the key after the hole is empty or at home, emptying the hole restores the table. */
  lemma HoleClose<T>(s: seq<Node<T>>, hash: T -> nat, e: nat, prev: nat, keys: multiset<T>)
    requires Hole(s, hash, e, prev, keys) && s[Next(prev, |s|)].dist <= 1
    ensures Table(s[prev := Node(0, s[prev].value)], hash)
    ensures LiveOf(s[prev := Node(0, s[prev].value)]) == keys
  {
  }
}
