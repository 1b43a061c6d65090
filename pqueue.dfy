/**
 * The binary-heap priority queue of A*, in the one form the searches instantiate: the
 * elements are search-node indices, the comparer is "greater f" on the nodes' `f`
 * values (so the queue is a min-queue by `f`), and each element is a location tracker
 * that records, in its node's `positionInQueue`, the heap slot it currently occupies.
 *
 * The nodes' `f` values are passed to each operation as the sequence `f` (indexed by
 * node): the comparer reads them, the queue never writes them.  The `positionInQueue`
 * fields are the map `pos` (node to slot), written exactly where the source copies or
 * assigns a tracker.  The backing vector is the sequence `data`.
 */
module PriorityQueues {
  import opened Common

  /** The comparer: node `a` has a strictly greater `f` than node `b`. */
  function Greater(f: seq<nat>, a: nat, b: nat): (r: bool)
    requires a < |f| && b < |f|
    ensures r <==> f[b] < f[a]
  {
    f[a] > f[b]
  }

  /** The heap slot above slot `i`. */
  function Parent(i: nat): (r: nat)
    requires i > 0
    ensures r < i && (i == 2 * r + 1 || i == 2 * r + 2)
  {
    (i - 1) / 2
  }

  /** Every queued node has an `f`. */
  ghost predicate Keyed(s: seq<nat>, f: seq<nat>)
  {
    forall i :: 0 <= i < |s| ==> s[i] < |f|
  }

  /** The heap invariant: no slot's parent compares greater than it. */
  ghost predicate Heap(s: seq<nat>, f: seq<nat>)
  {
    Keyed(s, f) &&
    forall i :: 0 < i < |s| ==> !Greater(f, s[Parent(i)], s[i])
  }

  /**
   * The heap invariant except that slot `k` may compare smaller than its parent; the
   * children of `k` still do not compare smaller than `k`'s parent.  `moveUp(k)` starts here.
   */
  ghost predicate UpHeap(s: seq<nat>, f: seq<nat>, k: nat)
  {
    Keyed(s, f) && k < |s| &&
    (forall i :: 0 < i < |s| && i != k ==> !Greater(f, s[Parent(i)], s[i])) &&
    (forall c :: 0 < c < |s| && k > 0 && Parent(c) == k ==> !Greater(f, s[Parent(k)], s[c]))
  }

  /**
   * The heap invariant except that slot `k` may compare greater than its children; the
   * children of `k` still do not compare smaller than `k`'s parent.  `moveDown(k)` starts here.
   */
  ghost predicate DownHeap(s: seq<nat>, f: seq<nat>, k: nat)
  {
    Keyed(s, f) &&
    (forall i :: 0 < i < |s| && Parent(i) != k ==> !Greater(f, s[Parent(i)], s[i])) &&
    (forall c :: 0 < c < |s| && k > 0 && Parent(c) == k ==> !Greater(f, s[Parent(k)], s[c]))
  }

  /** Every queued node's `positionInQueue` names the slot that holds it. */
  ghost predicate Tracked(s: seq<nat>, pos: map<nat, nat>)
  {
    forall i :: 0 <= i < |s| ==> s[i] in pos && pos[s[i]] == i
  }

  /** `s` with slots `i` and `j` exchanged. */
  function Swapped(s: seq<nat>, i: nat, j: nat): (r: seq<nat>)
    requires i < |s| && j < |s|
    ensures |r| == |s| && multiset(r) == multiset(s)
    ensures r[i] == s[j] && r[j] == s[i]
    ensures forall k :: 0 <= k < |s| && k != i && k != j ==> r[k] == s[k]
  {
    s[i := s[j]][j := s[i]]
  }

  /** The root of a heap is an element that no other element compares smaller than. */
  lemma {:induction false} RootIsMin(s: seq<nat>, f: seq<nat>, i: nat)
    requires Heap(s, f) && i < |s|
    ensures !Greater(f, s[0], s[i])
    decreases i
  {
    if i > 0 {
      RootIsMin(s, f, Parent(i));
    }
  }

  /** Exchanging two slots keeps every tracker pointing at its node's slot. */
  lemma TrackedSwap(s: seq<nat>, pos: map<nat, nat>, i: nat, j: nat)
    requires Tracked(s, pos) && i < |s| && j < |s|
    ensures Tracked(Swapped(s, i, j), pos[s[i] := j][s[j] := i])
  {
    var t := Swapped(s, i, j);
    var p := pos[s[i] := j][s[j] := i];
    forall k | 0 <= k < |t|
      ensures t[k] in p && p[t[k]] == k
    {
      if k != i && k != j {
        assert s[k] != s[i] && s[k] != s[j];
      }
    }
  }

  /** When `moveUp` swaps slot `k` with its greater parent, the disorder moves up to the parent. */
  lemma UpStep(s: seq<nat>, f: seq<nat>, k: nat)
    requires UpHeap(s, f, k) && k > 0 && Greater(f, s[Parent(k)], s[k])
    ensures UpHeap(Swapped(s, Parent(k), k), f, Parent(k))
  {
    var p := Parent(k);
    var t := Swapped(s, p, k);
    forall i | 0 < i < |t| && i != p
      ensures !Greater(f, t[Parent(i)], t[i])
    {
      if i != k && Parent(i) == p {
        assert !Greater(f, s[p], s[i]);
      }
    }
    forall c | 0 < c < |t| && p > 0 && Parent(c) == p
      ensures !Greater(f, t[Parent(p)], t[c])
    {
      assert !Greater(f, s[Parent(p)], s[p]);
      if c != k {
        assert !Greater(f, s[p], s[c]);
      }
    }
  }

  /** When `moveUp` stops (at the root, or under a parent that is not greater), the heap holds. */
  lemma UpDone(s: seq<nat>, f: seq<nat>, k: nat)
    requires UpHeap(s, f, k) && (k == 0 || !Greater(f, s[Parent(k)], s[k]))
    ensures Heap(s, f)
  {
  }

  /**
   * When `moveDown` swaps slot `k` with a child `c` that is smaller than it and not greater
   * than its sibling, the disorder moves down to `c`.
   */
  lemma DownStep(s: seq<nat>, f: seq<nat>, k: nat, c: nat)
    requires DownHeap(s, f, k) && (c == 2 * k + 1 || c == 2 * k + 2) && c < |s| && Greater(f, s[k], s[c])
    requires 2 * k + 1 < |s| ==> !Greater(f, s[c], s[2 * k + 1])
    requires 2 * k + 2 < |s| ==> !Greater(f, s[c], s[2 * k + 2])
    ensures DownHeap(Swapped(s, k, c), f, c)
  {
    var t := Swapped(s, k, c);
    assert Parent(c) == k;
    forall i | 0 < i < |t| && Parent(i) != c
      ensures !Greater(f, t[Parent(i)], t[i])
    {
      var p := Parent(i);
      if i == k {
        assert !Greater(f, s[Parent(k)], s[c]);
      } else if i == c {
        assert t[p] == s[c] && t[i] == s[k];
      } else if p == k {
        assert i == 2 * k + 1 || i == 2 * k + 2;
        assert t[p] == s[c] && t[i] == s[i];
      } else {
        assert p != c && t[p] == s[p] && t[i] == s[i];
      }
    }
    forall d | 0 < d < |t| && Parent(d) == c
      ensures !Greater(f, t[k], t[d])
    {
      assert d != k && d != c && t[d] == s[d] && t[k] == s[c];
    }
  }

  /** When no child of `k` is smaller than `k`, `moveDown` is done and the heap holds. */
  lemma DownDone(s: seq<nat>, f: seq<nat>, k: nat)
    requires DownHeap(s, f, k)
    requires 2 * k + 1 < |s| ==> !Greater(f, s[k], s[2 * k + 1])
    requires 2 * k + 2 < |s| ==> !Greater(f, s[k], s[2 * k + 2])
    ensures Heap(s, f)
  {
  }

  /** A heap whose keys improve at one node only is disordered at most at that node's slot. */
  lemma Improved(s: seq<nat>, f0: seq<nat>, f: seq<nat>, k: nat)
    requires Heap(s, f0) && k < |s| && |f| == |f0|
    requires forall n :: 0 <= n < |f| && n != s[k] ==> f[n] == f0[n]
    requires f[s[k]] <= f0[s[k]]
    requires forall i :: 0 <= i < |s| && i != k ==> s[i] != s[k]
    ensures UpHeap(s, f, k)
  {
    forall i | 0 < i < |s| && i != k
      ensures !Greater(f, s[Parent(i)], s[i])
    {
      assert !Greater(f0, s[Parent(i)], s[i]);
    }
    forall c | 0 < c < |s| && k > 0 && Parent(c) == k
      ensures !Greater(f, s[Parent(k)], s[c])
    {
      assert !Greater(f0, s[Parent(k)], s[k]);
      assert !Greater(f0, s[k], s[c]);
    }
  }

  /** Moving the last element into slot `index` and dropping the last slot. */
  function Removed(s: seq<nat>, index: nat): (r: seq<nat>)
    requires index < |s|
    ensures |r| == |s| - 1
    ensures index < |r| ==> r[index] == s[|s| - 1]
    ensures forall k :: 0 <= k < |r| && k != index ==> r[k] == s[k]
  {
    s[index := s[|s| - 1]][..|s| - 1]
  }

  /** Removing a slot removes exactly its element. */
  lemma RemovedPerm(s: seq<nat>, index: nat)
    requires index < |s|
    ensures multiset(Removed(s, index)) == multiset(s) - multiset{s[index]}
  {
    var last := |s| - 1;
    var r := Removed(s, index);
    assert s == s[..last] + [s[last]];
    if index < last {
      assert s[..last] == s[..index] + [s[index]] + s[index + 1..last];
      assert r == s[..index] + [s[last]] + s[index + 1..last];
    }
  }

  /** Moving the last element into slot `index` (its tracker following it) keeps every tracker in place. */
  lemma TrackedRemoved(s: seq<nat>, pos: map<nat, nat>, index: nat)
    requires Tracked(s, pos) && index < |s| - 1
    ensures Tracked(Removed(s, index), pos[s[|s| - 1] := index])
  {
    var t := Removed(s, index);
    var p := pos[s[|s| - 1] := index];
    forall k | 0 <= k < |t|
      ensures t[k] in p && p[t[k]] == k
    {
      if k != index {
        assert s[k] != s[|s| - 1];
      }
    }
  }

  /**
   * Replacing slot `index` of a heap by its last element and dropping the last slot leaves
   * the heap disordered at most at `index`, in whichever direction `erase` then repairs.
   */
  lemma RemovedHeap(s: seq<nat>, f: seq<nat>, index: nat)
    requires Heap(s, f) && index < |s| - 1
    ensures var t := Removed(s, index);
      (index == 0 || Greater(f, t[index], t[Parent(index)])) ==> DownHeap(t, f, index)
    ensures var t := Removed(s, index);
      index > 0 && !Greater(f, t[index], t[Parent(index)]) ==> UpHeap(t, f, index)
  {
    var t := Removed(s, index);
    forall c | 0 < c < |t| && index > 0 && Parent(c) == index
      ensures !Greater(f, t[Parent(index)], t[c])
    {
      assert !Greater(f, s[Parent(index)], s[index]);
      assert !Greater(f, s[index], s[c]);
    }
  }

  /** Giving keys to more nodes, without changing any existing key, keeps a heap a heap. */
  lemma HeapExtend(s: seq<nat>, f: seq<nat>, f': seq<nat>)
    requires Heap(s, f) && |f| <= |f'|
    requires forall n :: 0 <= n < |f| ==> f'[n] == f[n]
    ensures Heap(s, f')
  {
    forall i | 0 < i < |s|
      ensures !Greater(f', s[Parent(i)], s[i])
    {
      assert !Greater(f, s[Parent(i)], s[i]);
    }
  }

  /** A queued node's tracker names a slot that holds it. */
  lemma TrackedAt(s: seq<nat>, pos: map<nat, nat>, x: nat)
    requires Tracked(s, pos) && x in s
    ensures x in pos && pos[x] < |s| && s[pos[x]] == x
  {
    var i :| 0 <= i < |s| && s[i] == x;
  }

  class PriorityQueue {
    var data: seq<nat>
    var pos: map<nat, nat>

    /** The queue ordered by the nodes' `f`, with every tracker in place. */
    ghost predicate Valid(f: seq<nat>)
      reads this
    {
      Heap(data, f) && Tracked(data, pos)
    }

    constructor ()
      ensures data == [] && pos == map[]
    {
      data := [];
      pos := map[];
    }

    /** `std::swap` of two trackers: each node's position follows it. */
    method Swap(i: nat, j: nat)
      requires i < |data| && j < |data|
      modifies this
      ensures data == Swapped(old(data), i, j)
      ensures pos == old(pos)[old(data)[i] := j][old(data)[j] := i]
    {
      var a, b := data[i], data[j];
      data := data[i := b][j := a];
      pos := pos[a := j][b := i];
    }

    /** Swaps slot `index` with its parent while the parent compares greater. */
    method MoveUp(index: nat, f: seq<nat>)
      requires UpHeap(data, f, index) && Tracked(data, pos)
      modifies this
      ensures Valid(f)
      ensures multiset(data) == multiset(old(data)) && |data| == |old(data)|
      decreases index
    {
      if index != 0 {
        var parentIndex := (index - 1) / 2;
        if Greater(f, data[parentIndex], data[index]) {
          UpStep(data, f, index);
          TrackedSwap(data, pos, parentIndex, index);
          Swap(parentIndex, index);
          MoveUp(parentIndex, f);
          return;
        }
      }
      UpDone(data, f, index);
    }

    /** Swaps slot `index` with its smaller child while that child compares smaller. */
    method MoveDown(index: nat, f: seq<nat>)
      requires DownHeap(data, f, index) && Tracked(data, pos)
      modifies this
      ensures Valid(f)
      ensures multiset(data) == multiset(old(data)) && |data| == |old(data)|
      decreases |data| - index
    {
      var child1 := 2 * index + 1;
      var child2 := 2 * index + 2;
      if child1 < |data| {
        if child2 < |data| {
          if Greater(f, data[index], data[child1]) || Greater(f, data[index], data[child2]) {
            var child := if Greater(f, data[child2], data[child1]) then child1 else child2;
            SwapDown(index, child, f);
            MoveDown(child, f);
            return;
          }
        } else if Greater(f, data[index], data[child1]) {
          SwapDown(index, child1, f);
          DownDone(data, f, child1);
          return;
        }
      }
      DownDone(data, f, index);
    }

    /** One step of `moveDown`: slot `index` and its smallest child `child` change places. */
    method SwapDown(index: nat, child: nat, f: seq<nat>)
      requires DownHeap(data, f, index) && Tracked(data, pos)
      requires (child == 2 * index + 1 || child == 2 * index + 2) && child < |data|
      requires Greater(f, data[index], data[child])
      requires 2 * index + 1 < |data| ==> !Greater(f, data[child], data[2 * index + 1])
      requires 2 * index + 2 < |data| ==> !Greater(f, data[child], data[2 * index + 2])
      modifies this
      ensures DownHeap(data, f, child) && Tracked(data, pos)
      ensures multiset(data) == multiset(old(data)) && |data| == |old(data)|
    {
      DownStep(data, f, index, child);
      TrackedSwap(data, pos, index, child);
      Swap(index, child);
    }

    /** The front element: a node no queued node compares smaller than. */
    method Top(ghost f: seq<nat>) returns (r: nat)
      requires Valid(f) && |data| > 0
      ensures r == data[0] && r < |f|
      ensures forall i :: 0 <= i < |data| ==> !Greater(f, r, data[i])
    {
      r := data[0];
      forall i | 0 <= i < |data|
        ensures !Greater(f, r, data[i])
      {
        RootIsMin(data, f, i);
      }
    }

    method Empty() returns (r: bool)
      ensures r <==> |data| == 0
    {
      r := |data| == 0;
    }

    method Size() returns (r: nat)
      ensures r == |data|
    {
      r := |data|;
    }

    /** Appends `node` (its tracker records the new slot) and moves it up into place. */
    method Push(node: nat, f: seq<nat>)
      requires Valid(f) && node < |f| && node !in data
      modifies this
      ensures Valid(f)
      ensures multiset(data) == multiset(old(data)) + multiset{node}
      ensures |data| == |old(data)| + 1
    {
      var index := |data|;
      data := data + [node];
      pos := pos[node := index];
      MoveUp(index, f);
    }

    /**
     * Removes the front element: the last element is assigned to the root (its tracker
     * records slot 0) unless it is the only one, the last slot is dropped, and the root
     * moves down into place.
     */
    method Pop(f: seq<nat>)
      requires Valid(f) && |data| > 0
      modifies this
      ensures Valid(f)
      ensures multiset(data) == multiset(old(data)) - multiset{old(data)[0]}
      ensures |data| == |old(data)| - 1
    {
      var last := |data| - 1;
      ghost var s := data;
      if last != 0 {
        TrackedRemoved(data, pos, 0);
        pos := pos[data[last] := 0];
      }
      data := Removed(data, 0);
      RemovedPerm(s, 0);
      if last != 0 {
        RemovedHeap(s, f, 0);
      }
      MoveDown(0, f);
    }

    /**
     * Restores the order after the node at slot `index` had its `f` lowered: `f0` are the
     * keys before the change, under which the queue was ordered.
     */
    method PriorityIncreased(index: nat, f: seq<nat>, ghost f0: seq<nat>)
      requires Valid(f0) && index < |data| && |f| == |f0|
      requires forall n :: 0 <= n < |f| && n != data[index] ==> f[n] == f0[n]
      requires f[data[index]] <= f0[data[index]]
      modifies this
      ensures Valid(f)
      ensures multiset(data) == multiset(old(data))
    {
      Improved(data, f0, f, index);
      MoveUp(index, f);
    }

    /**
     * Removes the element at slot `index`: unless it is the last slot, the last element
     * takes its place and moves down (at the root, or when greater than its new parent) or
     * up (otherwise).
     */
    method Erase(index: nat, f: seq<nat>)
      requires Valid(f) && index < |data|
      modifies this
      ensures Valid(f)
      ensures multiset(data) == multiset(old(data)) - multiset{old(data)[index]}
      ensures |data| == |old(data)| - 1
    {
      var last := |data| - 1;
      ghost var s := data;
      if index != last {
        TrackedRemoved(data, pos, index);
        pos := pos[data[last] := index];
        data := Removed(data, index);
        RemovedPerm(s, index);
        RemovedHeap(s, f, index);
        Resettle(index, f);
      } else {
        data := Removed(data, index);
        RemovedPerm(s, index);
      }
    }

    /**
     * The element just moved into slot `index` moves down (at the root, or when greater
     * than its parent) or up (otherwise), whichever the heap order around it calls for.
     */
    method Resettle(index: nat, f: seq<nat>)
      requires Tracked(data, pos) && Keyed(data, f) && index < |data|
      requires index == 0 || Greater(f, data[index], data[Parent(index)]) ==> DownHeap(data, f, index)
      requires index > 0 && !Greater(f, data[index], data[Parent(index)]) ==> UpHeap(data, f, index)
      modifies this
      ensures Valid(f)
      ensures multiset(data) == multiset(old(data)) && |data| == |old(data)|
    {
      if index == 0 {
        MoveDown(index, f);
      } else {
        var parentIndex := (index - 1) / 2;
        if Greater(f, data[index], data[parentIndex]) {
          MoveDown(index, f);
        } else {
          MoveUp(index, f);
        }
      }
    }

    /** The first slot whose node `equal` relates to `node`, or the size when there is none. */
    method Find(node: nat, equal: (nat, nat) -> bool) returns (r: nat)
      ensures r == FirstIndex(data, node, equal)
      ensures r < |data| ==> equal(data[r], node)
      ensures r == |data| <==> forall j :: 0 <= j < |data| ==> !equal(data[j], node)
    {
      var start := 0;
      while start != |data|
        invariant start <= |data|
        invariant forall j :: 0 <= j < start ==> !equal(data[j], node)
      {
        if equal(data[start], node) {
          FirstIndexIsFirst(data, node, equal, start);
          return start;
        }
        start := start + 1;
      }
      FirstIndexIsFirst(data, node, equal, start);
      r := start;
    }
  }
}
