/**
 * The stack-ordered slab allocator that owns every search node.  Memory comes in blocks of
 * `blockSize` element slots, linked head first; `mCurrent` bumps through the head block and
 * `mEnd` is one past its last slot.  Pointers are (block, slot) pairs measured in elements:
 * `At(b, i)` is the address of slot `i` of block `b`, and `At(b, blockSize)` is the block's end.
 *
 * Blocks are named by the order in which they were obtained from the backing allocator, and
 * that allocator is given a budget of blocks: asking for more fails, as `std::bad_alloc` does.
 */
module SlabAllocators {

  datatype Ptr = Null | At(block: nat, index: nat)

  /** The first `k` slots of block `id`. */
  function BlockSlots(id: nat, k: nat): (r: seq<Ptr>)
    ensures |r| == k
    ensures forall i :: 0 <= i < k ==> r[i] == At(id, i)
  {
    seq(k, i requires 0 <= i < k => At(id, i))
  }

  /** Every slot of the blocks `ids`, listed from the last (oldest) block to the first. */
  function FullSlots(ids: seq<nat>, blockSize: nat): (r: seq<Ptr>)
    ensures forall p :: p in r ==> p.At? && p.block in ids && p.index < blockSize
  {
    if ids == [] then [] else FullSlots(ids[1..], blockSize) + BlockSlots(ids[0], blockSize)
  }

  /** The block names `0 .. n - 1`. */
  function Range(n: nat): (r: seq<nat>)
    ensures |r| == n
    ensures forall i :: 0 <= i < n ==> r[i] == i
  {
    seq(n, i requires 0 <= i < n => i)
  }

  /**
   * The slots in use when `ids` is the block list and `cur` the bump pointer: every slot of
   * each block below the head, oldest first, then the head's slots below `cur`.
   */
  function HandedOf(ids: seq<nat>, cur: Ptr, blockSize: nat): seq<Ptr>
  {
    if ids == [] || cur.Null? then [] else FullSlots(ids[1..], blockSize) + BlockSlots(ids[0], cur.index)
  }

  /**
   * Bumping the pointer in the head block hands out exactly the slot it pointed at, a slot
   * that was not in use.
   */
  lemma HandedBump(ids: seq<nat>, k: nat, blockSize: nat, bound: nat)
    requires ids != [] && Newest(ids, bound)
    ensures HandedOf(ids, At(ids[0], k + 1), blockSize) == HandedOf(ids, At(ids[0], k), blockSize) + [At(ids[0], k)]
    ensures At(ids[0], k) !in HandedOf(ids, At(ids[0], k), blockSize)
  {
    BlockSlotsGrow(ids[0], k);
    var below := FullSlots(ids[1..], blockSize);
    assert below + (BlockSlots(ids[0], k) + [At(ids[0], k)]) == below + BlockSlots(ids[0], k) + [At(ids[0], k)];
    HandedFresh(ids, k, blockSize, bound);
  }

  /** The slot the bump pointer points at is not in use yet. */
  lemma HandedFresh(ids: seq<nat>, k: nat, blockSize: nat, bound: nat)
    requires ids != [] && Newest(ids, bound)
    ensures At(ids[0], k) !in FullSlots(ids[1..], blockSize) + BlockSlots(ids[0], k)
  {
    NewestHead(ids, bound);
    var below := FullSlots(ids[1..], blockSize);
    assert At(ids[0], k) !in below;
    assert At(ids[0], k) !in BlockSlots(ids[0], k);
  }

  /** A new empty head block over a used-up list hands out nothing new. */
  lemma HandedNewBlock(ids: seq<nat>, n: nat, blockSize: nat)
    ensures HandedOf([n] + ids, At(n, 0), blockSize) == HandedOf(ids, if ids == [] then Null else At(ids[0], blockSize), blockSize)
  {
    assert ([n] + ids)[1..] == ids;
    if ids != [] {
      FullSlotsUnfold(ids, blockSize);
    }
  }

  /** Every block obtained so far is listed or freed, and exactly once. */
  ghost predicate Accounted(ids: seq<nat>, freed: seq<nat>, n: nat)
  {
    multiset(ids) + multiset(freed) == multiset(Range(n))
  }

  /** The block at position `i` was obtained after the block at position `j`. */
  ghost predicate Newer(ids: seq<nat>, i: nat, j: nat)
    requires i < |ids| && j < |ids|
  {
    ids[i] > ids[j]
  }

  /** Block names in the list strictly decrease from head to tail: the head is the newest. */
  ghost predicate Newest(ids: seq<nat>, bound: nat)
  {
    (forall i :: 0 <= i < |ids| ==> ids[i] < bound) &&
    (forall i, j :: 0 <= i < j < |ids| ==> Newer(ids, i, j))
  }

  /**
   * What a step of a search does to the slots in use when it adds `added` nodes: the slots
   * in use `before` stay in use, in order, and one slot more is in use for each node added.
   * A successor that is built and then dropped leaves the slots in use as they were.
   */
  ghost predicate SlotsAdded(before: seq<Ptr>, after: seq<Ptr>, added: int)
  {
    before <= after && |after| == |before| + added
  }

  /** Two steps in a row add the slots each of them adds. */
  lemma SlotsAddedJoin(a: seq<Ptr>, b: seq<Ptr>, c: seq<Ptr>, m: int, n: int)
    requires SlotsAdded(a, b, m) && SlotsAdded(b, c, n)
    ensures SlotsAdded(a, c, m + n)
  {
    assert c[..|a|] == b[..|a|];
  }

  class StackSlabAllocator {
    /** Slots per block. */
    const blockSize: nat
    /** How many blocks the backing allocator can hand out. */
    const budget: nat

    /** The block list, head first. */
    var mData: seq<nat>
    var mEnd: Ptr
    var mCurrent: Ptr
    /** How many blocks have been obtained so far; the next block is named by this count. */
    var obtained: nat
    /** The blocks given back to the backing allocator, in order. */
    ghost var freed: seq<nat>

    /**
     * Everything but the bound on the head's bump pointer: the list holds the newest blocks,
     * every block obtained is either in the list or freed, exactly once, and `mEnd` is the
     * end of the head block (both pointers are null when there is no block).
     */
    ghost predicate Shape()
      reads this
    {
      blockSize > 0 &&
      |mData| <= obtained <= budget &&
      Newest(mData, obtained) &&
      Accounted(mData, freed, obtained) &&
      (mData == [] ==> mEnd == Null && mCurrent == Null) &&
      (mData != [] ==> mEnd == At(mData[0], blockSize) && mCurrent.At? && mCurrent.block == mData[0])
    }

    ghost predicate Valid()
      reads this
    {
      Shape() && (mData != [] ==> mCurrent.index <= blockSize)
    }

    /**
     * The slots the allocator regards as in use, oldest first: every slot of each block
     * below the head, then the head's slots below `mCurrent`.
     */
    ghost function Handed(): seq<Ptr>
      reads this
      requires Valid()
    {
      HandedOf(mData, mCurrent, blockSize)
    }

    constructor (blockSize: nat, budget: nat)
      requires blockSize > 0
      ensures Valid() && Handed() == [] && mData == [] && freed == [] && obtained == 0
      ensures this.blockSize == blockSize && this.budget == budget
    {
      this.blockSize := blockSize;
      this.budget := budget;
      mData := [];
      mEnd := Null;
      mCurrent := Null;
      obtained := 0;
      freed := [];
      new;
      assert Range(0) == [];
    }

    /**
     * Obtains a new block and makes it the head, with `mCurrent` at its first slot; it is
     * only called when the head is used up (or absent).  `ok` is false when the backing
     * allocator has no block left, and then nothing changes.
     */
    method IncreaseSize() returns (ok: bool)
      requires Valid() && mCurrent == mEnd
      modifies this
      ensures Valid() && freed == old(freed)
      ensures ok <==> old(obtained) < budget
      ensures ok ==> mData == [old(obtained)] + old(mData) && obtained == old(obtained) + 1
      ensures ok ==> mCurrent == At(old(obtained), 0) && mEnd == At(old(obtained), blockSize)
      ensures ok ==> Handed() == old(Handed())
      ensures !ok ==> mData == old(mData) && mCurrent == old(mCurrent) && mEnd == old(mEnd) && obtained == old(obtained)
    {
      ok := obtained < budget;
      if ok {
        var newData := obtained;
        AccountedPush(mData, freed, newData);
        NewestPush(mData, newData);
        HandedNewBlock(mData, newData, blockSize);
        obtained := obtained + 1;
        mData := [newData] + mData;
        mEnd := At(newData, blockSize);
        mCurrent := At(newData, 0);
        assert mData[1..] == old(mData);
      }
    }

    /**
     * Frees the head block, which holds no slot in use, and makes the next block the head,
     * leaving `mCurrent` one slot past that block's end.  The head must have a successor.
     */
    method DecreasedSize()
      requires Valid() && |mData| >= 2 && mCurrent.index == 0
      modifies this
      ensures Shape() && obtained == old(obtained)
      ensures freed == old(freed) + [old(mData)[0]]
      ensures mData == old(mData)[1..]
      ensures mEnd == At(mData[0], blockSize) && mCurrent == At(mData[0], blockSize + 1)
    {
      var temp := mData[0];
      NewestTail(mData, obtained);
      mData := mData[1..];
      freed := freed + [temp];
      assert old(mData) == [temp] + mData;
      mEnd := At(mData[0], blockSize);
      mCurrent := At(mEnd.block, mEnd.index + 1);
    }

    /**
     * Hands out the slot at `mCurrent` and bumps it by one slot, obtaining a new head block
     * first when `mCurrent == mEnd`.  `ok` is false only when that block cannot be obtained.
     */
    method GetNext() returns (ok: bool, r: Ptr)
      requires Valid()
      modifies this
      ensures Valid() && freed == old(freed)
      ensures ok <==> old(mCurrent) != old(mEnd) || old(obtained) < budget
      ensures ok ==> Handed() == old(Handed()) + [r] && r !in old(Handed())
      ensures ok && old(mCurrent) != old(mEnd) ==> mData == old(mData) && r == old(mCurrent)
      ensures ok && old(mCurrent) == old(mEnd) ==>
        mData == [old(obtained)] + old(mData) && r == At(old(obtained), 0)
      ensures ok ==> mCurrent == At(r.block, r.index + 1) && LastInHead()
      ensures ok ==> obtained == old(obtained) + (if old(mCurrent) == old(mEnd) then 1 else 0)
      ensures !ok ==> Handed() == old(Handed()) && mData == old(mData)
    {
      ok := true;
      r := Null;
      if mCurrent == mEnd {
        ok := IncreaseSize();
      }
      if ok {
        r := Bump();
      }
    }

    /** Hands out the slot at `mCurrent`, which lies inside the head block, and bumps it. */
    method Bump() returns (r: Ptr)
      requires Valid() && mData != [] && mCurrent != mEnd
      modifies this
      ensures Valid() && freed == old(freed) && mData == old(mData) && obtained == old(obtained)
      ensures r == old(mCurrent) && mCurrent == At(r.block, r.index + 1)
      ensures Handed() == old(Handed()) + [r] && r !in old(Handed())
    {
      r := mCurrent;
      HandedBump(mData, r.index, blockSize, obtained);
      mCurrent := At(mCurrent.block, mCurrent.index + 1);
    }

    /**
     * The slot handed out last lies in the head block, just below `mCurrent`, as it does
     * right after a successful `GetNext`: `ReplaceLast` then gives exactly that slot back.
     */
    ghost predicate LastInHead()
      reads this
    {
      Valid() && |Handed()| > 0 && mCurrent.At? && mCurrent.index > 0
    }

    /** Every slot in use lies in a listed block, and below `mCurrent` in the head. */
    lemma HandedBounds()
      requires Valid()
      ensures forall p :: p in Handed() ==> p.At? && p.block in mData && p.block < obtained
      ensures mData != [] ==> forall p :: p in Handed() && p.block == mData[0] ==> p.index < mCurrent.index
    {
      if mData != [] {
        forall p | p in FullSlots(mData[1..], blockSize)
          ensures p.block != mData[0]
        {
          var k :| 0 <= k < |mData[1..]| && mData[1..][k] == p.block;
          assert Newer(mData, 0, k + 1);
        }
      }
    }

    /**
     * Gives back the most recently handed-out slot.  When the head block still has slots in
     * use, `mCurrent` steps back onto the released slot.  When it has none, the head block is
     * freed and the previous block becomes the head with `mCurrent == mEnd`: that block's
     * last slot, the one being released, stays counted as in use.
     */
    method ReplaceLast()
      requires Valid() && |Handed()| > 0
      modifies this
      ensures Valid() && obtained == old(obtained)
      ensures old(mCurrent.index) != 0 ==>
        mData == old(mData) && freed == old(freed) &&
        Handed() == old(Handed())[..|old(Handed())| - 1] &&
        mCurrent == old(Handed())[|old(Handed())| - 1]
      ensures old(mCurrent.index) == 0 ==>
        mData == old(mData)[1..] && freed == old(freed) + [old(mData)[0]] &&
        mCurrent == mEnd && Handed() == old(Handed())
    {
      if mCurrent == At(mData[0], 0) {
        ghost var below := mData[1..];
        assert below == [below[0]] + below[1..];
        DecreasedSize();
        assert mData == below;
      }
      mCurrent := At(mCurrent.block, mCurrent.index - 1);
      if old(mCurrent.index) != 0 {
        BlockSlotsGrow(mData[0], mCurrent.index);
      }
    }

    /**
     * The destructor: walks the block list from the head and frees every block, so each
     * block ever obtained ends up freed exactly once.
     */
    method Destroy()
      requires Valid()
      modifies this
      ensures mData == [] && freed == old(freed) + old(mData)
      ensures multiset(freed) == multiset(Range(obtained))
      ensures forall b :: 0 <= b < obtained ==> multiset(freed)[b] == 1
    {
      var current := mData;
      while current != []
        invariant obtained == old(obtained)
        invariant freed + current == old(freed) + old(mData)
      {
        var temp := current[0];
        assert current == [temp] + current[1..];
        current := current[1..];
        freed := freed + [temp];
      }
      mData := [];
      mEnd := Null;
      mCurrent := Null;
      AllFreed(old(mData), old(freed), freed, obtained);
    }
  }

  lemma BlockSlotsGrow(id: nat, k: nat)
    ensures BlockSlots(id, k + 1) == BlockSlots(id, k) + [At(id, k)]
  {
  }

  lemma RangeGrows(n: nat)
    ensures Range(n + 1) == Range(n) + [n]
  {
  }

  /** Once the listed blocks are appended to the freed ones, each block is freed exactly once. */
  lemma AllFreed(ids: seq<nat>, freed: seq<nat>, all: seq<nat>, n: nat)
    requires Accounted(ids, freed, n) && all == freed + ids
    ensures multiset(all) == multiset(Range(n))
    ensures forall b :: 0 <= b < n ==> multiset(all)[b] == 1
  {
    assert multiset(all) == multiset(freed) + multiset(ids);
    forall b | 0 <= b < n
      ensures multiset(all)[b] == 1
    {
      RangeCountsOnce(n, b);
    }
  }

  /** A newly obtained block pushed on the list keeps every block accounted for. */
  lemma AccountedPush(ids: seq<nat>, freed: seq<nat>, n: nat)
    requires Accounted(ids, freed, n)
    ensures Accounted([n] + ids, freed, n + 1)
  {
    RangeGrows(n);
    assert multiset([n] + ids) == multiset{n} + multiset(ids);
    assert multiset(Range(n + 1)) == multiset(Range(n)) + multiset{n};
  }

  /** A block obtained after all others may be pushed on the list. */
  lemma NewestPush(ids: seq<nat>, bound: nat)
    requires Newest(ids, bound)
    ensures Newest([bound] + ids, bound + 1)
  {
    var s := [bound] + ids;
    forall i, j | 0 <= i < j < |s|
      ensures Newer(s, i, j)
    {
      if i > 0 {
        assert Newer(ids, i - 1, j - 1);
      }
    }
  }

  /** The list without its head still holds the newest blocks, newest first. */
  lemma NewestTail(ids: seq<nat>, bound: nat)
    requires ids != [] && Newest(ids, bound)
    ensures Newest(ids[1..], bound)
  {
    var t := ids[1..];
    forall i, j | 0 <= i < j < |t|
      ensures Newer(t, i, j)
    {
      assert Newer(ids, i + 1, j + 1);
    }
  }

  /** The head block is not listed again further down. */
  lemma NewestHead(ids: seq<nat>, bound: nat)
    requires ids != [] && Newest(ids, bound)
    ensures ids[0] !in ids[1..]
  {
    forall j | 0 <= j < |ids[1..]|
      ensures ids[1..][j] != ids[0]
    {
      assert Newer(ids, 0, j + 1);
    }
  }

  lemma FullSlotsUnfold(ids: seq<nat>, blockSize: nat)
    requires ids != []
    ensures FullSlots(ids, blockSize) == FullSlots(ids[1..], blockSize) + BlockSlots(ids[0], blockSize)
  {
  }

  /** Each name below `n` occurs exactly once in `Range(n)`. */
  lemma {:induction false} RangeCountsOnce(n: nat, b: nat)
    requires b < n
    ensures multiset(Range(n))[b] == 1
  {
    if n == b + 1 {
      assert Range(n) == Range(b) + [b];
      assert b !in Range(b);
    } else {
      assert Range(n) == Range(n - 1) + [n - 1];
      RangeCountsOnce(n - 1, b);
    }
  }

  /**
   * Releasing the slot just handed out and asking again returns the same slot, and no block
   * changes hands.
   */
  method ReleaseThenReuse(a: StackSlabAllocator) returns (first: Ptr, second: Ptr)
    requires a.Valid()
    requires a.mCurrent != a.mEnd
    modifies a
    ensures a.Valid() && a.mData == old(a.mData) && a.freed == old(a.freed)
    ensures first == second && a.Handed() == old(a.Handed()) + [first]
  {
    var ok;
    ok, first := a.GetNext();
    a.ReplaceLast();
    ok, second := a.GetNext();
  }

  /** A fresh allocator with a budget of three blocks whose first block is used up. */
  method FillOneBlock(blockSize: nat) returns (a: StackSlabAllocator)
    requires blockSize > 0
    ensures fresh(a) && a.Valid() && a.blockSize == blockSize && a.budget == 3
    ensures a.freed == [] && a.obtained == 1 && a.mData == [0] && a.mCurrent == a.mEnd
    ensures a.Handed() == BlockSlots(0, blockSize)
  {
    a := new StackSlabAllocator(blockSize, 3);
    var ok, p;
    var i := 0;
    while i != blockSize
      invariant 0 <= i <= blockSize
      invariant fresh(a) && a.Valid() && a.blockSize == blockSize && a.budget == 3
      invariant a.freed == []
      invariant i == 0 ==> a.mData == [] && a.obtained == 0
      invariant i > 0 ==> a.mData == [0] && a.obtained == 1 && a.mCurrent == At(0, i)
      modifies a
    {
      ok, p := a.GetNext();
      i := i + 1;
    }
  }

  /**
   * Fills one block, spills into a second, then releases twice.  The second release frees
   * the second block but leaves the first block's last slot counted as in use, so the next
   * request obtains a third block instead of returning that slot.
   */
  method ReleaseAcrossBoundary(blockSize: nat) returns (a: StackSlabAllocator, next: Ptr)
    requires blockSize > 0
    ensures a.Valid() && a.freed == [1] && a.mData == [2, 0]
    ensures next == At(2, 0) && At(0, blockSize - 1) in a.Handed()
    ensures a.Handed() == BlockSlots(0, blockSize) + [At(2, 0)]
  {
    a := SpillAndReleaseTwice(blockSize);
    var ok;
    ok, next := a.GetNext();
    assert a.Handed()[blockSize - 1] == At(0, blockSize - 1);
  }

  /**
   * The first part of `ReleaseAcrossBoundary`: after one block is filled, one slot of a
   * second block is handed out and released, then the first block's last slot is released.
   * The second block is freed and the first block's last slot is still counted as in use.
   */
  method SpillAndReleaseTwice(blockSize: nat) returns (a: StackSlabAllocator)
    requires blockSize > 0
    ensures fresh(a) && a.Valid() && a.blockSize == blockSize && a.budget == 3 && a.obtained == 2
    ensures a.freed == [1] && a.mData == [0] && a.mCurrent == a.mEnd
    ensures a.Handed() == BlockSlots(0, blockSize)
  {
    a := FillOneBlock(blockSize);
    var ok, p := a.GetNext();
    assert p == At(1, 0) && a.mData == [1, 0];
    a.ReplaceLast();
    assert a.Handed() == BlockSlots(0, blockSize) && a.mCurrent == At(1, 0);
    a.ReplaceLast();
  }
}
