/**
 * The visited list of `progressiveDeepeningSearch_with_NonStrict_VisitedList`, on values:
 * the multiset of nodes a `HashMap<Node>` holds, what keeping a successor does to it, and
 * the predicate that ties the hash map to it.
 */
module VisitedLists {
  import opened Common
  import opened Puzzle
  import opened Paths
  import opened Deques
  import opened SlabAllocators
  import opened HashMaps
  import opened Searches
  import opened Deepening

  /** `Hasher<Map_t, 10>` on the state a visited entry points at. */
  function NodeHash(n: Node): nat
  {
    Hash10(n.board)
  }

  /** `EqualityTester<Map_t>`: two entries are equal when their states are (`Map::operator==`). */
  function SameEntry(a: Node, b: Node): bool
  {
    a.board == b.board
  }

  /** Entries with equal states hash alike. */
  lemma EntryHashes()
    ensures Consistent(NodeHash, SameEntry)
  {
  }

  /** No state is recorded twice, whether by two entries or by one entry held twice. */
  ghost predicate OnePerState(c: multiset<Node>)
  {
    (forall x :: x in c ==> c[x] == 1) &&
    forall x, y :: x in c && y in c && x.board == y.board ==> x == y
  }

  /** State `b` is recorded at depth `d` or less. */
  ghost predicate Covers(c: multiset<Node>, b: Board, d: nat)
  {
    exists x :: x in c && x.board == b && x.depth <= d
  }

  /** Every state recorded at some depth in `c` is recorded at that depth or less in `c'`. */
  ghost predicate Kept(c: multiset<Node>, c': multiset<Node>)
  {
    forall b, d :: Covers(c, b, d) ==> Covers(c', b, d)
  }

  /**
   * The test of `expandPathDepthLimitedVisited`: a successor is kept when its state is not
   * recorded, or only at a greater depth.
   */
  ghost predicate Shallower(c: multiset<Node>, n: Node)
  {
    forall x :: x in c && x.board == n.board ==> x.depth > n.depth
  }

  /**
   * The visited list after keeping `n`: the entry for its state, when there is one, now
   * points at `n`; otherwise `n` is inserted.
   */
  ghost function Record(c: multiset<Node>, n: Node): multiset<Node>
  {
    if exists x :: x in c && x.board == n.board then
      var x :| x in c && x.board == n.board; c - multiset{x} + multiset{n}
    else
      c + multiset{n}
  }

  /** When the state of `n` is recorded by entry `e`, keeping `n` points that entry at `n`. */
  lemma RecordAt(c: multiset<Node>, e: Node, n: Node)
    requires OnePerState(c) && e in c && e.board == n.board
    ensures Record(c, n) == c - multiset{e} + multiset{n}
  {
    var x :| x in c && x.board == n.board && Record(c, n) == c - multiset{x} + multiset{n};
    assert x == e;
  }

  /** When the state of `n` is not recorded, keeping `n` inserts it. */
  lemma RecordNew(c: multiset<Node>, n: Node)
    requires forall x :: x in c ==> x.board != n.board
    ensures Record(c, n) == c + multiset{n}
  {
  }

  /** Pointing the entry `x` for the state of `n` at `n` keeps one entry per state. */
  lemma ReplaceOne(c: multiset<Node>, x: Node, n: Node)
    requires OnePerState(c) && x in c && x.board == n.board && x.depth > n.depth
    ensures OnePerState(c - multiset{x} + multiset{n})
  {
    var r := c - multiset{x} + multiset{n};
    assert n != x && forall y :: y in c && y.board == n.board ==> y == x;
    forall y | y in r
      ensures r[y] == 1
    {
      if y != n {
        assert y != x && c[y] == 1;
      }
    }
    forall y | y in r && y != n
      ensures y in c && y.board != n.board
    {
      assert y in c && y != x;
    }
  }

  /** Inserting a node whose state is not recorded keeps one entry per state. */
  lemma AddOne(c: multiset<Node>, n: Node)
    requires OnePerState(c) && forall x :: x in c ==> x.board != n.board
    ensures OnePerState(c + multiset{n})
  {
    var r := c + multiset{n};
    assert n !in c;
    forall y | y in r
      ensures r[y] == 1
    {
      if y != n {
        assert y in c;
      }
    }

  }

  /**
   * Keeping a shorter path: one entry per state stays one entry per state, every state
   * stays recorded at the depth it was recorded at or less, and the state of `n` is
   * recorded at its depth.
   */
  lemma RecordKeeps(c: multiset<Node>, n: Node)
    requires OnePerState(c) && Shallower(c, n)
    ensures OnePerState(Record(c, n)) && Kept(c, Record(c, n)) && Covers(Record(c, n), n.board, n.depth)
  {
    var r := Record(c, n);
    if exists x :: x in c && x.board == n.board {
      var x :| x in c && x.board == n.board;
      RecordAt(c, x, n);
      ReplaceOne(c, x, n);
      forall b, d | Covers(c, b, d)
        ensures Covers(r, b, d)
      {
        var w :| w in c && w.board == b && w.depth <= d;
        if w != x {
          assert w in r;
        }
      }
    } else {
      AddOne(c, n);
      forall b, d | Covers(c, b, d)
        ensures Covers(r, b, d)
      {
        var w :| w in c && w.board == b && w.depth <= d;
        assert w in r;
      }
    }
    assert n in r;
  }

  /**
   * What offering one successor does to the nodes and the visited list: a successor whose
   * state is not recorded at its depth or less is appended and recorded; any other is dropped.
   */
  ghost function OfferOne(nodes: seq<Node>, c: multiset<Node>, kid: Node): (seq<Node>, multiset<Node>)
  {
    if Shallower(c, kid) then (nodes + [kid], Record(c, kid)) else (nodes, c)
  }

  /** What offering `kids` one at a time does: the nodes kept and the visited list afterwards. */
  ghost function OfferAll(nodes: seq<Node>, c: multiset<Node>, kids: seq<Node>): (seq<Node>, multiset<Node>)
    decreases |kids|
  {
    if kids == [] then (nodes, c)
    else
      var before := OfferAll(nodes, c, kids[..|kids| - 1]);
      OfferOne(before.0, before.1, kids[|kids| - 1])
  }

  /** Offering one more kid. */
  lemma OfferStep(nodes: seq<Node>, c: multiset<Node>, kids: seq<Node>, kid: Node)
    ensures OfferAll(nodes, c, kids + [kid]) == OfferOne(OfferAll(nodes, c, kids).0, OfferAll(nodes, c, kids).1, kid)
  {
    assert (kids + [kid])[..|kids|] == kids;
  }

  /**
   * What the non-strict visited list guarantees across an expansion: one entry per state
   * is kept, every state recorded before stays recorded at its depth or less, and every
   * successor offered has its state recorded at its own depth or less afterwards.
   */
  lemma {:induction false} OfferAllKeeps(nodes: seq<Node>, c: multiset<Node>, kids: seq<Node>)
    requires OnePerState(c)
    ensures OnePerState(OfferAll(nodes, c, kids).1) && Kept(c, OfferAll(nodes, c, kids).1)
    ensures forall k :: 0 <= k < |kids| ==> Covers(OfferAll(nodes, c, kids).1, kids[k].board, kids[k].depth)
    decreases |kids|
  {
    if kids != [] {
      var front := kids[..|kids| - 1];
      var kid := kids[|kids| - 1];
      OfferAllKeeps(nodes, c, front);
      var cs := OfferAll(nodes, c, front).1;
      var r := OfferAll(nodes, c, kids).1;
      assert r == OfferOne(OfferAll(nodes, c, front).0, cs, kid).1;
      if Shallower(cs, kid) {
        RecordKeeps(cs, kid);
        assert r == Record(cs, kid);
      } else {
        assert r == cs;
      }
      forall k | 0 <= k < |kids|
        ensures Covers(r, kids[k].board, kids[k].depth)
      {
        if k < |front| {
          assert kids[k] == front[k];
          assert Covers(cs, front[k].board, front[k].depth);
        }
      }
    }
  }

  /** The frontier, the visited list and the arena share no storage. */
  ghost predicate Disjoint(frontier: Deque<nat>, visited: HashMap<Node>, allocator: StackSlabAllocator)
    reads frontier, visited
  {
    frontier.Repr !! visited.Repr && allocator !in frontier.Repr && allocator !in visited.Repr
  }

  /** A sound visited list hashed and compared by state, with one entry per state. */
  ghost predicate Recording(visited: HashMap<Node>)
    reads visited, visited.Repr
  {
    visited.Valid() && visited.equal == SameEntry && OnePerState(visited.Contents())
  }

  /** What a round keeps: the containers, the tree, a bounded stack and a sound visited list. */
  ghost predicate SearchingVisited(nodes: seq<Node>, rank: seq<nat>, root: Board, limit: nat,
                                   frontier: Deque<nat>, visited: HashMap<Node>, allocator: StackSlabAllocator)
    reads frontier, frontier.Repr, visited, visited.Repr, allocator
  {
    Searching(nodes, rank, root, limit, frontier, allocator) && Recording(visited) && Disjoint(frontier, visited, allocator)
  }
}
