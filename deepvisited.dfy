/**
 * `progressiveDeepeningSearch_with_NonStrict_VisitedList` and its helper
 * `expandPathDepthLimitedVisited`.
 *
 * The visited list holds pointers to the states of nodes; hashing and equality look
 * through the pointer at the state (`Hasher<Map_t, 10>`, `EqualityTester<Map_t>`).  Nodes
 * are never changed once built, so the list is modelled as holding the nodes themselves.
 * The list is non-strict: a state already recorded is explored again when it is reached
 * by a shorter path, and the record then points at the newer node.
 */
module DeepeningVisited {
  import opened Common
  import opened Puzzle
  import opened Paths
  import opened Deques
  import opened SlabAllocators
  import opened HashMaps
  import opened Searches
  import opened Breadth
  import opened Deepening
  import opened VisitedLists

  /**
   * The first half of `expandPathDepthLimitedVisited`: takes an arena slot, builds the
   * successor one deeper than its parent in it and looks its state up.  The successor is
   * kept when its state is missing or recorded deeper; otherwise the slot is given back
   * with `replaceLast`.  `pos` is the slot of the entry found, or `capacity` for none.
   */
  method OfferDeep(nodes: seq<Node>, parent: nat, newPos: nat, oldPos: nat,
                   visited: HashMap<Node>, allocator: StackSlabAllocator)
      returns (got: bool, n: Node, keep: bool, pos: nat)
    requires parent < |nodes| && |nodes[parent].board.tiles| == Cells && nodes[parent].board.emptyPos == oldPos
    requires newPos < Cells && oldPos < Cells
    requires Recording(visited) && allocator.Valid() && allocator !in visited.Repr
    modifies allocator
    ensures allocator.Valid() && n == DeepChild(nodes, parent, newPos)
    ensures got ==> (keep <==> Shallower(visited.Contents(), n))
    ensures got && keep ==> pos <= visited.capacity
    ensures got && keep && pos < visited.capacity ==>
      visited.data[pos].dist != 0 && visited.data[pos].value in visited.Contents() && visited.data[pos].value.board == n.board
    ensures got && keep && pos == visited.capacity ==> forall x :: x in visited.Contents() ==> x.board != n.board
    ensures SlotsAdded(old(allocator.Handed()), allocator.Handed(), if got && keep then 1 else 0)
  {
    n := DeepChild(nodes, parent, newPos);
    keep, pos := false, 0;
    var slot;
    got, slot := allocator.GetNext();
    if got {
      n := Successor(nodes, parent, newPos, oldPos);
      n := n.(depth := nodes[parent].depth + 1);
      keep, pos := Judge(n, visited);
      if !keep {
        allocator.ReplaceLast();
      }
    }
  }

  /**
   * The lookup of `expandPathDepthLimitedVisited`: the successor `n` is to be kept exactly
   * when its state is missing from the visited list or recorded deeper than `n`.  `pos` is
   * the slot of the entry found, or `capacity` for none.
   */
  method Judge(n: Node, visited: HashMap<Node>) returns (keep: bool, pos: nat)
    requires Recording(visited)
    ensures keep <==> Shallower(visited.Contents(), n)
    ensures pos <= visited.capacity
    ensures keep && pos < visited.capacity ==>
      visited.data[pos].dist != 0 && visited.data[pos].value in visited.Contents() && visited.data[pos].value.board == n.board
    ensures keep && pos == visited.capacity ==> forall x :: x in visited.Contents() ==> x.board != n.board
  {
    pos := visited.Find(n);
    if pos == visited.capacity {
      keep := true;
    } else {
      var entry := visited.Get(pos);
      assert forall x :: x in visited.Contents() && x.board == n.board ==> x == entry;
      keep := entry.depth > n.depth;
    }
  }

  /**
   * The visited-list update of `expandPathDepthLimitedVisited` for a kept successor: the
   * entry found at `pos` is pointed at `n`, or `n` is inserted when there was none.
   */
  method RecordKept(n: Node, pos: nat, visited: HashMap<Node>)
    requires Recording(visited) && Shallower(visited.Contents(), n) && pos <= visited.capacity
    requires pos < visited.capacity ==>
      visited.data[pos].dist != 0 && visited.data[pos].value in visited.Contents() && visited.data[pos].value.board == n.board
    requires pos == visited.capacity ==> forall x :: x in visited.Contents() ==> x.board != n.board
    modifies visited.Repr
    ensures Recording(visited) && fresh(visited.Repr - old(visited.Repr))
    ensures visited.Contents() == Record(old(visited.Contents()), n)
  {
    ghost var c := visited.Contents();
    if pos < visited.capacity {
      ghost var e := visited.data[pos].value;
      RecordAt(c, e, n);
      ReplaceOne(c, e, n);
      visited.SetAt(pos, n);
    } else {
      RecordNew(c, n);
      AddOne(c, n);
      visited.Insert(n);
    }
  }

  /**
   * The second half of `expandPathDepthLimitedVisited` for a kept successor: the entry
   * found is pointed at it, or it is inserted, and it is pushed onto the frontier.
   */
  method Keep(nodes: seq<Node>, ghost rank: seq<nat>, ghost root: Board, parent: nat, n: Node, pos: nat,
              frontier: Deque<nat>, visited: HashMap<Node>)
      returns (nodes': seq<Node>, ghost rank': seq<nat>)
    requires Tree(nodes, rank, root) && Deep(nodes, rank) && parent < |nodes|
    requires n.next == Some(parent) && n.board.emptyPos < Cells && Adjacent(nodes[parent].board.emptyPos, n.board.emptyPos)
    requires n.board == Move(nodes[parent].board, n.board.emptyPos) && n.depth == nodes[parent].depth + 1
    requires frontier.Valid() && frontier.readPos == 0 && Recording(visited) && frontier.Repr !! visited.Repr
    requires Shallower(visited.Contents(), n) && pos <= visited.capacity
    requires pos < visited.capacity ==>
      visited.data[pos].dist != 0 && visited.data[pos].value in visited.Contents() && visited.data[pos].value.board == n.board
    requires pos == visited.capacity ==> forall x :: x in visited.Contents() ==> x.board != n.board
    modifies frontier.Repr, visited.Repr
    ensures frontier.Valid() && frontier.readPos == 0 && Recording(visited) && frontier.Repr !! visited.Repr
    ensures fresh(frontier.Repr - old(frontier.Repr)) && fresh(visited.Repr - old(visited.Repr))
    ensures nodes' == nodes + [n] && Tree(nodes', rank', root) && Deep(nodes', rank')
    ensures visited.Contents() == Record(old(visited.Contents()), n)
    ensures frontier.Contents() == old(frontier.Contents()) + Span(|nodes|, |nodes'|)
  {
    RecordKept(n, pos, visited);
    nodes', rank' := PushKept(nodes, rank, root, parent, n, frontier);
  }

  /** The push of `expandPathDepthLimitedVisited`: the kept successor goes onto the frontier. */
  method PushKept(nodes: seq<Node>, ghost rank: seq<nat>, ghost root: Board, parent: nat, n: Node, frontier: Deque<nat>)
      returns (nodes': seq<Node>, ghost rank': seq<nat>)
    requires Tree(nodes, rank, root) && Deep(nodes, rank) && parent < |nodes|
    requires n.next == Some(parent) && n.board.emptyPos < Cells && Adjacent(nodes[parent].board.emptyPos, n.board.emptyPos)
    requires n.board == Move(nodes[parent].board, n.board.emptyPos) && n.depth == nodes[parent].depth + 1
    requires frontier.Valid() && frontier.readPos == 0
    modifies frontier.Repr
    ensures frontier.Valid() && frontier.readPos == 0 && fresh(frontier.Repr - old(frontier.Repr))
    ensures nodes' == nodes + [n] && Tree(nodes', rank', root) && Deep(nodes', rank')
    ensures frontier.Contents() == old(frontier.Contents()) + Span(|nodes|, |nodes'|)
  {
    DeepGrow(nodes, rank, root, parent, n);
    frontier.PushBack(|nodes|);
    nodes', rank' := nodes + [n], rank + [rank[parent] + 1];
    assert Span(|nodes|, |nodes'|) == [|nodes|];
  }

  /**
   * `expandPathDepthLimitedVisited`: the successor of node `parent` one deeper than it is
   * pushed, and recorded in the visited list, exactly when its state is not recorded at
   * its depth or less; otherwise nothing changes.  `ok` is false when the arena is out of
   * memory, before anything is looked up.
   */
  method ExpandDepthLimitedVisited(nodes: seq<Node>, ghost rank: seq<nat>, ghost root: Board, parent: nat, newPos: nat, oldPos: nat,
                                   frontier: Deque<nat>, visited: HashMap<Node>, allocator: StackSlabAllocator)
      returns (nodes': seq<Node>, ghost rank': seq<nat>, ok: bool)
    requires Tree(nodes, rank, root) && Deep(nodes, rank) && parent < |nodes| && nodes[parent].board.emptyPos == oldPos
    requires newPos < Cells && Adjacent(oldPos, newPos)
    requires frontier.Valid() && frontier.readPos == 0 && Recording(visited) && allocator.Valid()
    requires Disjoint(frontier, visited, allocator)
    modifies frontier.Repr, visited.Repr, allocator
    ensures frontier.Valid() && frontier.readPos == 0 && Recording(visited) && allocator.Valid()
    ensures Disjoint(frontier, visited, allocator)
    ensures fresh(frontier.Repr - old(frontier.Repr)) && fresh(visited.Repr - old(visited.Repr))
    ensures Tree(nodes', rank', root) && Deep(nodes', rank')
    ensures !ok ==> nodes' == nodes && visited.Contents() == old(visited.Contents())
    ensures nodes' == nodes || nodes' == nodes + [DeepChild(nodes, parent, newPos)]
    ensures ok ==> var o := OfferOne(nodes, old(visited.Contents()), DeepChild(nodes, parent, newPos)); nodes' == o.0 && visited.Contents() == o.1
    ensures frontier.Contents() == old(frontier.Contents()) + Span(|nodes|, |nodes'|)
    ensures SlotsAdded(old(allocator.Handed()), allocator.Handed(), |nodes'| - |nodes|)
  {
    var n, keep, pos;
    ok, n, keep, pos := OfferDeep(nodes, parent, newPos, oldPos, visited, allocator);
    nodes', rank' := nodes, rank;
    SpanEmpty(frontier.Contents(), |nodes|);
    if !ok || !keep {
      return;
    }
    nodes', rank' := Keep(nodes, rank, root, parent, n, pos, frontier, visited);
  }

  /** The nodes after `nodes` in `nodes'` are one deeper than node `p`, and those before are unchanged. */
  ghost predicate Grown(nodes: seq<Node>, p: nat, nodes': seq<Node>)
    requires p < |nodes|
  {
    |nodes| <= |nodes'| && nodes'[..|nodes|] == nodes &&
    forall i :: |nodes| <= i < |nodes'| ==> nodes'[i].depth == nodes[p].depth + 1
  }

  /** What holds while the successors of node `current` are offered. */
  ghost predicate OfferingDeep(nodes: seq<Node>, current: nat, nodes': seq<Node>, rank': seq<nat>, root: Board,
                               before: seq<nat>, frontier: Deque<nat>, visited: HashMap<Node>, allocator: StackSlabAllocator)
    reads frontier, frontier.Repr, visited, visited.Repr, allocator
  {
    frontier.Valid() && frontier.readPos == 0 && Recording(visited) && allocator.Valid() &&
    Disjoint(frontier, visited, allocator) &&
    Tree(nodes', rank', root) && Deep(nodes', rank') && current < |nodes| && Grown(nodes, current, nodes') &&
    frontier.Contents() == before + Span(|nodes|, |nodes'|)
  }

  /** What offering the successors for the first `k` moves of the blank leaves: the nodes kept and the visited list. */
  ghost function OfferedAt(nodes: seq<Node>, c: multiset<Node>, current: nat, k: nat): (seq<Node>, multiset<Node>)
    requires current < |nodes| && |nodes[current].board.tiles| == Cells && nodes[current].board.emptyPos < Cells
    requires k <= |Neighbours(nodes[current].board.emptyPos)|
  {
    OfferAll(nodes, c, DeepChildrenAt(nodes, current, Neighbours(nodes[current].board.emptyPos)[..k]))
  }

  /** Offering the `k`-th successor after the first `k` follows `OfferAll` one kid further. */
  lemma OfferNext(nodes: seq<Node>, current: nat, k: nat, c: multiset<Node>)
    requires current < |nodes| && |nodes[current].board.tiles| == Cells && nodes[current].board.emptyPos < Cells
    requires k < |Neighbours(nodes[current].board.emptyPos)|
    ensures var before := OfferedAt(nodes, c, current, k);
      OfferedAt(nodes, c, current, k + 1) ==
      OfferOne(before.0, before.1, DeepChild(nodes, current, Neighbours(nodes[current].board.emptyPos)[k]))
  {
    var moves := Neighbours(nodes[current].board.emptyPos);
    var kids := DeepChildrenAt(nodes, current, moves[..k]);
    var kid := DeepChild(nodes, current, moves[k]);
    assert moves[..k + 1] == moves[..k] + [moves[k]];
    assert DeepChildrenAt(nodes, current, moves[..k + 1]) == kids + [kid];
    OfferStep(nodes, c, kids, kid);
  }

  /** The `k`-th guarded `expandPathDepthLimitedVisited` call of `ExpandLimitedVisited`. */
  method LimitedVisitedMove(nodes: seq<Node>, current: nat, moves: seq<nat>, k: nat,
                            nodes1: seq<Node>, ghost rank1: seq<nat>, ghost root: Board,
                            ghost before: seq<nat>, ghost c: multiset<Node>,
                            frontier: Deque<nat>, visited: HashMap<Node>, allocator: StackSlabAllocator)
      returns (nodes2: seq<Node>, ghost rank2: seq<nat>, ok: bool)
    requires current < |nodes| && |nodes[current].board.tiles| == Cells && nodes[current].board.emptyPos < Cells
    requires moves == Neighbours(nodes[current].board.emptyPos) && k < |moves|
    requires OfferingDeep(nodes, current, nodes1, rank1, root, before, frontier, visited, allocator)
    requires OfferedAt(nodes, c, current, k) == (nodes1, visited.Contents())
    modifies frontier.Repr, visited.Repr, allocator
    ensures OfferingDeep(nodes, current, nodes2, rank2, root, before, frontier, visited, allocator)
    ensures fresh(frontier.Repr - old(frontier.Repr)) && fresh(visited.Repr - old(visited.Repr))
    ensures ok ==> OfferedAt(nodes, c, current, k + 1) == (nodes2, visited.Contents())
    ensures SlotsAdded(old(allocator.Handed()), allocator.Handed(), |nodes2| - |nodes1|)
  {
    NeighboursAdjacent(nodes[current].board.emptyPos, moves[k]);
    assert moves[k] in moves;
    assert nodes1[current] == nodes[current];
    OfferNext(nodes, current, k, c);
    nodes2, rank2, ok := ExpandDepthLimitedVisited(nodes1, rank1, root, current, moves[k], nodes[current].board.emptyPos,
                                                   frontier, visited, allocator);
    SpanJoin(before, |nodes|, |nodes1|, |nodes2|);
    GrownStep(nodes, current, nodes1, nodes2, DeepChild(nodes1, current, moves[k]));
  }

  /** A node one deeper than `p`, or none, added after nodes grown from `p` leaves them grown from `p`. */
  lemma GrownStep(nodes: seq<Node>, p: nat, nodes1: seq<Node>, nodes2: seq<Node>, n: Node)
    requires p < |nodes| && Grown(nodes, p, nodes1) && n.depth == nodes[p].depth + 1
    requires nodes2 == nodes1 || nodes2 == nodes1 + [n]
    ensures Grown(nodes, p, nodes2)
  {
    assert nodes2[..|nodes|] == nodes1[..|nodes|];
  }

  /**
   * The four guarded `expandPathDepthLimitedVisited` calls: the successors of node
   * `current` one deeper than it, up, right, down and left within the grid, are offered in
   * that order, with what `OfferAll` says about the nodes kept and the visited list.
   */
  method ExpandLimitedVisited(nodes: seq<Node>, ghost rank: seq<nat>, ghost root: Board, current: nat,
                              frontier: Deque<nat>, visited: HashMap<Node>, allocator: StackSlabAllocator)
      returns (nodes': seq<Node>, ghost rank': seq<nat>, ok: bool)
    requires Tree(nodes, rank, root) && Deep(nodes, rank) && current < |nodes|
    requires frontier.Valid() && frontier.readPos == 0 && Recording(visited) && allocator.Valid()
    requires Disjoint(frontier, visited, allocator)
    modifies frontier.Repr, visited.Repr, allocator
    ensures OfferingDeep(nodes, current, nodes', rank', root, old(frontier.Contents()), frontier, visited, allocator)
    ensures fresh(frontier.Repr - old(frontier.Repr)) && fresh(visited.Repr - old(visited.Repr))
    ensures ok ==> var o := OfferAll(nodes, old(visited.Contents()), DeepChildren(nodes, current)); nodes' == o.0 && visited.Contents() == o.1
    ensures SlotsAdded(old(allocator.Handed()), allocator.Handed(), |nodes'| - |nodes|)
  {
    var moves := Neighbours(nodes[current].board.emptyPos);
    ghost var c := visited.Contents();
    SpanEmpty(frontier.Contents(), |nodes|);
    assert DeepChildrenAt(nodes, current, moves[..0]) == [];
    nodes', rank', ok := OfferDeepMoves(nodes, current, rank, root, frontier.Contents(), c, frontier, visited, allocator);
    assert moves[..|moves|] == moves;
  }

  /** The loop over the moves of the blank in `ExpandLimitedVisited`, from no move made. */
  method OfferDeepMoves(nodes: seq<Node>, current: nat, ghost rank: seq<nat>, ghost root: Board,
                        ghost before: seq<nat>, ghost c: multiset<Node>,
                        frontier: Deque<nat>, visited: HashMap<Node>, allocator: StackSlabAllocator)
      returns (nodes': seq<Node>, ghost rank': seq<nat>, ok: bool)
    requires current < |nodes| && |nodes[current].board.tiles| == Cells && nodes[current].board.emptyPos < Cells
    requires OfferingDeep(nodes, current, nodes, rank, root, before, frontier, visited, allocator)
    requires OfferedAt(nodes, c, current, 0) == (nodes, visited.Contents())
    modifies frontier.Repr, visited.Repr, allocator
    ensures OfferingDeep(nodes, current, nodes', rank', root, before, frontier, visited, allocator)
    ensures fresh(frontier.Repr - old(frontier.Repr)) && fresh(visited.Repr - old(visited.Repr))
    ensures ok ==> OfferedAt(nodes, c, current, |Neighbours(nodes[current].board.emptyPos)|) == (nodes', visited.Contents())
    ensures SlotsAdded(old(allocator.Handed()), allocator.Handed(), |nodes'| - |nodes|)
  {
    var moves := Neighbours(nodes[current].board.emptyPos);
    nodes', rank', ok := nodes, rank, true;
    var k := 0;
    while k < |moves| && ok
      invariant k <= |moves|
      invariant OfferingDeep(nodes, current, nodes', rank', root, before, frontier, visited, allocator)
      invariant fresh(frontier.Repr - old(frontier.Repr)) && fresh(visited.Repr - old(visited.Repr))
      invariant ok ==> OfferedAt(nodes, c, current, k) == (nodes', visited.Contents())
      invariant SlotsAdded(old(allocator.Handed()), allocator.Handed(), |nodes'| - |nodes|)
    {
      ghost var held := allocator.Handed();
      var nodes1 := nodes';
      nodes', rank', ok := LimitedVisitedMove(nodes, current, moves, k, nodes', rank', root, before, c,
                                              frontier, visited, allocator);
      SlotsAddedJoin(old(allocator.Handed()), held, allocator.Handed(), |nodes1| - |nodes|, |nodes'| - |nodes1|);
      k := k + 1;
    }
    if ok {
      assert k == |moves|;
    }
  }

  /** Pushing nodes one deeper than a node above the limit onto a bounded stack leaves it bounded. */
  lemma GrownBounded(stack: seq<nat>, nodes: seq<Node>, p: nat, nodes': seq<Node>, limit: nat)
    requires p < |nodes| && Grown(nodes, p, nodes') && Bounded(stack, nodes, limit) && nodes[p].depth < limit
    ensures Bounded(stack + Span(|nodes|, |nodes'|), nodes', limit)
  {
    var pushed := stack + Span(|nodes|, |nodes'|);
    forall k | 0 <= k < |pushed|
      ensures pushed[k] < |nodes'| && nodes'[pushed[k]].depth <= limit
    {
      if k < |stack| {
        assert nodes'[stack[k]] == nodes'[..|nodes|][stack[k]];
      }
    }
  }

  /**
   * The expansion branch of the inner loop for a popped path below the limit: its
   * successors are offered and `maxQLength` raised to the frontier length when longer.
   */
  method ExpandBelowVisited(nodes: seq<Node>, ghost rank: seq<nat>, ghost root: Board, current: nat, limit: nat,
                            frontier: Deque<nat>, visited: HashMap<Node>, allocator: StackSlabAllocator, maxQLength: nat)
      returns (nodes': seq<Node>, ghost rank': seq<nat>, ok: bool, maxQLength': nat)
    requires SearchingVisited(nodes, rank, root, limit, frontier, visited, allocator)
    requires current < |nodes| && nodes[current].depth < limit
    modifies frontier.Repr, visited.Repr, allocator
    ensures SearchingVisited(nodes', rank', root, limit, frontier, visited, allocator)
    ensures fresh(frontier.Repr - old(frontier.Repr)) && fresh(visited.Repr - old(visited.Repr))
    ensures |nodes'| >= |nodes| && frontier.Contents() == old(frontier.Contents()) + Span(|nodes|, |nodes'|)
    ensures ok ==> var o := OfferAll(nodes, old(visited.Contents()), DeepChildren(nodes, current)); nodes' == o.0 && visited.Contents() == o.1
    ensures ok ==> maxQLength' == if |frontier.Contents()| > maxQLength then |frontier.Contents()| else maxQLength
  {
    ghost var stack := frontier.Contents();
    nodes', rank', ok := ExpandLimitedVisited(nodes, rank, root, current, frontier, visited, allocator);
    GrownBounded(stack, nodes, current, nodes', limit);
    maxQLength' := maxQLength;
    if ok {
      var size := frontier.Size();
      if size > maxQLength {
        maxQLength' := size;
      }
    }
  }

  /**
   * One pass of the inner loop: the newest path is compared with the goal and, when it is
   * not the goal, popped and expanded unless it is at the limit.
   */
  method VisitVisited(nodes: seq<Node>, ghost rank: seq<nat>, ghost root: Board, goal: Board, limit: nat,
                      frontier: Deque<nat>, visited: HashMap<Node>, allocator: StackSlabAllocator, maxQLength: nat)
      returns (found: bool, path: string, nodes': seq<Node>, ghost rank': seq<nat>, ok: bool, atLimit: bool,
               ghost depth: nat, maxQLength': nat)
    requires SearchingVisited(nodes, rank, root, limit, frontier, visited, allocator)
    requires frontier.Contents() != [] && |goal.tiles| == Cells
    modifies frontier.Repr, visited.Repr, allocator
    ensures SearchingVisited(nodes', rank', root, limit, frontier, visited, allocator)
    ensures fresh(frontier.Repr - old(frontier.Repr)) && fresh(visited.Repr - old(visited.Repr))
    ensures |nodes'| >= |nodes| && depth <= limit && (!found ==> (atLimit <==> depth == limit))
    ensures found ==> Replay(root, path) == Some(goal) && |path| <= limit
  {
    var current;
    current, found, path := TestNewest(nodes, rank, root, goal, limit, frontier);
    depth := nodes[current].depth;
    nodes', rank', ok, atLimit, maxQLength' := nodes, rank, true, false, maxQLength;
    if found {
      return;
    }
    nodes', rank', ok, atLimit, maxQLength' := PopAndExpandVisited(nodes, rank, root, current, limit, frontier, visited, allocator, maxQLength);
  }

  /**
   * The rest of a pass of the inner loop for a path that is not the goal: it is popped,
   * and expanded unless it is at the limit.
   */
  method PopAndExpandVisited(nodes: seq<Node>, ghost rank: seq<nat>, ghost root: Board, current: nat, limit: nat,
                             frontier: Deque<nat>, visited: HashMap<Node>, allocator: StackSlabAllocator, maxQLength: nat)
      returns (nodes': seq<Node>, ghost rank': seq<nat>, ok: bool, atLimit: bool, maxQLength': nat)
    requires SearchingVisited(nodes, rank, root, limit, frontier, visited, allocator)
    requires frontier.Contents() != [] && current == frontier.Contents()[|frontier.Contents()| - 1]
    modifies frontier.Repr, visited.Repr, allocator
    ensures SearchingVisited(nodes', rank', root, limit, frontier, visited, allocator)
    ensures fresh(frontier.Repr - old(frontier.Repr)) && fresh(visited.Repr - old(visited.Repr))
    ensures |nodes'| >= |nodes| && (atLimit <==> nodes[current].depth == limit)
    ensures var popped := old(frontier.Contents())[..|old(frontier.Contents())| - 1];
      frontier.Contents() == popped + Span(|nodes|, |nodes'|)
    ensures atLimit ==> nodes' == nodes && ok && maxQLength' == maxQLength && visited.Contents() == old(visited.Contents())
    ensures !atLimit && ok ==> var o := OfferAll(nodes, old(visited.Contents()), DeepChildren(nodes, current)); nodes' == o.0 && visited.Contents() == o.1
    ensures !atLimit && ok ==> maxQLength' == if |frontier.Contents()| > maxQLength then |frontier.Contents()| else maxQLength
  {
    PopNewest(nodes, rank, root, limit, frontier, visited, allocator);
    nodes', rank', ok, maxQLength' := nodes, rank, true, maxQLength;
    atLimit := nodes[current].depth == limit;
    if atLimit {
      SpanEmpty(frontier.Contents(), |nodes|);
    } else {
      nodes', rank', ok, maxQLength' := ExpandBelowVisited(nodes, rank, root, current, limit, frontier, visited, allocator, maxQLength);
    }
  }

  /** `posiblePaths.pop_back()`: the newest path leaves the stack, which stays bounded. */
  method PopNewest(nodes: seq<Node>, ghost rank: seq<nat>, ghost root: Board, limit: nat,
                   frontier: Deque<nat>, visited: HashMap<Node>, allocator: StackSlabAllocator)
    requires SearchingVisited(nodes, rank, root, limit, frontier, visited, allocator) && frontier.Contents() != []
    modifies frontier.Repr
    ensures SearchingVisited(nodes, rank, root, limit, frontier, visited, allocator)
    ensures fresh(frontier.Repr - old(frontier.Repr)) && visited.Contents() == old(visited.Contents())
    ensures frontier.Contents() == old(frontier.Contents())[..|old(frontier.Contents())| - 1]
  {
    ghost var stack := frontier.Contents();
    assert Bounded(stack[..|stack| - 1], nodes, limit);
    frontier.PopBack();
  }

  /**
   * The inner loop of `progressiveDeepeningSearch_with_NonStrict_VisitedList` under depth
   * limit `limit`, as `Deepening.Round` describes, with the visited list consulted.
   */
  method RoundVisited(nodesIn: seq<Node>, ghost rankIn: seq<nat>, ghost root: Board, goal: Board, limit: nat,
                      frontier: Deque<nat>, visited: HashMap<Node>, allocator: StackSlabAllocator,
                      expansionsIn: nat, maxQLengthIn: nat, fuel: nat)
      returns (found: bool, path: string, mightExist: bool, nodes: seq<Node>, ghost rank: seq<nat>, ok: bool,
               expansions: nat, maxQLength: nat, stopped: bool, fuelLeft: nat, ghost popped: seq<nat>)
    requires SearchingVisited(nodesIn, rankIn, root, limit, frontier, visited, allocator) && |goal.tiles| == Cells
    modifies frontier.Repr, visited.Repr, allocator
    ensures SearchingVisited(nodes, rank, root, limit, frontier, visited, allocator)
    ensures fresh(frontier.Repr - old(frontier.Repr)) && fresh(visited.Repr - old(visited.Repr))
    ensures |nodes| >= |nodesIn| && fuelLeft <= fuel
    ensures found ==> Replay(root, path) == Some(goal) && |path| <= limit
    ensures expansions == expansionsIn + |popped|
    ensures forall i :: 0 <= i < |popped| ==> popped[i] <= limit
    ensures mightExist <==> limit in popped
    ensures !found && ok && !stopped ==> frontier.Contents() == []
    ensures old(frontier.Contents()) != [] && !stopped ==> fuelLeft < fuel
  {
    nodes, rank := nodesIn, rankIn;
    expansions, maxQLength, fuelLeft := expansionsIn, maxQLengthIn, fuel;
    found, path, mightExist, ok, stopped, popped := false, "", false, true, false, [];
    var done := false;
    while !done
      invariant SearchingVisited(nodes, rank, root, limit, frontier, visited, allocator)
      invariant fresh(frontier.Repr - old(frontier.Repr)) && fresh(visited.Repr - old(visited.Repr))
      invariant |nodes| >= |nodesIn| && fuelLeft <= fuel
      invariant expansions == expansionsIn + |popped|
      invariant forall i :: 0 <= i < |popped| ==> popped[i] <= limit
      invariant mightExist <==> limit in popped
      invariant !done ==> !found && ok && !stopped
      invariant done && !found && ok && !stopped ==> frontier.Contents() == []
      invariant found ==> Replay(root, path) == Some(goal) && |path| <= limit
      invariant old(frontier.Contents()) != [] && !stopped ==>
        fuelLeft < fuel || (popped == [] && frontier.Contents() != [] && !done)
      decreases fuelLeft + (if done then 0 else 1)
    {
      var atLimit;
      ghost var step;
      found, path, nodes, rank, ok, maxQLength, stopped, done, fuelLeft, atLimit, step :=
        StepVisited(nodes, rank, root, goal, limit, frontier, visited, allocator, maxQLength, fuelLeft);
      popped := popped + step;
      if atLimit {
        mightExist := true;
      }
      if !done {
        expansions := expansions + 1;
      }
    }
  }

  /**
   * One iteration of the inner loop: the round ends when the stack is empty or the fuel
   * is spent; otherwise the newest path is visited.  `step` holds the depth of the path
   * popped and expanded, if any, and `atLimit` says whether it was at the limit.
   */
  method StepVisited(nodes: seq<Node>, ghost rank: seq<nat>, ghost root: Board, goal: Board, limit: nat,
                     frontier: Deque<nat>, visited: HashMap<Node>, allocator: StackSlabAllocator,
                     maxQLength: nat, fuelLeft: nat)
      returns (found: bool, path: string, nodes': seq<Node>, ghost rank': seq<nat>, ok: bool, maxQLength': nat,
               stopped: bool, done: bool, fuelLeft': nat, atLimit: bool, ghost step: seq<nat>)
    requires SearchingVisited(nodes, rank, root, limit, frontier, visited, allocator) && |goal.tiles| == Cells
    modifies frontier.Repr, visited.Repr, allocator
    ensures SearchingVisited(nodes', rank', root, limit, frontier, visited, allocator)
    ensures fresh(frontier.Repr - old(frontier.Repr)) && fresh(visited.Repr - old(visited.Repr))
    ensures |nodes'| >= |nodes| && fuelLeft' <= fuelLeft && (done || fuelLeft' < fuelLeft)
    ensures |step| <= 1 && (forall i :: 0 <= i < |step| ==> step[i] <= limit) && (atLimit <==> limit in step)
    ensures !done ==> !found && ok && !stopped && |step| == 1
    ensures done ==> step == []
    ensures done && !found && ok && !stopped ==> frontier.Contents() == []
    ensures found ==> Replay(root, path) == Some(goal) && |path| <= limit
    ensures old(frontier.Contents()) != [] && !stopped ==> fuelLeft' < fuelLeft
  {
    found, path, nodes', rank', ok, maxQLength', stopped, done, fuelLeft', atLimit, step :=
      false, "", nodes, rank, true, maxQLength, false, true, fuelLeft, false, [];
    var empty := frontier.Empty();
    if !empty && fuelLeft == 0 {
      stopped := true;
    } else if !empty {
      fuelLeft' := fuelLeft - 1;
      ghost var depth;
      found, path, nodes', rank', ok, atLimit, depth, maxQLength' :=
        VisitVisited(nodes, rank, root, goal, limit, frontier, visited, allocator, maxQLength);
      if found || !ok {
        atLimit := false;
      } else {
        done, step := false, [depth];
      }
    }
  }

  /**
   * The restart before every round after the first: the root path is pushed again, and
   * `visited.clear()` and the insert of the root's state leave the root's entry alone.
   */
  method Restart(nodes: seq<Node>, ghost rank: seq<nat>, ghost root: Board, limit: nat,
                 frontier: Deque<nat>, visited: HashMap<Node>, allocator: StackSlabAllocator)
    requires Searching(nodes, rank, root, limit, frontier, allocator) && frontier.Contents() == []
    requires visited.Valid() && visited.equal == SameEntry && Disjoint(frontier, visited, allocator)
    modifies frontier.Repr, visited.Repr
    ensures SearchingVisited(nodes, rank, root, limit, frontier, visited, allocator)
    ensures fresh(frontier.Repr - old(frontier.Repr)) && fresh(visited.Repr - old(visited.Repr))
    ensures frontier.Contents() == [0] && visited.Contents() == multiset{nodes[0]}
  {
    frontier.PushBack(0);
    assert Searching(nodes, rank, root, limit, frontier, allocator);
    RecordOnly(nodes[0], visited);
  }

  /**
   * The seeding of `progressiveDeepeningSearch_with_NonStrict_VisitedList`: the root path,
   * node 0, is pushed and its entry inserted in the visited list, which is still empty.
   */
  method SeedVisited(nodes: seq<Node>, ghost rank: seq<nat>, ghost root: Board,
                     frontier: Deque<nat>, visited: HashMap<Node>, allocator: StackSlabAllocator)
    requires Searching(nodes, rank, root, 1, frontier, allocator) && frontier.Contents() == []
    requires visited.Valid() && visited.equal == SameEntry && visited.Contents() == multiset{}
    requires Disjoint(frontier, visited, allocator)
    modifies frontier.Repr, visited.Repr
    ensures SearchingVisited(nodes, rank, root, 1, frontier, visited, allocator)
    ensures fresh(frontier.Repr - old(frontier.Repr)) && fresh(visited.Repr - old(visited.Repr))
    ensures frontier.Contents() == [0] && visited.Contents() == multiset{nodes[0]}
  {
    frontier.PushBack(0);
    assert Searching(nodes, rank, root, 1, frontier, allocator);
    AddOne(multiset{}, nodes[0]);
    visited.Insert(nodes[0]);
    assert multiset{} + multiset{nodes[0]} == multiset{nodes[0]};
  }

  /** `visited.clear()` followed by the insert of `n`: the list records `n` alone. */
  method RecordOnly(n: Node, visited: HashMap<Node>)
    requires visited.Valid() && visited.equal == SameEntry
    modifies visited.Repr
    ensures Recording(visited) && visited.Contents() == multiset{n}
    ensures fresh(visited.Repr - old(visited.Repr))
  {
    visited.Clear();
    AddOne(multiset{}, n);
    visited.Insert(n);
    assert multiset{} + multiset{n} == multiset{n};
  }

  /**
   * `progressiveDeepeningSearch_with_NonStrict_VisitedList`: as `DeepeningSearch`, with a
   * visited list hashed by `Hasher<Map_t, 10>` that is emptied and seeded with the root
   * before every round.
   */
  method DeepeningSearchVisited(initialState: string, goalState: string, goalStart: Board, maxQLengthIn: nat,
                                blockSize: nat, budget: nat, fuel: nat)
      returns (o: Outcome, expansions: nat, maxQLength: nat, maxDepthLimit: nat, ghost lastRound: seq<nat>)
    requires |initialState| <= Cells && |goalState| <= Cells && |goalStart.tiles| == Cells && blockSize > 0
    ensures maxDepthLimit >= 1
    ensures o.Found? ==> Replay(Parsed(initialState, Zero()), o.path) == Some(Parsed(goalState, goalStart))
    ensures o.Found? ==> |o.path| <= maxDepthLimit
    ensures o == NoSolution ==> forall i :: 0 <= i < |lastRound| ==> lastRound[i] < maxDepthLimit
  {
    o, expansions, maxQLength, maxDepthLimit, lastRound := OutOfMemory, 0, maxQLengthIn, 1, [];
    var goal := Parse(goalState, goalStart);
    var frontier, visited, allocator := Containers(blockSize, budget);
    var got, slot := allocator.GetNext();
    if got {
      var root := Parse(initialState, Zero());
      o, expansions, maxQLength, maxDepthLimit, lastRound := SeedAndDeepenVisited(root, goal, frontier, visited, allocator, fuel);
    }
  }

  /** Queues the initial state as the root path, records it, and runs the deepening rounds. */
  method SeedAndDeepenVisited(root: Board, goal: Board, frontier: Deque<nat>, visited: HashMap<Node>,
                              allocator: StackSlabAllocator, fuel: nat)
      returns (o: Outcome, expansions: nat, maxQLength: nat, maxDepthLimit: nat, ghost lastRound: seq<nat>)
    requires |root.tiles| == Cells && root.emptyPos < Cells && |goal.tiles| == Cells
    requires frontier.Valid() && frontier.readPos == 0 && frontier.Contents() == []
    requires visited.Valid() && visited.equal == SameEntry
    requires visited.Contents() == multiset{}
    requires allocator.Valid() && Disjoint(frontier, visited, allocator) && |allocator.Handed()| == 1
    modifies frontier.Repr, visited.Repr, allocator
    ensures maxDepthLimit >= 1
    ensures o.Found? ==> Replay(root, o.path) == Some(goal) && |o.path| <= maxDepthLimit
    ensures o == NoSolution ==> forall i :: 0 <= i < |lastRound| ==> lastRound[i] < maxDepthLimit
  {
    var nodes := [Node(root, 0, 0, 0, None)];
    RootOnly(root);
    SeedVisited(nodes, [0], root, frontier, visited, allocator);
    o, expansions, maxQLength, maxDepthLimit, lastRound := DeepenVisited(nodes, [0], root, goal, frontier, visited, allocator, 1, fuel);
  }

  /**
   * The containers of `progressiveDeepeningSearch_with_NonStrict_VisitedList`, freshly
   * built: the arena, the stack of paths and the visited list, all empty.
   */
  method Containers(blockSize: nat, budget: nat) returns (frontier: Deque<nat>, visited: HashMap<Node>, allocator: StackSlabAllocator)
    requires blockSize > 0
    ensures frontier.Valid() && frontier.readPos == 0 && frontier.Contents() == [] && fresh(frontier.Repr)
    ensures visited.Valid() && visited.equal == SameEntry && visited.Contents() == multiset{} && fresh(visited.Repr)
    ensures allocator.Valid() && allocator.Handed() == [] && fresh(allocator) && Disjoint(frontier, visited, allocator)
  {
    allocator := new StackSlabAllocator(blockSize, budget);
    frontier := new Deque<nat>();
    EntryHashes();
    visited := new HashMap<Node>(NodeHash, SameEntry);
  }

  /** The outer loop of `progressiveDeepeningSearch_with_NonStrict_VisitedList`. */
  method DeepenVisited(nodesIn: seq<Node>, ghost rankIn: seq<nat>, ghost root: Board, goal: Board,
                       frontier: Deque<nat>, visited: HashMap<Node>, allocator: StackSlabAllocator, maxQLengthIn: nat, fuel: nat)
      returns (o: Outcome, expansions: nat, maxQLength: nat, maxDepthLimit: nat, ghost lastRound: seq<nat>)
    requires SearchingVisited(nodesIn, rankIn, root, 1, frontier, visited, allocator)
    requires frontier.Contents() == [0] && |goal.tiles| == Cells
    modifies frontier.Repr, visited.Repr, allocator
    ensures maxDepthLimit >= 1
    ensures o.Found? ==> Replay(root, o.path) == Some(goal) && |o.path| <= maxDepthLimit
    ensures o == NoSolution ==> forall i :: 0 <= i < |lastRound| ==> lastRound[i] < maxDepthLimit
  {
    var nodes := nodesIn;
    ghost var rank := rankIn;
    o, expansions, maxQLength, maxDepthLimit, lastRound := Stopped, 0, maxQLengthIn, 1, [];
    var fuelLeft := fuel;
    var done := false;
    while !done
      invariant !done ==> SearchingVisited(nodes, rank, root, maxDepthLimit, frontier, visited, allocator)
      invariant !done ==> frontier.Contents() == [0]
      invariant fresh(frontier.Repr - old(frontier.Repr)) && fresh(visited.Repr - old(visited.Repr))
      invariant maxDepthLimit >= 1
      invariant done && o.Found? ==> Replay(root, o.path) == Some(goal) && |o.path| <= maxDepthLimit
      invariant done && o == NoSolution ==> forall i :: 0 <= i < |lastRound| ==> lastRound[i] < maxDepthLimit
      decreases fuelLeft + (if done then 0 else 1)
    {
      var fuel';
      done, o, nodes, rank, expansions, maxQLength, fuel', lastRound :=
        RoundOrRestart(nodes, rank, root, goal, maxDepthLimit, frontier, visited, allocator, expansions, maxQLength, fuelLeft);
      if !done {
        fuelLeft := fuel';
        maxDepthLimit := maxDepthLimit + 1;
      }
    }
  }

  /**
   * One pass of the outer loop: a round under depth limit `limit`, then either the outcome
   * that round settles or, when some path was cut off at the limit, the visited list and
   * the stack restarted for the limit one deeper.
   */
  method RoundOrRestart(nodes: seq<Node>, ghost rank: seq<nat>, ghost root: Board, goal: Board, limit: nat,
                        frontier: Deque<nat>, visited: HashMap<Node>, allocator: StackSlabAllocator,
                        expansions: nat, maxQLength: nat, fuelLeft: nat)
      returns (done: bool, o: Outcome, nodes': seq<Node>, ghost rank': seq<nat>, expansions': nat, maxQLength': nat,
               fuelLeft': nat, ghost lastRound: seq<nat>)
    requires SearchingVisited(nodes, rank, root, limit, frontier, visited, allocator)
    requires frontier.Contents() == [0] && |goal.tiles| == Cells
    modifies frontier.Repr, visited.Repr, allocator
    ensures fresh(frontier.Repr - old(frontier.Repr)) && fresh(visited.Repr - old(visited.Repr))
    ensures !done ==> SearchingVisited(nodes', rank', root, limit + 1, frontier, visited, allocator)
    ensures !done ==> frontier.Contents() == [0] && fuelLeft' < fuelLeft
    ensures done && o.Found? ==> Replay(root, o.path) == Some(goal) && |o.path| <= limit
    ensures done && o == NoSolution ==> forall i :: 0 <= i < |lastRound| ==> lastRound[i] < limit
  {
    var found, path, mightExist, ok, stopped;
    found, path, mightExist, nodes', rank', ok, expansions', maxQLength', stopped, fuelLeft', lastRound :=
      RoundVisited(nodes, rank, root, goal, limit, frontier, visited, allocator, expansions, maxQLength, fuelLeft);
    done := true;
    if found {
      o := Found(path);
    } else if !ok {
      o := OutOfMemory;
    } else if stopped {
      o := Stopped;
    } else if !mightExist {
      o := NoSolution;
    } else {
      done, o := false, Stopped;
      assert nodes'[0].depth == 0;
      Restart(nodes', rank', root, limit + 1, frontier, visited, allocator);
    }
  }
}
