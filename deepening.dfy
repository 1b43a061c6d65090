/**
 * `progressiveDeepeningSearch_No_VisitedList` and
 * `progressiveDeepeningSearch_with_NonStrict_VisitedList`, with their helpers
 * `expandPathDepthLimited` and `expandPathDepthLimitedVisited`.
 *
 * The frontier is a `Deque` of node indices used last in, first out: only `push_back`,
 * `pop_back` and `back` are called on it, so its read position stays 0.  A node's
 * `depth` is the `depth` field of `MapWithDepth`.
 */
module Deepening {
  import opened Common
  import opened Puzzle
  import opened Paths
  import opened Deques
  import opened SlabAllocators
  import opened HashMaps
  import opened Searches
  import opened Breadth

  /** Node `i` has a parent among the nodes and is one deeper than it. */
  ghost predicate OneDeeper(nodes: seq<Node>, i: nat)
    requires i < |nodes|
  {
    nodes[i].next.Some? && nodes[i].next.value < |nodes| &&
    nodes[i].depth == nodes[nodes[i].next.value].depth + 1
  }

  /** The root has depth 0 and every other node is one deeper than its parent. */
  ghost predicate Deep(nodes: seq<Node>, rank: seq<nat>)
    requires Linked(nodes, rank)
  {
    (|nodes| > 0 ==> nodes[0].depth == 0) &&
    forall i :: 0 < i < |nodes| ==> OneDeeper(nodes, i)
  }

  /** In such a tree the `depth` field of a node is the length of its move string. */
  lemma {:induction false} DepthIsMoves(nodes: seq<Node>, rank: seq<nat>, k: nat)
    requires Linked(nodes, rank) && Deep(nodes, rank) && k < |nodes|
    ensures nodes[k].depth == Depth(nodes, rank, k) == |Moves(nodes, rank, k)|
    decreases rank[k]
  {
    if k > 0 {
      assert OneDeeper(nodes, k);
      DepthIsMoves(nodes, rank, nodes[k].next.value);
    }
  }

  /**
   * The node `expandPathDepthLimited` builds: the successor of node `p` for the blank
   * moved to `m`, one deeper than `p`.
   */
  function DeepChild(nodes: seq<Node>, p: nat, m: nat): (r: Node)
    requires p < |nodes| && |nodes[p].board.tiles| == Cells && nodes[p].board.emptyPos < Cells && m < Cells
    ensures r.board == Move(nodes[p].board, m) && r.next == Some(p) && r.depth == nodes[p].depth + 1
  {
    nodes[p].(board := Move(nodes[p].board, m), next := Some(p), depth := nodes[p].depth + 1)
  }

  /** The deeper successors of node `p` for the blank moved to each of `moves`, in that order. */
  function DeepChildrenAt(nodes: seq<Node>, p: nat, moves: seq<nat>): (r: seq<Node>)
    requires p < |nodes| && |nodes[p].board.tiles| == Cells && nodes[p].board.emptyPos < Cells
    requires forall k :: 0 <= k < |moves| ==> moves[k] < Cells
    ensures |r| == |moves|
    ensures forall k :: 0 <= k < |moves| ==> r[k] == DeepChild(nodes, p, moves[k])
  {
    seq(|moves|, k requires 0 <= k < |moves| => DeepChild(nodes, p, moves[k]))
  }

  /** The successors of node `p` in the order up, right, down, left, each one deeper than `p`. */
  function DeepChildren(nodes: seq<Node>, p: nat): (r: seq<Node>)
    requires p < |nodes| && |nodes[p].board.tiles| == Cells && nodes[p].board.emptyPos < Cells
    ensures 2 <= |r| <= 4
    ensures forall k :: 0 <= k < |r| ==> r[k].depth == nodes[p].depth + 1 && r[k].next == Some(p)
  {
    NeighboursAdjacent(nodes[p].board.emptyPos, 0);
    DeepChildrenAt(nodes, p, Neighbours(nodes[p].board.emptyPos))
  }

  /** A tree whose depths are right stays so when a node one deeper than its parent is added. */
  lemma DeepGrow(nodes: seq<Node>, rank: seq<nat>, root: Board, p: nat, n: Node)
    requires Tree(nodes, rank, root) && Deep(nodes, rank) && p < |nodes|
    requires n.next == Some(p) && n.board.emptyPos < Cells && Adjacent(nodes[p].board.emptyPos, n.board.emptyPos)
    requires n.board == Move(nodes[p].board, n.board.emptyPos) && n.depth == nodes[p].depth + 1
    ensures Tree(nodes + [n], rank + [rank[p] + 1], root) && Deep(nodes + [n], rank + [rank[p] + 1])
  {
    GrowTree(nodes, rank, root, p, n);
    var nodes' := nodes + [n];
    forall i | 0 < i < |nodes'|
      ensures OneDeeper(nodes', i)
    {
      if i < |nodes| {
        assert OneDeeper(nodes, i);
        assert nodes'[i] == nodes[i];
      }
    }
  }

  /**
   * Writing the depth of the node just added, as `expandPathDepthLimited` does through
   * `back()`, changes neither its state nor its link: the tree stays a tree.
   */
  lemma Redepth(nodes: seq<Node>, rank: seq<nat>, root: Board, b: nat, d: nat)
    requires Tree(nodes, rank, root) && 0 < b < |nodes|
    ensures Tree(nodes[b := nodes[b].(depth := d)], rank, root)
  {
    var nodes' := nodes[b := nodes[b].(depth := d)];
    assert Linked(nodes', rank);
    forall i | 0 < i < |nodes'|
      ensures MovedFrom(nodes', rank, i)
    {
      assert MovedFrom(nodes, rank, i);
    }
  }

  /**
   * `expandPathDepthLimited`: `expandPathDepthFirst` followed by setting the depth of the
   * node at the back of the frontier, the one just pushed, to its parent's depth plus one.
   */
  method ExpandDepthLimited(nodes: seq<Node>, ghost rank: seq<nat>, ghost root: Board, parent: nat, newPos: nat, oldPos: nat,
                            frontier: Deque<nat>, allocator: StackSlabAllocator)
      returns (nodes': seq<Node>, ghost rank': seq<nat>, ok: bool)
    requires Tree(nodes, rank, root) && Deep(nodes, rank) && parent < |nodes| && nodes[parent].board.emptyPos == oldPos
    requires newPos < Cells && Adjacent(oldPos, newPos)
    requires frontier.Valid() && frontier.readPos == 0 && allocator.Valid() && allocator !in frontier.Repr
    modifies frontier.Repr, allocator
    ensures frontier.Valid() && frontier.readPos == 0 && allocator.Valid() && fresh(frontier.Repr - old(frontier.Repr))
    ensures Tree(nodes', rank', root) && Deep(nodes', rank')
    ensures ok ==> nodes' == nodes + [DeepChild(nodes, parent, newPos)]
    ensures !ok ==> nodes' == nodes
    ensures |nodes| <= |nodes'| && frontier.Contents() == old(frontier.Contents()) + Span(|nodes|, |nodes'|)
    ensures SlotsAdded(old(allocator.Handed()), allocator.Handed(), |nodes'| - |nodes|)
  {
    nodes', rank', ok := ExpandDepthFirst(nodes, rank, root, parent, newPos, oldPos, frontier, allocator);
    if !ok {
      return;
    }
    var b := frontier.Back();
    assert b == |nodes|;
    Redepth(nodes', rank', root, b, nodes[parent].depth + 1);
    nodes' := nodes'[b := nodes'[b].(depth := nodes[parent].depth + 1)];
    assert nodes' == nodes + [DeepChild(nodes, parent, newPos)];
    DeepGrow(nodes, rank, root, parent, DeepChild(nodes, parent, newPos));
  }

  /** One more deeper successor appended keeps the nodes in step with the moves made so far. */
  lemma AppendDeepChild(nodes: seq<Node>, p: nat, moves: seq<nat>, k: nat, nodes': seq<Node>, nodes'': seq<Node>)
    requires p < |nodes| && |nodes[p].board.tiles| == Cells && nodes[p].board.emptyPos < Cells
    requires (forall i :: 0 <= i < |moves| ==> moves[i] < Cells) && k < |moves|
    requires nodes' == nodes + DeepChildrenAt(nodes, p, moves[..k])
    requires nodes'' == nodes' + [DeepChild(nodes', p, moves[k])]
    ensures |nodes''| == |nodes| + k + 1 && nodes'' == nodes + DeepChildrenAt(nodes, p, moves[..k + 1])
  {
    assert nodes'[p] == nodes[p];
    assert moves[..k + 1] == moves[..k] + [moves[k]];
    assert DeepChildrenAt(nodes, p, moves[..k + 1]) == DeepChildrenAt(nodes, p, moves[..k]) + [DeepChild(nodes, p, moves[k])];
  }

  /**
   * The four guarded `expandPathDepthLimited` calls: the successors of node `current` for
   * the moves up, right, down and left that stay inside the grid are pushed, each one
   * deeper than `current`.  `ok` is false when the arena runs out of memory part way.
   */
  method ExpandLimited(nodes: seq<Node>, ghost rank: seq<nat>, ghost root: Board, current: nat,
                       frontier: Deque<nat>, allocator: StackSlabAllocator)
      returns (nodes': seq<Node>, ghost rank': seq<nat>, ok: bool)
    requires Tree(nodes, rank, root) && Deep(nodes, rank) && current < |nodes|
    requires frontier.Valid() && frontier.readPos == 0 && allocator.Valid() && allocator !in frontier.Repr
    modifies frontier.Repr, allocator
    ensures frontier.Valid() && frontier.readPos == 0 && allocator.Valid() && fresh(frontier.Repr - old(frontier.Repr))
    ensures Tree(nodes', rank', root) && Deep(nodes', rank')
    ensures |nodes| <= |nodes'| <= |nodes| + |Neighbours(nodes[current].board.emptyPos)|
    ensures nodes' == nodes + DeepChildrenAt(nodes, current, Neighbours(nodes[current].board.emptyPos)[..|nodes'| - |nodes|])
    ensures frontier.Contents() == old(frontier.Contents()) + Span(|nodes|, |nodes'|)
    ensures ok ==> nodes' == nodes + DeepChildren(nodes, current)
    ensures SlotsAdded(old(allocator.Handed()), allocator.Handed(), |nodes'| - |nodes|)
  {
    var emptyPos := nodes[current].board.emptyPos;
    var moves := Neighbours(emptyPos);
    nodes', rank', ok := nodes, rank, true;
    var k := 0;
    ghost var before := frontier.Contents();
    SpanEmpty(before, |nodes|);
    while k < |moves|
      invariant 0 <= k <= |moves|
      invariant frontier.Valid() && frontier.readPos == 0 && allocator.Valid() && allocator !in frontier.Repr
      invariant fresh(frontier.Repr - old(frontier.Repr))
      invariant Tree(nodes', rank', root) && Deep(nodes', rank')
      invariant |nodes'| == |nodes| + k && nodes' == nodes + DeepChildrenAt(nodes, current, moves[..k])
      invariant frontier.Contents() == before + Span(|nodes|, |nodes'|)
      invariant SlotsAdded(old(allocator.Handed()), allocator.Handed(), |nodes'| - |nodes|)
    {
      ghost var held := allocator.Handed();
      var nodes1 := nodes';
      nodes', rank', ok := LimitedMove(nodes, current, moves, k, nodes', rank', root, frontier, allocator, before);
      SlotsAddedJoin(old(allocator.Handed()), held, allocator.Handed(), |nodes1| - |nodes|, |nodes'| - |nodes1|);
      if !ok {
        return;
      }
      k := k + 1;
    }
    assert k == |moves|;
    assert moves[..k] == moves;
  }

  /** The `k`-th guarded `expandPathDepthLimited` call of `ExpandLimited`. */
  method LimitedMove(nodes: seq<Node>, current: nat, moves: seq<nat>, k: nat,
                     nodes': seq<Node>, ghost rank': seq<nat>, ghost root: Board,
                     frontier: Deque<nat>, allocator: StackSlabAllocator, ghost before: seq<nat>)
      returns (nodes'': seq<Node>, ghost rank'': seq<nat>, ok: bool)
    requires current < |nodes| && |nodes[current].board.tiles| == Cells && nodes[current].board.emptyPos < Cells
    requires moves == Neighbours(nodes[current].board.emptyPos) && k < |moves|
    requires frontier.Valid() && frontier.readPos == 0 && allocator.Valid() && allocator !in frontier.Repr
    requires Tree(nodes', rank', root) && Deep(nodes', rank')
    requires |nodes'| == |nodes| + k && nodes' == nodes + DeepChildrenAt(nodes, current, moves[..k])
    requires frontier.Contents() == before + Span(|nodes|, |nodes'|)
    modifies frontier.Repr, allocator
    ensures frontier.Valid() && frontier.readPos == 0 && allocator.Valid() && fresh(frontier.Repr - old(frontier.Repr))
    ensures Tree(nodes'', rank'', root) && Deep(nodes'', rank'')
    ensures ok ==> |nodes''| == |nodes| + k + 1 && nodes'' == nodes + DeepChildrenAt(nodes, current, moves[..k + 1])
    ensures !ok ==> nodes'' == nodes'
    ensures frontier.Contents() == before + Span(|nodes|, |nodes''|)
    ensures SlotsAdded(old(allocator.Handed()), allocator.Handed(), |nodes''| - |nodes'|)
  {
    NeighboursAdjacent(nodes[current].board.emptyPos, moves[k]);
    assert moves[k] in moves;
    assert nodes'[current] == nodes[current];
    nodes'', rank'', ok := ExpandDepthLimited(nodes', rank', root, current, moves[k], nodes[current].board.emptyPos, frontier, allocator);
    SpanJoin(before, |nodes|, |nodes'|, |nodes''|);
    if ok {
      AppendDeepChild(nodes, current, moves, k, nodes', nodes'');
    }
  }

  /** Every queued node is a node of the tree no deeper than the depth limit. */
  ghost predicate Bounded(stack: seq<nat>, nodes: seq<Node>, limit: nat)
  {
    forall k :: 0 <= k < |stack| ==> stack[k] < |nodes| && nodes[stack[k]].depth <= limit
  }

  /**
   * Pushing successors of a node above the limit, one deeper than it, onto a bounded
   * stack leaves it bounded; the nodes before them are unchanged.
   */
  lemma PushBounded(stack: seq<nat>, nodes: seq<Node>, p: nat, moves: seq<nat>, nodes': seq<Node>, limit: nat)
    requires p < |nodes| && |nodes[p].board.tiles| == Cells && nodes[p].board.emptyPos < Cells
    requires forall k :: 0 <= k < |moves| ==> moves[k] < Cells
    requires nodes' == nodes + DeepChildrenAt(nodes, p, moves)
    requires Bounded(stack, nodes, limit) && nodes[p].depth < limit
    ensures nodes'[..|nodes|] == nodes
    ensures Bounded(stack + Span(|nodes|, |nodes'|), nodes', limit)
  {
    var pushed := stack + Span(|nodes|, |nodes'|);
    forall k | 0 <= k < |pushed|
      ensures pushed[k] < |nodes'| && nodes'[pushed[k]].depth <= limit
    {
      if k < |stack| {
        assert nodes'[stack[k]] == nodes[stack[k]];
      } else {
        assert nodes'[pushed[k]] == DeepChildrenAt(nodes, p, moves)[pushed[k] - |nodes|];
      }
    }
  }

  /**
   * One pass of the inner loop past the goal test: the newest path is popped; when its
   * depth is not the limit it is expanded and `maxQLength` raised to the new frontier
   * length when that is longer, and when it is at the limit nothing is pushed and
   * `atLimit` reports that a solution might exist deeper.
   */
  method PopAndExpand(nodes: seq<Node>, ghost rank: seq<nat>, ghost root: Board, current: nat, limit: nat,
                      frontier: Deque<nat>, allocator: StackSlabAllocator, maxQLength: nat)
      returns (nodes': seq<Node>, ghost rank': seq<nat>, ok: bool, atLimit: bool, maxQLength': nat)
    requires Tree(nodes, rank, root) && Deep(nodes, rank)
    requires frontier.Valid() && frontier.readPos == 0 && allocator.Valid() && allocator !in frontier.Repr
    requires frontier.Contents() != [] && current == frontier.Contents()[|frontier.Contents()| - 1]
    requires Bounded(frontier.Contents(), nodes, limit)
    modifies frontier.Repr, allocator
    ensures frontier.Valid() && frontier.readPos == 0 && allocator.Valid() && allocator !in frontier.Repr
    ensures fresh(frontier.Repr - old(frontier.Repr))
    ensures Tree(nodes', rank', root) && Deep(nodes', rank') && |nodes'| >= |nodes| && nodes'[..|nodes|] == nodes
    ensures Bounded(frontier.Contents(), nodes', limit)
    ensures atLimit <==> nodes[current].depth == limit
    ensures var popped := old(frontier.Contents())[..|old(frontier.Contents())| - 1];
      frontier.Contents() == popped + Span(|nodes|, |nodes'|)
    ensures atLimit ==> nodes' == nodes && ok && maxQLength' == maxQLength
    ensures !atLimit && ok ==> nodes' == nodes + DeepChildren(nodes, current)
    ensures !atLimit && ok ==> maxQLength' == if |frontier.Contents()| > maxQLength then |frontier.Contents()| else maxQLength
    ensures SlotsAdded(old(allocator.Handed()), allocator.Handed(), |nodes'| - |nodes|)
  {
    ghost var stack := frontier.Contents();
    assert current in stack;
    assert Bounded(stack[..|stack| - 1], nodes, limit);
    frontier.PopBack();
    nodes', rank', ok, maxQLength' := nodes, rank, true, maxQLength;
    atLimit := nodes[current].depth == limit;
    if atLimit {
      SpanEmpty(frontier.Contents(), |nodes|);
      return;
    }
    nodes', rank', ok, maxQLength' := ExpandBelow(nodes, rank, root, current, limit, frontier, allocator, maxQLength);
  }

  /**
   * The expansion branch of the inner loop, for a popped path below the limit: its
   * successors are pushed and `maxQLength` raised to the frontier length when that is longer.
   */
  method ExpandBelow(nodes: seq<Node>, ghost rank: seq<nat>, ghost root: Board, current: nat, limit: nat,
                     frontier: Deque<nat>, allocator: StackSlabAllocator, maxQLength: nat)
      returns (nodes': seq<Node>, ghost rank': seq<nat>, ok: bool, maxQLength': nat)
    requires Tree(nodes, rank, root) && Deep(nodes, rank) && current < |nodes| && nodes[current].depth < limit
    requires frontier.Valid() && frontier.readPos == 0 && allocator.Valid() && allocator !in frontier.Repr
    requires Bounded(frontier.Contents(), nodes, limit)
    modifies frontier.Repr, allocator
    ensures frontier.Valid() && frontier.readPos == 0 && allocator.Valid() && allocator !in frontier.Repr
    ensures fresh(frontier.Repr - old(frontier.Repr))
    ensures Tree(nodes', rank', root) && Deep(nodes', rank') && |nodes'| >= |nodes| && nodes'[..|nodes|] == nodes
    ensures Bounded(frontier.Contents(), nodes', limit)
    ensures frontier.Contents() == old(frontier.Contents()) + Span(|nodes|, |nodes'|)
    ensures ok ==> nodes' == nodes + DeepChildren(nodes, current)
    ensures ok ==> maxQLength' == if |frontier.Contents()| > maxQLength then |frontier.Contents()| else maxQLength
    ensures SlotsAdded(old(allocator.Handed()), allocator.Handed(), |nodes'| - |nodes|)
  {
    ghost var stack := frontier.Contents();
    nodes', rank', ok := ExpandLimited(nodes, rank, root, current, frontier, allocator);
    ghost var moves := Neighbours(nodes[current].board.emptyPos);
    NeighboursAdjacent(nodes[current].board.emptyPos, 0);
    PushBounded(stack, nodes, current, moves[..|nodes'| - |nodes|], nodes', limit);
    maxQLength' := maxQLength;
    if ok {
      var size := frontier.Size();
      if size > maxQLength {
        maxQLength' := size;
      }
    }
  }

  /**
   * One pass of the inner loop: the newest path is compared with the goal and, when it
   * is not the goal, popped and expanded unless it is at the limit.  `depth` is the
   * depth of the path looked at.
   */
  method Visit(nodes: seq<Node>, ghost rank: seq<nat>, ghost root: Board, goal: Board, limit: nat,
               frontier: Deque<nat>, allocator: StackSlabAllocator, maxQLength: nat)
      returns (found: bool, path: string, nodes': seq<Node>, ghost rank': seq<nat>, ok: bool, atLimit: bool,
               ghost depth: nat, maxQLength': nat)
    requires Searching(nodes, rank, root, limit, frontier, allocator) && frontier.Contents() != [] && |goal.tiles| == Cells
    modifies frontier.Repr, allocator
    ensures Searching(nodes', rank', root, limit, frontier, allocator) && fresh(frontier.Repr - old(frontier.Repr))
    ensures |nodes'| >= |nodes| && depth <= limit && (!found ==> (atLimit <==> depth == limit))
    ensures found ==> Replay(root, path) == Some(goal) && |path| <= limit
  {
    var current;
    current, found, path := TestNewest(nodes, rank, root, goal, limit, frontier);
    depth := nodes[current].depth;
    nodes', rank', ok, atLimit, maxQLength' := nodes, rank, true, false, maxQLength;
    if found {
      return;
    }
    nodes', rank', ok, atLimit, maxQLength' := PopAndExpand(nodes, rank, root, current, limit, frontier, allocator, maxQLength);
  }

  /**
   * The goal test at the top of the inner loop: the newest path on the stack is compared
   * with the goal, and when it reaches it, it is at most `limit` moves long.
   */
  method TestNewest(nodes: seq<Node>, ghost rank: seq<nat>, ghost root: Board, goal: Board, limit: nat, frontier: Deque<nat>)
      returns (current: nat, found: bool, path: string)
    requires frontier.Valid() && frontier.readPos == 0 && frontier.Contents() != [] && |goal.tiles| == Cells
    requires Tree(nodes, rank, root) && Deep(nodes, rank) && Bounded(frontier.Contents(), nodes, limit)
    ensures current == frontier.Contents()[|frontier.Contents()| - 1] && current < |nodes| && nodes[current].depth <= limit
    ensures found <==> nodes[current].board == goal
    ensures found ==> Replay(root, path) == Some(goal) && |path| <= limit
  {
    current := frontier.Back();
    assert current in frontier.Contents();
    found, path := GoalTest(nodes, rank, root, current, goal);
    if found {
      DepthIsMoves(nodes, rank, current);
    }
  }

  /**
   * What a round of the inner loop keeps: the containers, one arena slot in use per node,
   * the tree, and a bounded stack.
   */
  ghost predicate Searching(nodes: seq<Node>, rank: seq<nat>, root: Board, limit: nat,
                            frontier: Deque<nat>, allocator: StackSlabAllocator)
    reads frontier, frontier.Repr, allocator
  {
    frontier.Valid() && frontier.readPos == 0 && allocator.Valid() && allocator !in frontier.Repr &&
    |allocator.Handed()| == |nodes| &&
    Tree(nodes, rank, root) && Deep(nodes, rank) && Bounded(frontier.Contents(), nodes, limit)
  }

  /**
   * The inner `while (!posiblePaths.empty())` loop under depth limit `limit`: the newest
   * path is compared with the goal, then popped and expanded unless it is at the limit.
   * `popped` lists the depth of each path popped; every one counts as an expansion, and
   * `mightExist` is set exactly when one of them was at the limit.  A goal found is at
   * most `limit` moves from the initial state.  `stopped` means the fuel ran out.
   */
  method Round(nodesIn: seq<Node>, ghost rankIn: seq<nat>, ghost root: Board, goal: Board, limit: nat,
               frontier: Deque<nat>, allocator: StackSlabAllocator, expansionsIn: nat, maxQLengthIn: nat, fuel: nat)
      returns (found: bool, path: string, mightExist: bool, nodes: seq<Node>, ghost rank: seq<nat>, ok: bool,
               expansions: nat, maxQLength: nat, stopped: bool, fuelLeft: nat, ghost popped: seq<nat>)
    requires Searching(nodesIn, rankIn, root, limit, frontier, allocator) && |goal.tiles| == Cells
    modifies frontier.Repr, allocator
    ensures Searching(nodes, rank, root, limit, frontier, allocator) && fresh(frontier.Repr - old(frontier.Repr))
    ensures |nodes| >= |nodesIn| && fuelLeft <= fuel
    ensures found ==> Replay(root, path) == Some(goal) && |path| <= limit
    ensures expansions == expansionsIn + |popped|
    ensures forall i :: 0 <= i < |popped| ==> popped[i] <= limit
    ensures mightExist <==> limit in popped
    ensures !found && ok && !stopped ==> frontier.Contents() == []
    ensures old(frontier.Contents()) != [] && !stopped ==> fuelLeft < fuel
  {
    nodes, rank := nodesIn, rankIn;
    expansions, maxQLength, fuelLeft := expansionsIn, maxQLengthIn, fuel;
    found, path, mightExist, ok, stopped, popped := false, "", false, true, false, [];
    while true
      invariant Searching(nodes, rank, root, limit, frontier, allocator) && fresh(frontier.Repr - old(frontier.Repr))
      invariant |nodes| >= |nodesIn| && fuelLeft <= fuel
      invariant expansions == expansionsIn + |popped|
      invariant forall i :: 0 <= i < |popped| ==> popped[i] <= limit
      invariant mightExist <==> limit in popped
      invariant old(frontier.Contents()) != [] && popped == [] ==> frontier.Contents() != []
      invariant popped != [] ==> fuelLeft < fuel
      decreases fuelLeft
    {
      var empty := frontier.Empty();
      if empty {
        return;
      }
      if fuelLeft == 0 {
        stopped := true;
        return;
      }
      fuelLeft := fuelLeft - 1;
      var atLimit;
      ghost var depth;
      found, path, nodes, rank, ok, atLimit, depth, maxQLength := Visit(nodes, rank, root, goal, limit, frontier, allocator, maxQLength);
      if found {
        return;
      }
      if !ok {
        return;
      }
      popped := popped + [depth];
      if atLimit {
        mightExist := true;
      }
      expansions := expansions + 1;
    }
  }

  /**
   * `progressiveDeepeningSearch_No_VisitedList`: depth-first search from the initial state
   * under a depth limit that starts at 1; after a round that neither found the goal nor
   * popped a path at the limit it stops, otherwise the limit grows by one and the root is
   * pushed again.  The nodes of earlier rounds stay in the arena.  `maxDepthLimit` is the
   * final limit, which the source assigns to a by-value parameter and so does not report.
   */
  method DeepeningSearch(initialState: string, goalState: string, goalStart: Board, maxQLengthIn: nat,
                         blockSize: nat, budget: nat, fuel: nat)
      returns (o: Outcome, expansions: nat, maxQLength: nat, maxDepthLimit: nat, ghost lastRound: seq<nat>)
    requires |initialState| <= Cells && |goalState| <= Cells && |goalStart.tiles| == Cells && blockSize > 0
    ensures maxDepthLimit >= 1
    ensures o.Found? ==> Replay(Parsed(initialState, Zero()), o.path) == Some(Parsed(goalState, goalStart))
    ensures o.Found? ==> |o.path| <= maxDepthLimit
    ensures o == NoSolution ==> forall i :: 0 <= i < |lastRound| ==> lastRound[i] < maxDepthLimit
  {
    o, expansions, maxQLength, maxDepthLimit, lastRound := OutOfMemory, 0, maxQLengthIn, 1, [];
    var goal := Parse(goalState, goalStart);
    var allocator := new StackSlabAllocator(blockSize, budget);
    var frontier := new Deque<nat>();
    var got, slot := allocator.GetNext();
    if got {
      var root := Parse(initialState, Zero());
      o, expansions, maxQLength, maxDepthLimit, lastRound := SeedAndDeepen(root, goal, frontier, allocator, fuel);
    }
  }

  /** Queues the initial state as the root path and runs the deepening rounds from it. */
  method SeedAndDeepen(root: Board, goal: Board, frontier: Deque<nat>, allocator: StackSlabAllocator, fuel: nat)
      returns (o: Outcome, expansions: nat, maxQLength: nat, maxDepthLimit: nat, ghost lastRound: seq<nat>)
    requires |root.tiles| == Cells && root.emptyPos < Cells && |goal.tiles| == Cells
    requires frontier.Valid() && frontier.Contents() == [] && frontier.readPos == 0
    requires allocator.Valid() && allocator !in frontier.Repr && |allocator.Handed()| == 1
    modifies frontier.Repr, allocator
    ensures maxDepthLimit >= 1
    ensures o.Found? ==> Replay(root, o.path) == Some(goal) && |o.path| <= maxDepthLimit
    ensures o == NoSolution ==> forall i :: 0 <= i < |lastRound| ==> lastRound[i] < maxDepthLimit
  {
    var nodes := [Node(root, 0, 0, 0, None)];
    RootOnly(root);
    frontier.PushBack(0);
    o, expansions, maxQLength, maxDepthLimit, lastRound := Deepen(nodes, [0], root, goal, frontier, allocator, 1, fuel);
  }

  /**
   * The outer `while (true)` loop of `progressiveDeepeningSearch_No_VisitedList`, from a
   * frontier holding the root alone and a depth limit of 1.
   */
  method Deepen(nodesIn: seq<Node>, ghost rankIn: seq<nat>, ghost root: Board, goal: Board,
                frontier: Deque<nat>, allocator: StackSlabAllocator, maxQLengthIn: nat, fuel: nat)
      returns (o: Outcome, expansions: nat, maxQLength: nat, maxDepthLimit: nat, ghost lastRound: seq<nat>)
    requires Searching(nodesIn, rankIn, root, 1, frontier, allocator) && frontier.Contents() == [0] && |goal.tiles| == Cells
    modifies frontier.Repr, allocator
    ensures maxDepthLimit >= 1
    ensures o.Found? ==> Replay(root, o.path) == Some(goal) && |o.path| <= maxDepthLimit
    ensures o == NoSolution ==> forall i :: 0 <= i < |lastRound| ==> lastRound[i] < maxDepthLimit
  {
    var nodes := nodesIn;
    ghost var rank := rankIn;
    expansions, maxQLength, maxDepthLimit, lastRound := 0, maxQLengthIn, 1, [];
    var fuelLeft := fuel;
    while true
      invariant Searching(nodes, rank, root, maxDepthLimit, frontier, allocator) && frontier.Contents() == [0]
      invariant fresh(frontier.Repr - old(frontier.Repr)) && maxDepthLimit >= 1
      decreases fuelLeft
    {
      var found, path, mightExist, ok, stopped, fuel';
      found, path, mightExist, nodes, rank, ok, expansions, maxQLength, stopped, fuel', lastRound :=
        Round(nodes, rank, root, goal, maxDepthLimit, frontier, allocator, expansions, maxQLength, fuelLeft);
      if found {
        return Found(path), expansions, maxQLength, maxDepthLimit, lastRound;
      }
      if !ok {
        return OutOfMemory, expansions, maxQLength, maxDepthLimit, lastRound;
      }
      if stopped {
        return Stopped, expansions, maxQLength, maxDepthLimit, lastRound;
      }
      if !mightExist {
        return NoSolution, expansions, maxQLength, maxDepthLimit, lastRound;
      }
      fuelLeft := fuel';
      maxDepthLimit := maxDepthLimit + 1;
      frontier.PushBack(0);
      assert nodes[0].depth == 0;
    }
  }
}
