/**
 * `breadthFirstSearch` and `breadthFirstSearch_with_VisitedList`, with their helpers
 * `expandPathDepthFirst` and `expandPathDepthFirstVisited`.
 *
 * The nodes the arena hands out are the sequence `nodes`: every node holds one arena slot,
 * so as many slots are in use as there are nodes, and a successor that is dropped gives its
 * slot back.  The frontier is a `Deque` of node indices used first in, first out, and the
 * visited list is a `HashMap` of states.
 */
module Breadth {
  import opened Common
  import opened Puzzle
  import opened Paths
  import opened Deques
  import opened SlabAllocators
  import opened HashMaps
  import opened Searches

  /**
   * `expandPathDepthFirst`: takes a slot from the arena, builds the successor of node
   * `parent` with the blank moved to `newPos` and appends it to the frontier.  `ok` is
   * false when the arena cannot get memory.
   */
  method ExpandDepthFirst(nodes: seq<Node>, ghost rank: seq<nat>, ghost root: Board, parent: nat, newPos: nat, oldPos: nat,
                          frontier: Deque<nat>, allocator: StackSlabAllocator)
      returns (nodes': seq<Node>, ghost rank': seq<nat>, ok: bool)
    requires Tree(nodes, rank, root) && parent < |nodes| && nodes[parent].board.emptyPos == oldPos
    requires newPos < Cells && Adjacent(oldPos, newPos)
    requires frontier.Valid() && allocator.Valid() && allocator !in frontier.Repr
    modifies frontier.Repr, allocator
    ensures frontier.Valid() && allocator.Valid() && fresh(frontier.Repr - old(frontier.Repr))
    ensures Tree(nodes', rank', root)
    ensures old(frontier.readPos) == 0 ==> frontier.readPos == 0
    ensures ok ==> nodes' == nodes + [nodes[parent].(board := Move(nodes[parent].board, newPos), next := Some(parent))]
    ensures |nodes| <= |nodes'| <= |nodes| + 1 && frontier.Contents() == old(frontier.Contents()) + Span(|nodes|, |nodes'|)
    ensures !ok ==> nodes' == nodes
    ensures SlotsAdded(old(allocator.Handed()), allocator.Handed(), |nodes'| - |nodes|)
  {
    var got, slot := allocator.GetNext();
    nodes', rank', ok := nodes, rank, got;
    if got {
      var n := Successor(nodes, parent, newPos, oldPos);
      nodes', rank' := PushChild(nodes, rank, root, parent, n, frontier);
    } else {
      SpanEmpty(frontier.Contents(), |nodes|);
    }
  }

  /** The push shared by the `expandPath*` helpers: the new node goes onto the back of the frontier. */
  method PushChild(nodes: seq<Node>, ghost rank: seq<nat>, ghost root: Board, parent: nat, n: Node, frontier: Deque<nat>)
      returns (nodes': seq<Node>, ghost rank': seq<nat>)
    requires Tree(nodes, rank, root) && parent < |nodes| && n.next == Some(parent)
    requires n.board.emptyPos < Cells && Adjacent(nodes[parent].board.emptyPos, n.board.emptyPos)
    requires n.board == Move(nodes[parent].board, n.board.emptyPos)
    requires frontier.Valid()
    modifies frontier.Repr
    ensures frontier.Valid() && fresh(frontier.Repr - old(frontier.Repr))
    ensures old(frontier.readPos) == 0 ==> frontier.readPos == 0
    ensures nodes' == nodes + [n] && Tree(nodes', rank', root)
    ensures frontier.Contents() == old(frontier.Contents()) + Span(|nodes|, |nodes'|)
  {
    GrowTree(nodes, rank, root, parent, n);
    frontier.PushBack(|nodes|);
    nodes', rank' := nodes + [n], rank + [rank[parent] + 1];
    assert Span(|nodes|, |nodes'|) == [|nodes|];
  }

  /**
   * `breadthFirstSearch`: takes the oldest path off the frontier until its state is the
   * goal, appending every successor of each state it expands.  `goalStart` stands for the
   * uninitialised goal `Map`, `maxQLengthIn` for the caller's variable behind `maxQLength`.
   * A path it finds leads from the initial state to the goal.
   */
  method BreadthFirstSearch(initialState: string, goalState: string, goalStart: Board, maxQLengthIn: nat,
                            blockSize: nat, budget: nat, fuel: nat)
      returns (o: Outcome, expansions: nat, maxQLength: nat)
    requires |initialState| <= Cells && |goalState| <= Cells && |goalStart.tiles| == Cells && blockSize > 0
    ensures o.Found? ==> Replay(Parsed(initialState, Zero()), o.path) == Some(Parsed(goalState, goalStart))
    ensures o != NoSolution || expansions > 0
  {
    expansions, maxQLength := 0, maxQLengthIn;
    var goal := Parse(goalState, goalStart);
    var allocator := new StackSlabAllocator(blockSize, budget);
    var frontier := new Deque<nat>();
    var got, slot := allocator.GetNext();
    if !got {
      return OutOfMemory, expansions, maxQLength;
    }
    var root := Parse(initialState, Zero());
    var nodes := [Node(root, 0, 0, 0, None)];
    frontier.PushBack(0);
    maxQLength := 1;
    o, expansions, maxQLength := Drain(nodes, [0], root, goal, frontier, allocator, maxQLength, fuel);
  }

  /**
   * The loop of `breadthFirstSearch`: while the frontier is not empty, the front path is
   * compared with the goal and, when it is not the goal, expanded.
   */
  method Drain(nodesIn: seq<Node>, ghost rankIn: seq<nat>, ghost root: Board, goal: Board,
               frontier: Deque<nat>, allocator: StackSlabAllocator, maxQLengthIn: nat, fuel: nat)
      returns (o: Outcome, expansions: nat, maxQLength: nat)
    requires Tree(nodesIn, rankIn, root) && |goal.tiles| == Cells
    requires frontier.Valid() && allocator.Valid() && allocator !in frontier.Repr
    requires frontier.Contents() != []
    requires forall k :: 0 <= k < |frontier.Contents()| ==> frontier.Contents()[k] < |nodesIn|
    requires |allocator.Handed()| == |nodesIn|
    modifies frontier.Repr, allocator
    ensures o.Found? ==> Replay(root, o.path) == Some(goal)
    ensures o != NoSolution || expansions > 0
  {
    var nodes := nodesIn;
    ghost var rank := rankIn;
    expansions, maxQLength := 0, maxQLengthIn;
    var fuelLeft := fuel;
    while true
      invariant frontier.Valid() && allocator.Valid() && allocator !in frontier.Repr
      invariant fresh(frontier.Repr - old(frontier.Repr))
      invariant Tree(nodes, rank, root) && |allocator.Handed()| == |nodes|
      invariant forall k :: 0 <= k < |frontier.Contents()| ==> frontier.Contents()[k] < |nodes|
      invariant frontier.Contents() == [] ==> expansions > 0
      decreases fuelLeft
    {
      var empty := frontier.Empty();
      if empty {
        return NoSolution, expansions, maxQLength;
      }
      if fuelLeft == 0 {
        return Stopped, expansions, maxQLength;
      }
      fuelLeft := fuelLeft - 1;
      var current := frontier.Front();
      var isGoal, path := GoalTest(nodes, rank, root, current, goal);
      if isGoal {
        return Found(path), expansions, maxQLength;
      }
      var ok;
      nodes, rank, ok, maxQLength := ExpandFront(nodes, rank, root, current, frontier, allocator, maxQLength);
      if !ok {
        return OutOfMemory, expansions, maxQLength;
      }
      expansions := expansions + 1;
    }
  }

  /**
   * One pass of the loop of `breadthFirstSearch` past the goal test: the front path is
   * taken off the frontier, its successors are appended, and `maxQLength` is raised to the
   * frontier's new length when that is longer.
   */
  method ExpandFront(nodes: seq<Node>, ghost rank: seq<nat>, ghost root: Board, current: nat,
                     frontier: Deque<nat>, allocator: StackSlabAllocator, maxQLength: nat)
      returns (nodes': seq<Node>, ghost rank': seq<nat>, ok: bool, maxQLength': nat)
    requires Tree(nodes, rank, root)
    requires frontier.Valid() && allocator.Valid() && allocator !in frontier.Repr
    requires frontier.Contents() != [] && current == frontier.Contents()[0] && current < |nodes|
    requires |nodes[current].board.tiles| == Cells && nodes[current].board.emptyPos < Cells
    requires forall k :: 0 <= k < |frontier.Contents()| ==> frontier.Contents()[k] < |nodes|
    modifies frontier.Repr, allocator
    ensures frontier.Valid() && allocator.Valid() && allocator !in frontier.Repr
    ensures fresh(frontier.Repr - old(frontier.Repr))
    ensures Tree(nodes', rank', root) && |nodes'| >= |nodes|
    ensures frontier.Contents() == old(frontier.Contents())[1..] + Span(|nodes|, |nodes'|)
    ensures forall k :: 0 <= k < |frontier.Contents()| ==> frontier.Contents()[k] < |nodes'|
    ensures ok ==> nodes' == nodes + Children(nodes, current)
    ensures ok ==> maxQLength' == if |frontier.Contents()| > maxQLength then |frontier.Contents()| else maxQLength
    ensures SlotsAdded(old(allocator.Handed()), allocator.Handed(), |nodes'| - |nodes|)
  {
    ghost var front := frontier.Contents();
    frontier.PopFront();
    nodes', rank', ok := ExpandFirst(nodes, rank, root, current, frontier, allocator);
    PopSpanBelow(front, |nodes|, |nodes'|);
    maxQLength' := maxQLength;
    if ok {
      var size := frontier.Size();
      if size > maxQLength {
        maxQLength' := size;
      }
    }
  }

  /**
   * The four guarded `expandPathDepthFirst` calls of `breadthFirstSearch`: the successors
   * of node `current` for the moves up, right, down and left that stay inside the grid
   * (the list `Neighbours` gives, in that order) are appended to the nodes and to the
   * frontier.  `ok` is false when the arena runs out of memory part way.
   */
  method ExpandFirst(nodes: seq<Node>, ghost rank: seq<nat>, ghost root: Board, current: nat,
                     frontier: Deque<nat>, allocator: StackSlabAllocator)
      returns (nodes': seq<Node>, ghost rank': seq<nat>, ok: bool)
    requires Tree(nodes, rank, root) && current < |nodes|
    requires frontier.Valid() && allocator.Valid() && allocator !in frontier.Repr
    modifies frontier.Repr, allocator
    ensures frontier.Valid() && allocator.Valid() && fresh(frontier.Repr - old(frontier.Repr))
    ensures Tree(nodes', rank', root) && |nodes'| >= |nodes|
    ensures frontier.Contents() == old(frontier.Contents()) + Span(|nodes|, |nodes'|)
    ensures ok ==> nodes' == nodes + Children(nodes, current)
    ensures SlotsAdded(old(allocator.Handed()), allocator.Handed(), |nodes'| - |nodes|)
  {
    var moves := Neighbours(nodes[current].board.emptyPos);
    nodes', rank', ok := nodes, rank, true;
    var k := 0;
    ghost var before := frontier.Contents();
    SpanEmpty(before, |nodes|);
    while k < |moves| && ok
      invariant 0 <= k <= |moves|
      invariant frontier.Valid() && allocator.Valid() && allocator !in frontier.Repr
      invariant SlotsAdded(old(allocator.Handed()), allocator.Handed(), |nodes'| - |nodes|)
      invariant fresh(frontier.Repr - old(frontier.Repr))
      invariant Tree(nodes', rank', root) && |nodes'| >= |nodes|
      invariant ok ==> |nodes'| == |nodes| + k && nodes' == nodes + ChildrenAt(nodes, current, moves[..k])
      invariant frontier.Contents() == before + Span(|nodes|, |nodes'|)
    {
      ghost var held := allocator.Handed();
      var nodes1 := nodes';
      nodes', rank', ok := FirstMove(nodes, current, moves, k, nodes', rank', root, frontier, allocator, before);
      SlotsAddedJoin(old(allocator.Handed()), held, allocator.Handed(), |nodes1| - |nodes|, |nodes'| - |nodes1|);
      k := k + 1;
    }
    if ok {
      assert k == |moves|;
      assert moves[..k] == moves;
    }
  }

  /** The `k`-th guarded `expandPathDepthFirst` call of `ExpandFirst`. */
  method FirstMove(nodes: seq<Node>, current: nat, moves: seq<nat>, k: nat,
                   nodes': seq<Node>, ghost rank': seq<nat>, ghost root: Board,
                   frontier: Deque<nat>, allocator: StackSlabAllocator, ghost before: seq<nat>)
      returns (nodes'': seq<Node>, ghost rank'': seq<nat>, ok: bool)
    requires current < |nodes| && |nodes[current].board.tiles| == Cells && nodes[current].board.emptyPos < Cells
    requires moves == Neighbours(nodes[current].board.emptyPos) && k < |moves|
    requires frontier.Valid() && allocator.Valid() && allocator !in frontier.Repr
    requires Tree(nodes', rank', root)
    requires |nodes'| == |nodes| + k && nodes' == nodes + ChildrenAt(nodes, current, moves[..k])
    requires frontier.Contents() == before + Span(|nodes|, |nodes'|)
    modifies frontier.Repr, allocator
    ensures frontier.Valid() && allocator.Valid() && fresh(frontier.Repr - old(frontier.Repr))
    ensures Tree(nodes'', rank'', root) && |nodes''| >= |nodes'|
    ensures ok ==> |nodes''| == |nodes| + k + 1 && nodes'' == nodes + ChildrenAt(nodes, current, moves[..k + 1])
    ensures !ok ==> nodes'' == nodes'
    ensures frontier.Contents() == before + Span(|nodes|, |nodes''|)
    ensures SlotsAdded(old(allocator.Handed()), allocator.Handed(), |nodes''| - |nodes'|)
  {
    NeighboursAdjacent(nodes[current].board.emptyPos, moves[k]);
    assert moves[k] in moves;
    assert nodes'[current] == nodes[current];
    AppendChild(nodes, current, moves[..k], moves[k]);
    assert moves[..k + 1] == moves[..k] + [moves[k]];
    nodes'', rank'', ok := ExpandDepthFirst(nodes', rank', root, current, moves[k], nodes[current].board.emptyPos, frontier, allocator);
    SpanJoin(before, |nodes|, |nodes'|, |nodes''|);
  }

  /** One more successor appended keeps the nodes and the frontier in step with the moves made so far. */
  lemma AppendChild(nodes: seq<Node>, p: nat, moves: seq<nat>, m: nat)
    requires p < |nodes| && |nodes[p].board.tiles| == Cells && nodes[p].board.emptyPos < Cells
    requires (forall k :: 0 <= k < |moves| ==> moves[k] < Cells) && m < Cells
    ensures ChildrenAt(nodes, p, moves + [m]) == ChildrenAt(nodes, p, moves) + [nodes[p].(board := Move(nodes[p].board, m), next := Some(p))]
    ensures Span(|nodes|, |nodes| + |moves| + 1) == Span(|nodes|, |nodes| + |moves|) + [|nodes| + |moves|]
  {
  }

  /** What offering the successors for the first `k` moves of the blank admits. */
  ghost function AdmittedAt(nodes: seq<Node>, current: nat, k: nat): seq<Node>
    requires current < |nodes| && |nodes[current].board.tiles| == Cells && nodes[current].board.emptyPos < Cells
    requires k <= |Neighbours(nodes[current].board.emptyPos)|
  {
    Admit(nodes, ChildrenAt(nodes, current, Neighbours(nodes[current].board.emptyPos)[..k]))
  }

  /** Before any move is made nothing is admitted. */
  lemma AdmitNone(nodes: seq<Node>, current: nat)
    requires current < |nodes| && |nodes[current].board.tiles| == Cells && nodes[current].board.emptyPos < Cells
    ensures AdmittedAt(nodes, current, 0) == nodes
  {
    assert ChildrenAt(nodes, current, Neighbours(nodes[current].board.emptyPos)[..0]) == [];
  }

  /** Once every move of the blank is made, the successors offered are the node's children. */
  lemma AdmitAll(nodes: seq<Node>, current: nat)
    requires current < |nodes| && |nodes[current].board.tiles| == Cells && nodes[current].board.emptyPos < Cells
    ensures AdmittedAt(nodes, current, |Neighbours(nodes[current].board.emptyPos)|) == Admit(nodes, Children(nodes, current))
  {
    var moves := Neighbours(nodes[current].board.emptyPos);
    assert moves[..|moves|] == moves;
  }

  /**
   * Offering the successor for the `k`-th move to what the first `k` moves admitted gives
   * what the first `k + 1` moves admit.
   */
  lemma AdmitNext(nodes: seq<Node>, current: nat, k: nat, nodes1: seq<Node>)
    requires current < |nodes| && |nodes[current].board.tiles| == Cells && nodes[current].board.emptyPos < Cells
    requires k < |Neighbours(nodes[current].board.emptyPos)|
    requires nodes1 == AdmittedAt(nodes, current, k)
    ensures current < |nodes1| && nodes1[current] == nodes[current]
    ensures AdmittedAt(nodes, current, k + 1) ==
      var n := nodes1[current].(board := Move(nodes1[current].board, Neighbours(nodes[current].board.emptyPos)[k]), next := Some(current));
      if n.board in States(nodes1) then nodes1 else nodes1 + [n]
  {
    var moves := Neighbours(nodes[current].board.emptyPos);
    var child := nodes[current].(board := Move(nodes[current].board, moves[k]), next := Some(current));
    AppendChild(nodes, current, moves[..k], moves[k]);
    assert moves[..k + 1] == moves[..k] + [moves[k]];
    AdmitStep(nodes, ChildrenAt(nodes, current, moves[..k]), child);
    assert nodes1[current] == nodes1[..|nodes|][current] == nodes[current];
  }

  /** The frontier, the visited list and the arena share no memory. */
  ghost predicate Apart(frontier: Deque<nat>, visited: HashMap<Board>, allocator: StackSlabAllocator)
    reads frontier, visited
  {
    frontier.Repr !! visited.Repr && allocator !in frontier.Repr && allocator !in visited.Repr
  }

  /**
   * The nodes after offering `kids` one at a time to a search with a visited list: a kid
   * whose state some node already holds is dropped, any other is appended.
   */
  function Admit(nodes: seq<Node>, kids: seq<Node>): (r: seq<Node>)
    ensures |nodes| <= |r| <= |nodes| + |kids| && r[..|nodes|] == nodes
    decreases |kids|
  {
    if kids == [] then nodes
    else
      var before := Admit(nodes, kids[..|kids| - 1]);
      var kid := kids[|kids| - 1];
      if kid.board in States(before) then before else before + [kid]
  }

  /** Offering one more kid: it is appended exactly when no node holds its state yet. */
  lemma AdmitStep(nodes: seq<Node>, kids: seq<Node>, kid: Node)
    ensures Admit(nodes, kids + [kid]) ==
      var before := Admit(nodes, kids); if kid.board in States(before) then before else before + [kid]
  {
    assert (kids + [kid])[..|kids|] == kids;
  }

  /**
   * What the visited list buys: no two admitted nodes hold the same state, and every state
   * offered is held by some node afterwards.
   */
  lemma {:induction false} AdmitDistinct(nodes: seq<Node>, kids: seq<Node>)
    requires Distinct(nodes)
    ensures Distinct(Admit(nodes, kids))
    ensures forall k :: 0 <= k < |kids| ==> kids[k].board in States(Admit(nodes, kids))
    decreases |kids|
  {
    if kids != [] {
      var front := kids[..|kids| - 1];
      AdmitDistinct(nodes, front);
      var before := Admit(nodes, front);
      var kid := kids[|kids| - 1];
      if kid.board !in States(before) {
        var r := before + [kid];
        assert States(r) == States(before) + [kid.board];
        forall i, j | 0 <= i < j < |r|
          ensures r[i].board != r[j].board
        {
          if j == |before| {
            assert r[i].board == States(before)[i];
          }
        }
      }
      forall k | 0 <= k < |kids|
        ensures kids[k].board in States(Admit(nodes, kids))
      {
        if k < |front| {
          assert kids[k] == front[k];
          assert States(before) <= States(Admit(nodes, kids));
        }
      }
    }
  }

  /**
   * `expandPathDepthFirstVisited`: builds the successor of node `parent` in a fresh arena
   * slot; when the visited list already holds its state the slot is given back with
   * `replaceLast`, otherwise the state is inserted in the visited list and the node appended
   * to the frontier.
   */
  method ExpandDepthFirstVisited(nodes: seq<Node>, ghost rank: seq<nat>, ghost root: Board, parent: nat, newPos: nat, oldPos: nat,
                                 frontier: Deque<nat>, visited: HashMap<Board>, allocator: StackSlabAllocator)
      returns (nodes': seq<Node>, ghost rank': seq<nat>, ok: bool)
    requires Tree(nodes, rank, root) && parent < |nodes| && nodes[parent].board.emptyPos == oldPos
    requires newPos < Cells && Adjacent(oldPos, newPos)
    requires frontier.Valid() && visited.Valid() && allocator.Valid() && Apart(frontier, visited, allocator)
    requires visited.equal == SameState && visited.Contents() == multiset(States(nodes))
    modifies frontier.Repr, visited.Repr, allocator
    ensures frontier.Valid() && visited.Valid() && allocator.Valid() && Apart(frontier, visited, allocator)
    ensures fresh(frontier.Repr - old(frontier.Repr)) && fresh(visited.Repr - old(visited.Repr))
    ensures Tree(nodes', rank', root) && visited.Contents() == multiset(States(nodes')) && |nodes'| >= |nodes|
    ensures |nodes'| <= |nodes| + 1 && frontier.Contents() == old(frontier.Contents()) + Span(|nodes|, |nodes'|)
    ensures ok ==> var n := nodes[parent].(board := Move(nodes[parent].board, newPos), next := Some(parent));
                   nodes' == if n.board in States(nodes) then nodes else nodes + [n]
    ensures !ok ==> nodes' == nodes
    ensures SlotsAdded(old(allocator.Handed()), allocator.Handed(), |nodes'| - |nodes|)
  {
    var got, n, seen := Offer(nodes, parent, newPos, oldPos, visited, allocator);
    SpanEmpty(frontier.Contents(), |nodes|);
    if !got {
      return nodes, rank, false;
    }
    if seen {
      return nodes, rank, true;
    }
    nodes', rank' := Enqueue(nodes, rank, root, parent, n, frontier, visited);
    ok := true;
  }

  /**
   * The first half of `expandPathDepthFirstVisited`: takes an arena slot, builds the
   * successor in it and looks its state up in the visited list, giving the slot back with
   * `replaceLast` when the state is there.
   */
  method Offer(nodes: seq<Node>, parent: nat, newPos: nat, oldPos: nat,
               visited: HashMap<Board>, allocator: StackSlabAllocator)
      returns (got: bool, n: Node, seen: bool)
    requires parent < |nodes| && |nodes[parent].board.tiles| == Cells && nodes[parent].board.emptyPos == oldPos
    requires newPos < Cells && oldPos < Cells
    requires visited.Valid() && allocator.Valid() && allocator !in visited.Repr && visited.equal == SameState
    modifies allocator
    ensures allocator.Valid()
    ensures n == nodes[parent].(board := Move(nodes[parent].board, newPos), next := Some(parent))
    ensures got ==> (seen <==> n.board in visited.Contents())
    ensures SlotsAdded(old(allocator.Handed()), allocator.Handed(), if got && !seen then 1 else 0)
  {
    n := nodes[parent].(board := Move(nodes[parent].board, newPos), next := Some(parent));
    var slot;
    got, slot := allocator.GetNext();
    if !got {
      return got, n, false;
    }
    n := Successor(nodes, parent, newPos, oldPos);
    var pos := visited.Find(n.board);
    seen := pos != visited.capacity;
    if seen {
      allocator.ReplaceLast();
    }
  }

  /** The `else` branch of `expandPathDepthFirstVisited`: a node with a new state is recorded and queued. */
  method Enqueue(nodes: seq<Node>, ghost rank: seq<nat>, ghost root: Board, parent: nat, n: Node,
                 frontier: Deque<nat>, visited: HashMap<Board>)
      returns (nodes': seq<Node>, ghost rank': seq<nat>)
    requires Tree(nodes, rank, root) && parent < |nodes| && n.next == Some(parent)
    requires n.board.emptyPos < Cells && Adjacent(nodes[parent].board.emptyPos, n.board.emptyPos)
    requires n.board == Move(nodes[parent].board, n.board.emptyPos)
    requires frontier.Valid() && visited.Valid() && frontier.Repr !! visited.Repr
    requires visited.Contents() == multiset(States(nodes))
    modifies frontier.Repr, visited.Repr
    ensures frontier.Valid() && visited.Valid() && frontier.Repr !! visited.Repr
    ensures fresh(frontier.Repr - old(frontier.Repr)) && fresh(visited.Repr - old(visited.Repr))
    ensures nodes' == nodes + [n] && Tree(nodes', rank', root)
    ensures visited.Contents() == multiset(States(nodes'))
    ensures frontier.Contents() == old(frontier.Contents()) + Span(|nodes|, |nodes'|)
  {
    visited.Insert(n.board);
    nodes', rank' := PushChild(nodes, rank, root, parent, n, frontier);
    assert States(nodes') == States(nodes) + [n.board];
  }

  /**
   * The state shared by the successors of node `current` while they are offered: the three
   * containers are sound and apart, the nodes `nodes'` are a tree over `root` that extends
   * `nodes`, the visited list holds exactly their states, and the frontier holds what it
   * held before followed by the indices of the nodes added.
   */
  ghost predicate Offering(nodes: seq<Node>, current: nat, nodes': seq<Node>, rank': seq<nat>, root: Board,
                           before: seq<nat>, frontier: Deque<nat>, visited: HashMap<Board>, allocator: StackSlabAllocator)
    reads frontier, frontier.Repr, visited, visited.Repr, allocator
  {
    frontier.Valid() && visited.Valid() && allocator.Valid() && Apart(frontier, visited, allocator) &&
    Tree(nodes', rank', root) && |nodes'| >= |nodes| && current < |nodes| &&
    visited.equal == SameState && visited.Contents() == multiset(States(nodes')) &&
    frontier.Contents() == before + Span(|nodes|, |nodes'|)
  }

  /**
   * The four guarded `expandPathDepthFirstVisited` calls of
   * `breadthFirstSearch_with_VisitedList`: each successor of node `current`, up, right, down
   * and left within the grid, is offered to the visited list and queued when its state is new.
   */
  method ExpandFirstVisited(nodes: seq<Node>, ghost rank: seq<nat>, ghost root: Board, current: nat,
                            frontier: Deque<nat>, visited: HashMap<Board>, allocator: StackSlabAllocator)
      returns (nodes': seq<Node>, ghost rank': seq<nat>, ok: bool)
    requires Tree(nodes, rank, root) && current < |nodes|
    requires |nodes[current].board.tiles| == Cells && nodes[current].board.emptyPos < Cells
    requires frontier.Valid() && visited.Valid() && allocator.Valid() && Apart(frontier, visited, allocator)
    requires visited.equal == SameState && visited.Contents() == multiset(States(nodes))
    modifies frontier.Repr, visited.Repr, allocator
    ensures Offering(nodes, current, nodes', rank', root, old(frontier.Contents()), frontier, visited, allocator)
    ensures fresh(frontier.Repr - old(frontier.Repr)) && fresh(visited.Repr - old(visited.Repr))
    ensures ok ==> nodes' == Admit(nodes, Children(nodes, current))
    ensures SlotsAdded(old(allocator.Handed()), allocator.Handed(), |nodes'| - |nodes|)
  {
    AdmitNone(nodes, current);
    SpanEmpty(frontier.Contents(), |nodes|);
    nodes', rank', ok := OfferMoves(nodes, root, current, rank, frontier.Contents(), frontier, visited, allocator);
    AdmitAll(nodes, current);
  }

  /** The loop over the moves of the blank in `ExpandFirstVisited`, from no move made. */
  method OfferMoves(nodes: seq<Node>, ghost root: Board, current: nat, ghost rank: seq<nat>, ghost before: seq<nat>,
                    frontier: Deque<nat>, visited: HashMap<Board>, allocator: StackSlabAllocator)
      returns (nodes': seq<Node>, ghost rank': seq<nat>, ok: bool)
    requires current < |nodes| && |nodes[current].board.tiles| == Cells && nodes[current].board.emptyPos < Cells
    requires Offering(nodes, current, nodes, rank, root, before, frontier, visited, allocator)
    requires nodes == AdmittedAt(nodes, current, 0)
    modifies frontier.Repr, visited.Repr, allocator
    ensures Offering(nodes, current, nodes', rank', root, before, frontier, visited, allocator)
    ensures fresh(frontier.Repr - old(frontier.Repr)) && fresh(visited.Repr - old(visited.Repr))
    ensures ok ==> nodes' == AdmittedAt(nodes, current, |Neighbours(nodes[current].board.emptyPos)|)
    ensures SlotsAdded(old(allocator.Handed()), allocator.Handed(), |nodes'| - |nodes|)
  {
    var moves := Neighbours(nodes[current].board.emptyPos);
    nodes', rank', ok := nodes, rank, true;
    var k := 0;
    while k < |moves| && ok
      invariant k <= |moves|
      invariant Offering(nodes, current, nodes', rank', root, before, frontier, visited, allocator)
      invariant fresh(frontier.Repr - old(frontier.Repr)) && fresh(visited.Repr - old(visited.Repr))
      invariant ok ==> nodes' == AdmittedAt(nodes, current, k)
      invariant SlotsAdded(old(allocator.Handed()), allocator.Handed(), |nodes'| - |nodes|)
    {
      ghost var held := allocator.Handed();
      var nodes1 := nodes';
      nodes', rank', ok := AdmitMove(nodes, root, current, moves, k, nodes', rank', before, frontier, visited, allocator);
      SlotsAddedJoin(old(allocator.Handed()), held, allocator.Handed(), |nodes1| - |nodes|, |nodes'| - |nodes1|);
      k := k + 1;
    }
    if ok {
      assert k == |moves|;
    }
  }

  /**
   * One pass of `ExpandFirstVisited`: the successor for the `k`-th move is offered, so the
   * nodes go from what the first `k` moves admit to what the first `k + 1` admit.
   */
  method AdmitMove(nodes: seq<Node>, ghost root: Board, current: nat, moves: seq<nat>, k: nat,
                   nodes1: seq<Node>, ghost rank1: seq<nat>, ghost before: seq<nat>,
                   frontier: Deque<nat>, visited: HashMap<Board>, allocator: StackSlabAllocator)
      returns (nodes2: seq<Node>, ghost rank2: seq<nat>, ok: bool)
    requires current < |nodes| && |nodes[current].board.tiles| == Cells && nodes[current].board.emptyPos < Cells
    requires moves == Neighbours(nodes[current].board.emptyPos) && k < |moves|
    requires Offering(nodes, current, nodes1, rank1, root, before, frontier, visited, allocator)
    requires nodes1 == AdmittedAt(nodes, current, k)
    modifies frontier.Repr, visited.Repr, allocator
    ensures Offering(nodes, current, nodes2, rank2, root, before, frontier, visited, allocator)
    ensures fresh(frontier.Repr - old(frontier.Repr)) && fresh(visited.Repr - old(visited.Repr))
    ensures ok ==> nodes2 == AdmittedAt(nodes, current, k + 1)
    ensures SlotsAdded(old(allocator.Handed()), allocator.Handed(), |nodes2| - |nodes1|)
  {
    AdmitNext(nodes, current, k, nodes1);
    nodes2, rank2, ok := ExpandDepthFirstVisited(nodes1, rank1, root, current, moves[k], nodes[current].board.emptyPos, frontier, visited, allocator);
    SpanJoin(before, |nodes|, |nodes1|, |nodes2|);
  }

  /**
   * One pass of the loop of `breadthFirstSearch_with_VisitedList` past the goal test: the
   * front path is taken off the frontier, its successors with new states are appended, and
   * `maxQLength` is raised to the frontier's new length when that is longer.
   */
  method ExpandFrontVisited(nodes: seq<Node>, ghost rank: seq<nat>, ghost root: Board, current: nat,
                            frontier: Deque<nat>, visited: HashMap<Board>, allocator: StackSlabAllocator, maxQLength: nat)
      returns (nodes': seq<Node>, ghost rank': seq<nat>, ok: bool, maxQLength': nat)
    requires Tree(nodes, rank, root)
    requires frontier.Valid() && visited.Valid() && allocator.Valid() && Apart(frontier, visited, allocator)
    requires visited.equal == SameState && visited.Contents() == multiset(States(nodes))
    requires frontier.Contents() != [] && current == frontier.Contents()[0] && current < |nodes|
    requires |nodes[current].board.tiles| == Cells && nodes[current].board.emptyPos < Cells
    requires forall k :: 0 <= k < |frontier.Contents()| ==> frontier.Contents()[k] < |nodes|
    modifies frontier.Repr, visited.Repr, allocator
    ensures frontier.Valid() && visited.Valid() && allocator.Valid() && Apart(frontier, visited, allocator)
    ensures fresh(frontier.Repr - old(frontier.Repr)) && fresh(visited.Repr - old(visited.Repr))
    ensures Tree(nodes', rank', root) && visited.Contents() == multiset(States(nodes')) && |nodes'| >= |nodes|
    ensures frontier.Contents() == old(frontier.Contents())[1..] + Span(|nodes|, |nodes'|)
    ensures forall k :: 0 <= k < |frontier.Contents()| ==> frontier.Contents()[k] < |nodes'|
    ensures ok ==> nodes' == Admit(nodes, Children(nodes, current))
    ensures ok ==> maxQLength' == if |frontier.Contents()| > maxQLength then |frontier.Contents()| else maxQLength
    ensures SlotsAdded(old(allocator.Handed()), allocator.Handed(), |nodes'| - |nodes|)
  {
    ghost var front := frontier.Contents();
    frontier.PopFront();
    nodes', rank', ok := ExpandFirstVisited(nodes, rank, root, current, frontier, visited, allocator);
    PopSpanBelow(front, |nodes|, |nodes'|);
    maxQLength' := maxQLength;
    if ok {
      var size := frontier.Size();
      if size > maxQLength {
        maxQLength' := size;
      }
    }
  }

  /**
   * `breadthFirstSearch_with_VisitedList`: `breadthFirstSearch` with a visited list hashed
   * by `Hasher<Map_t, 10>`, so that a state is queued at most once.  A path it finds leads
   * from the initial state to the goal.
   */
  method BreadthFirstSearchVisited(initialState: string, goalState: string, goalStart: Board, maxQLengthIn: nat,
                                   blockSize: nat, budget: nat, fuel: nat)
      returns (o: Outcome, expansions: nat, maxQLength: nat)
    requires |initialState| <= Cells && |goalState| <= Cells && |goalStart.tiles| == Cells && blockSize > 0
    ensures o.Found? ==> Replay(Parsed(initialState, Zero()), o.path) == Some(Parsed(goalState, goalStart))
    ensures o != NoSolution || expansions > 0
  {
    expansions, maxQLength := 0, maxQLengthIn;
    var goal := Parse(goalState, goalStart);
    var frontier, visited, allocator := NewContainers(blockSize, budget);
    var got, slot := allocator.GetNext();
    if !got {
      o := OutOfMemory;
    } else {
      var root := Parse(initialState, Zero());
      o, expansions, maxQLength := SeedAndDrain(root, goal, frontier, visited, allocator, fuel);
    }
  }

  /**
   * `breadthFirstSearch_with_VisitedList` once the root path is allocated: the root is
   * queued and entered in the visited list, and the loop runs with `maxQLength` at 1.
   */
  method SeedAndDrain(root: Board, goal: Board, frontier: Deque<nat>, visited: HashMap<Board>, allocator: StackSlabAllocator, fuel: nat)
      returns (o: Outcome, expansions: nat, maxQLength: nat)
    requires |root.tiles| == Cells && root.emptyPos < Cells && |goal.tiles| == Cells
    requires frontier.Valid() && visited.Valid() && allocator.Valid() && Apart(frontier, visited, allocator)
    requires frontier.Contents() == [] && visited.Contents() == multiset{} && visited.equal == SameState
    requires |allocator.Handed()| == 1
    modifies frontier.Repr, visited.Repr, allocator
    ensures o.Found? ==> Replay(root, o.path) == Some(goal)
    ensures o != NoSolution || expansions > 0
  {
    var nodes := [Node(root, 0, 0, 0, None)];
    Seed(root, frontier, visited, allocator);
    RootOnly(root);
    o, expansions, maxQLength := DrainVisited(nodes, [0], root, goal, frontier, visited, allocator, 1, fuel);
  }

  /**
   * The containers `breadthFirstSearch_with_VisitedList` declares: an empty visited list
   * hashed by `Hasher<Map_t, 10>`, an empty frontier and an arena with nothing handed out.
   */
  method NewContainers(blockSize: nat, budget: nat)
      returns (frontier: Deque<nat>, visited: HashMap<Board>, allocator: StackSlabAllocator)
    requires blockSize > 0
    ensures frontier.Valid() && visited.Valid() && allocator.Valid() && Apart(frontier, visited, allocator)
    ensures fresh(frontier.Repr) && fresh(visited.Repr) && fresh(allocator)
    ensures frontier.Contents() == [] && visited.Contents() == multiset{}
    ensures visited.hash == Hash10 && visited.equal == SameState
    ensures allocator.Handed() == [] && allocator.budget == budget
  {
    StateHashes();
    visited := new HashMap<Board>(Hash10, SameState);
    frontier := new Deque<nat>();
    allocator := new StackSlabAllocator(blockSize, budget);
  }

  /** The search starts from a tree of one node, the root, holding the initial state. */
  lemma RootOnly(root: Board)
    requires |root.tiles| == Cells && root.emptyPos < Cells
    ensures var nodes := [Node(root, 0, 0, 0, None)];
            Tree(nodes, [0], root) && Distinct(nodes) && States(nodes) == [root]
  {
    assert States([Node(root, 0, 0, 0, None)]) == [root];
  }

  /** The root path, node 0, is queued and its state entered in the empty visited list. */
  method Seed(root: Board, frontier: Deque<nat>, visited: HashMap<Board>, allocator: StackSlabAllocator)
    requires frontier.Valid() && visited.Valid() && allocator.Valid() && Apart(frontier, visited, allocator)
    requires frontier.Contents() == [] && visited.Contents() == multiset{}
    modifies frontier.Repr, visited.Repr
    ensures frontier.Valid() && visited.Valid() && allocator.Valid() && Apart(frontier, visited, allocator)
    ensures fresh(frontier.Repr - old(frontier.Repr)) && fresh(visited.Repr - old(visited.Repr))
    ensures frontier.Contents() == [0] && visited.Contents() == multiset{root}
  {
    frontier.PushBack(0);
    visited.Insert(root);
  }

  /**
   * The loop of `breadthFirstSearch_with_VisitedList`.  Besides what `Drain` keeps, no two
   * nodes hold the same state and the visited list holds exactly the nodes' states.
   */
  method DrainVisited(nodesIn: seq<Node>, ghost rankIn: seq<nat>, ghost root: Board, goal: Board,
                      frontier: Deque<nat>, visited: HashMap<Board>, allocator: StackSlabAllocator, maxQLengthIn: nat, fuel: nat)
      returns (o: Outcome, expansions: nat, maxQLength: nat)
    requires Tree(nodesIn, rankIn, root) && |goal.tiles| == Cells && Distinct(nodesIn)
    requires frontier.Valid() && visited.Valid() && allocator.Valid() && Apart(frontier, visited, allocator)
    requires visited.equal == SameState && visited.Contents() == multiset(States(nodesIn))
    requires frontier.Contents() != []
    requires forall k :: 0 <= k < |frontier.Contents()| ==> frontier.Contents()[k] < |nodesIn|
    requires |allocator.Handed()| == |nodesIn|
    modifies frontier.Repr, visited.Repr, allocator
    ensures o.Found? ==> Replay(root, o.path) == Some(goal)
    ensures o != NoSolution || expansions > 0
  {
    var nodes := nodesIn;
    ghost var rank := rankIn;
    o, expansions, maxQLength := NoSolution, 0, maxQLengthIn;
    var fuelLeft := fuel;
    var done := false;
    while !done
      invariant !done ==> frontier.Valid() && visited.Valid() && allocator.Valid() && Apart(frontier, visited, allocator)
      invariant !done ==> |allocator.Handed()| == |nodes|
      invariant fresh(frontier.Repr - old(frontier.Repr)) && fresh(visited.Repr - old(visited.Repr))
      invariant !done ==> Tree(nodes, rank, root) && Distinct(nodes)
      invariant !done ==> visited.equal == SameState && visited.Contents() == multiset(States(nodes))
      invariant !done ==> forall k :: 0 <= k < |frontier.Contents()| ==> frontier.Contents()[k] < |nodes|
      invariant !done && frontier.Contents() == [] ==> expansions > 0
      invariant done ==> (o.Found? ==> Replay(root, o.path) == Some(goal)) && (o != NoSolution || expansions > 0)
      decreases fuelLeft + (if done then 0 else 1)
    {
      done, o, nodes, rank, maxQLength, fuelLeft := DrainStep(nodes, rank, root, goal, frontier, visited, allocator, maxQLength, fuelLeft);
      if !done {
        expansions := expansions + 1;
      }
    }
  }

  /**
   * One pass of the `while (!Q.empty())` loop with a visited list: the search ends with no
   * solution on an empty queue, stops when the fuel is spent, ends at the goal or when
   * memory runs out, and otherwise goes on after one expansion.
   */
  method DrainStep(nodes: seq<Node>, ghost rank: seq<nat>, ghost root: Board, goal: Board,
                   frontier: Deque<nat>, visited: HashMap<Board>, allocator: StackSlabAllocator, maxQLength: nat, fuelLeft: nat)
      returns (done: bool, o: Outcome, nodes': seq<Node>, ghost rank': seq<nat>, maxQLength': nat, fuelLeft': nat)
    requires Tree(nodes, rank, root) && |goal.tiles| == Cells && Distinct(nodes)
    requires frontier.Valid() && visited.Valid() && allocator.Valid() && Apart(frontier, visited, allocator)
    requires visited.equal == SameState && visited.Contents() == multiset(States(nodes))
    requires forall k :: 0 <= k < |frontier.Contents()| ==> frontier.Contents()[k] < |nodes|
    modifies frontier.Repr, visited.Repr, allocator
    ensures fresh(frontier.Repr - old(frontier.Repr)) && fresh(visited.Repr - old(visited.Repr))
    ensures !done ==> frontier.Valid() && visited.Valid() && allocator.Valid() && Apart(frontier, visited, allocator)
    ensures !done ==> Tree(nodes', rank', root) && Distinct(nodes') && fuelLeft' < fuelLeft
    ensures !done ==> visited.equal == SameState && visited.Contents() == multiset(States(nodes'))
    ensures !done ==> forall k :: 0 <= k < |frontier.Contents()| ==> frontier.Contents()[k] < |nodes'|
    ensures done && o.Found? ==> Replay(root, o.path) == Some(goal)
    ensures done && o == NoSolution ==> old(frontier.Contents()) == []
    ensures fuelLeft' <= fuelLeft
    ensures !done ==> SlotsAdded(old(allocator.Handed()), allocator.Handed(), |nodes'| - |nodes|)
  {
    done, o, nodes', rank', maxQLength', fuelLeft' := true, NoSolution, nodes, rank, maxQLength, fuelLeft;
    var empty := frontier.Empty();
    if !empty && fuelLeft == 0 {
      o := Stopped;
    } else if !empty {
      fuelLeft' := fuelLeft - 1;
      var isGoal, path, ok;
      isGoal, path, nodes', rank', ok, maxQLength' := VisitFront(nodes, rank, root, goal, frontier, visited, allocator, maxQLength);
      if isGoal {
        o := Found(path);
      } else if !ok {
        o := OutOfMemory;
      } else {
        done := false;
      }
    }
  }

  /**
   * One pass of the loop of `breadthFirstSearch_with_VisitedList` on a frontier that is not
   * empty: the front path is compared with the goal and, when it is not the goal, expanded.
   * The nodes stay a tree with distinct states that the visited list holds exactly.
   */
  method VisitFront(nodes: seq<Node>, ghost rank: seq<nat>, ghost root: Board, goal: Board,
                    frontier: Deque<nat>, visited: HashMap<Board>, allocator: StackSlabAllocator, maxQLength: nat)
      returns (isGoal: bool, path: string, nodes': seq<Node>, ghost rank': seq<nat>, ok: bool, maxQLength': nat)
    requires Tree(nodes, rank, root) && |goal.tiles| == Cells && Distinct(nodes)
    requires frontier.Valid() && visited.Valid() && allocator.Valid() && Apart(frontier, visited, allocator)
    requires visited.equal == SameState && visited.Contents() == multiset(States(nodes))
    requires frontier.Contents() != []
    requires forall k :: 0 <= k < |frontier.Contents()| ==> frontier.Contents()[k] < |nodes|
    modifies frontier.Repr, visited.Repr, allocator
    ensures isGoal ==> Replay(root, path) == Some(goal)
    ensures frontier.Valid() && visited.Valid() && allocator.Valid() && Apart(frontier, visited, allocator)
    ensures fresh(frontier.Repr - old(frontier.Repr)) && fresh(visited.Repr - old(visited.Repr))
    ensures Tree(nodes', rank', root) && (ok ==> Distinct(nodes'))
    ensures visited.equal == SameState && visited.Contents() == multiset(States(nodes'))
    ensures forall k :: 0 <= k < |frontier.Contents()| ==> frontier.Contents()[k] < |nodes'|
    ensures SlotsAdded(old(allocator.Handed()), allocator.Handed(), |nodes'| - |nodes|)
  {
    var current := frontier.Front();
    isGoal, path := GoalTest(nodes, rank, root, current, goal);
    nodes', rank', ok, maxQLength' := nodes, rank, true, maxQLength;
    if !isGoal {
      nodes', rank', ok, maxQLength' := ExpandFrontVisited(nodes, rank, root, current, frontier, visited, allocator, maxQLength);
      if ok {
        AdmitDistinct(nodes, Children(nodes, current));
      }
    }
  }
}
