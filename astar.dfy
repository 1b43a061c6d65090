/**
 * `aStar_ExpandedList` with its helpers `expandAStarExpanded` and `calculateHeuristic`, in
 * the build that defines `USE_HASH_MAP`.
 *
 * The nodes the arena hands out are the sequence `nodes`, one arena slot in use per node:
 * a successor that is rejected or merged into a queued node gives its slot back.  A* changes a queued node in place
 * when it reaches that node's state by a path with a smaller `f`, so `nodes` is updated at
 * that index.  The priority queue holds node indices ordered by `f`, `queueLookup` holds a
 * `Key` for every queued node, and the expanded list holds the states already expanded.
 */
module AStar {
  import opened Common
  import opened Puzzle
  import opened Paths
  import opened SlabAllocators
  import opened HashMaps
  import opened PriorityQueues
  import opened Searches
  import opened Heuristics
  import opened AStarStates

  /**
   * `calculateHeuristic<useManhattanDistance>`: scores the successor `n` of node `p` from
   * the parent's scores and the one tile that moved.
   */
  method Score(nodes: seq<Node>, p: nat, n: Node, goal: Board, manhattan: bool, oldPos: nat, newPos: nat)
      returns (c: Node)
    requires p < |nodes| && Proper(nodes[p].board) && GoalFor(goal, nodes[p].board) && nodes[p].board.emptyPos == oldPos
    requires nodes[p].g < U32 && nodes[p].f < U32
    requires newPos < Cells && newPos != oldPos && n == nodes[p].(board := Move(nodes[p].board, newPos), next := Some(p))
    ensures c == Child(nodes, p, newPos, goal, manhattan)
  {
    var g2, f2;
    if manhattan {
      g2, f2 := ManhattanUpdate(n.board, nodes[p].g, nodes[p].f, goal, oldPos, newPos, nodes[p].board);
    } else {
      g2, f2 := MisplacedUpdate(n.board, nodes[p].g, nodes[p].f, goal, oldPos, newPos, nodes[p].board);
    }
    AddBack(f2, g2, nodes[p].f - nodes[p].g + 1);
    c := n.(g := g2, f := f2);
  }

  /**
   * The branch of `expandAStarExpanded` for a successor `c` whose state is queued as node
   * `j`: when `c`'s `f` is smaller, node `j` takes its `f`, `g` and parent and moves up the
   * queue (`priorityIncreased` at its `positionInQueue`).
   */
  method Reroute(nodes: seq<Node>, j: nat, c: Node, queue: PriorityQueue) returns (nodes': seq<Node>)
    requires queue.Valid(Fs(nodes)) && j < |nodes| && j in queue.data
    modifies queue
    ensures nodes' == Improve(nodes, j, c)
    ensures queue.Valid(Fs(nodes')) && multiset(queue.data) == multiset(old(queue.data))
  {
    nodes' := Improve(nodes, j, c);
    if nodes[j].f > c.f {
      TrackedAt(queue.data, queue.pos, j);
      queue.PriorityIncreased(queue.pos[j], Fs(nodes'), Fs(nodes));
    }
  }

  /**
   * The branch of `expandAStarExpanded` for a state neither expanded nor queued: the
   * successor `c` becomes node `|nodes|`, is pushed, and its key is inserted into
   * `queueLookup`.
   */
  method Enqueue(nodes: seq<Node>, c: Node, queue: PriorityQueue, lookup: HashMap<Key>) returns (nodes': seq<Node>)
    requires queue.Valid(Fs(nodes)) && lookup.Valid() && queue !in lookup.Repr
    requires forall x :: x in queue.data ==> x < |nodes|
    modifies queue, lookup.Repr
    ensures nodes' == nodes + [c]
    ensures queue.Valid(Fs(nodes')) && multiset(queue.data) == multiset(old(queue.data) + [|nodes|])
    ensures lookup.Valid()
    ensures lookup.data == old(lookup.data) || fresh(lookup.data)
    ensures lookup.Contents() == old(lookup.Contents()) + multiset{Key(c.board, |nodes|)}
  {
    nodes' := nodes + [c];
    HeapExtend(queue.data, Fs(nodes), Fs(nodes'));
    queue.Push(|nodes|, Fs(nodes'));
    lookup.Insert(Key(c.board, |nodes|));
  }

  /**
   * The `USE_HASH_MAP` branch of `expandAStarExpanded` once the successor `c` is scored: its
   * key is looked up in `queueLookup` (`find`, then `*elementInQueue` on a hit) and `Place`
   * acts on the answer.
   */
  method Merge(nodes: seq<Node>, ghost rank: seq<nat>, ghost q: multiset<nat>, ghost keys: multiset<Key>, current: nat, c: Node,
               queue: PriorityQueue, lookup: HashMap<Key>, allocator: StackSlabAllocator, ghost held: seq<Ptr>)
      returns (nodes': seq<Node>, ghost rank': seq<nat>, deleted: nat)
    requires current < |nodes| == |rank| && Indexed(nodes, q, keys)
    requires queue.Valid(Fs(nodes)) && q == multiset(queue.data)
    requires lookup.Valid() && lookup.equal == SameKey && keys == lookup.Contents()
    requires allocator.LastInHead() && SlotsAdded(held, allocator.Handed(), 1)
    requires queue !in lookup.Repr && allocator !in lookup.Repr
    modifies queue, lookup.Repr, allocator
    ensures queue.Valid(Fs(nodes')) && lookup.Valid() && allocator.Valid()
    ensures lookup.data == old(lookup.data) || fresh(lookup.data)
    ensures Merged(nodes, rank, q, keys, current, c, nodes', rank', multiset(queue.data), lookup.Contents(), deleted)
    ensures allocator.Valid() && SlotsAdded(held, allocator.Handed(), |nodes'| - |nodes|)
  {
    var key := Key(c.board, |nodes|);
    var at := lookup.Find(key);
    var e := key;
    if at != lookup.capacity {
      e := lookup.Get(at);
    }
    nodes', rank', deleted := Place(nodes, rank, q, keys, current, c, at != lookup.capacity, e, queue, lookup, allocator, held);
  }

  /**
   * The two outcomes of the lookup in `expandAStarExpanded`: on a hit, with `e` the key of
   * the queued node with the successor's state, `Absorb`; on a miss, `Admit`.
   */
  method Place(nodes: seq<Node>, ghost rank: seq<nat>, ghost q: multiset<nat>, ghost keys: multiset<Key>,
               current: nat, c: Node, hit: bool, e: Key,
               queue: PriorityQueue, lookup: HashMap<Key>, allocator: StackSlabAllocator, ghost held: seq<Ptr>)
      returns (nodes': seq<Node>, ghost rank': seq<nat>, deleted: nat)
    requires current < |nodes| == |rank| && Indexed(nodes, q, keys)
    requires queue.Valid(Fs(nodes)) && q == multiset(queue.data)
    requires lookup.Valid() && lookup.equal == SameKey && keys == lookup.Contents()
    requires hit ==> e in keys && e.board == c.board
    requires !hit ==> forall x :: x in lookup.Contents() ==> !lookup.equal(x, Key(c.board, |nodes|))
    requires allocator.LastInHead() && SlotsAdded(held, allocator.Handed(), 1)
    requires queue !in lookup.Repr && allocator !in lookup.Repr
    modifies queue, lookup.Repr, allocator
    ensures queue.Valid(Fs(nodes')) && lookup.Valid() && allocator.Valid()
    ensures lookup.data == old(lookup.data) || fresh(lookup.data)
    ensures Merged(nodes, rank, q, keys, current, c, nodes', rank', multiset(queue.data), lookup.Contents(), deleted)
    ensures allocator.Valid() && SlotsAdded(held, allocator.Handed(), |nodes'| - |nodes|)
  {
    if hit {
      nodes', rank', deleted := Absorb(nodes, rank, q, keys, current, c, e, queue, lookup, allocator, held);
    } else {
      nodes', rank', deleted := Admit(nodes, rank, q, keys, current, c, queue, lookup, allocator, held);
    }
  }

  /**
   * `expandAStarExpanded` when `queueLookup` holds the key `e` of a queued node with the
   * successor's state: that node may take the new path (`Reroute`), and the successor's slot
   * goes back with `replaceLast` and counts as a deletion.
   */
  method Absorb(nodes: seq<Node>, ghost rank: seq<nat>, ghost q: multiset<nat>, ghost keys: multiset<Key>,
                current: nat, c: Node, e: Key, queue: PriorityQueue, lookup: HashMap<Key>, allocator: StackSlabAllocator, ghost held: seq<Ptr>)
      returns (nodes': seq<Node>, ghost rank': seq<nat>, deleted: nat)
    requires current < |nodes| == |rank| && Indexed(nodes, q, keys) && e in keys && e.board == c.board
    requires queue.Valid(Fs(nodes)) && q == multiset(queue.data)
    requires lookup.Valid() && keys == lookup.Contents()
    requires allocator.LastInHead() && SlotsAdded(held, allocator.Handed(), 1)
    requires queue !in lookup.Repr && allocator !in lookup.Repr
    modifies queue, lookup.Repr, allocator
    ensures queue.Valid(Fs(nodes')) && lookup.Valid() && allocator.Valid()
    ensures lookup.data == old(lookup.data) || fresh(lookup.data)
    ensures Merged(nodes, rank, q, keys, current, c, nodes', rank', multiset(queue.data), lookup.Contents(), deleted)
    ensures allocator.Valid() && SlotsAdded(held, allocator.Handed(), |nodes'| - |nodes|)
  {
    nodes' := Reroute(nodes, e.index, c, queue);
    rank' := if nodes[e.index].f > c.f then rank[e.index := rank[current] + 1] else rank;
    allocator.ReplaceLast();
    deleted := 1;
  }

  /**
   * `expandAStarExpanded` when `queueLookup` holds no key with the successor's state: the
   * successor is queued as a new node (`Enqueue`).
   */
  method Admit(nodes: seq<Node>, ghost rank: seq<nat>, ghost q: multiset<nat>, ghost keys: multiset<Key>,
               current: nat, c: Node, queue: PriorityQueue, lookup: HashMap<Key>, allocator: StackSlabAllocator, ghost held: seq<Ptr>)
      returns (nodes': seq<Node>, ghost rank': seq<nat>, deleted: nat)
    requires current < |nodes| == |rank| && Indexed(nodes, q, keys)
    requires queue.Valid(Fs(nodes)) && q == multiset(queue.data)
    requires lookup.Valid() && lookup.equal == SameKey && keys == lookup.Contents()
    requires forall x :: x in lookup.Contents() ==> !lookup.equal(x, Key(c.board, |nodes|))
    requires allocator.Valid() && SlotsAdded(held, allocator.Handed(), 1)
    requires queue !in lookup.Repr && allocator !in lookup.Repr
    modifies queue, lookup.Repr, allocator
    ensures queue.Valid(Fs(nodes')) && lookup.Valid() && allocator.Valid()
    ensures lookup.data == old(lookup.data) || fresh(lookup.data)
    ensures Merged(nodes, rank, q, keys, current, c, nodes', rank', multiset(queue.data), lookup.Contents(), deleted)
    ensures allocator.Valid() && SlotsAdded(held, allocator.Handed(), |nodes'| - |nodes|)
  {
    forall e | e in keys
      ensures e.board != c.board
    {
      assert !SameKey(e, Key(c.board, |nodes|));
    }
    nodes' := Enqueue(nodes, c, queue, lookup);
    rank' := rank + [rank[current] + 1];
    deleted := 0;
  }

  /**
   * `expandAStarExpanded`: takes an arena slot for the successor of node `current` whose
   * blank moves from `oldPos` to `newPos` and hands it to `Visit`.  `ok` is false when the
   * arena cannot hand out a slot, where the source throws `bad_alloc`, and then nothing
   * changes.
   */
  method ExpandAStarExpanded(nodes: seq<Node>, ghost rank: seq<nat>, goal: Board, manhattan: bool,
                             ghost q: multiset<nat>, ghost keys: multiset<Key>, ghost closed: multiset<Board>,
                             current: nat, newPos: nat, oldPos: nat,
                             queue: PriorityQueue, lookup: HashMap<Key>, expanded: HashMap<Board>, allocator: StackSlabAllocator)
      returns (nodes': seq<Node>, ghost rank': seq<nat>, ok: bool, deleted: nat, reExpanded: nat)
    requires Poised(nodes, rank, q, keys, current, goal)
    requires oldPos == nodes[current].board.emptyPos && newPos < Cells && Adjacent(oldPos, newPos)
    requires Ready(nodes, queue, lookup, expanded, allocator)
    requires q == multiset(queue.data) && keys == lookup.Contents() && closed == expanded.Contents()
    modifies queue, lookup.Repr, allocator
    ensures Ready(nodes', queue, lookup, expanded, allocator) && expanded.Contents() == closed
    ensures lookup.data == old(lookup.data) || fresh(lookup.data)
    ensures ok <==> old(allocator.mCurrent) != old(allocator.mEnd) || old(allocator.obtained) < allocator.budget
    ensures ok ==> Handled(nodes, rank, q, keys, closed, current, newPos, goal, manhattan,
                           nodes', rank', multiset(queue.data), lookup.Contents(), deleted, reExpanded)
    ensures !ok ==> nodes' == nodes && rank' == rank && multiset(queue.data) == q && lookup.Contents() == keys
    ensures SlotsAdded(old(allocator.Handed()), allocator.Handed(), |nodes'| - |nodes|)
  {
    nodes', rank', deleted, reExpanded := nodes, rank, 0, 0;
    ok := Obtain(nodes, queue, lookup, expanded, allocator);
    if ok {
      nodes', rank', deleted, reExpanded := Visit(nodes, rank, goal, manhattan, q, keys, closed, current, newPos, oldPos,
                                                  queue, lookup, expanded, allocator, old(allocator.Handed()));
    }
  }

  /** `allocator.getNext()` for the successor's slot; `ok` is false where the source throws `bad_alloc`. */
  method Obtain(ghost nodes: seq<Node>, queue: PriorityQueue, lookup: HashMap<Key>, expanded: HashMap<Board>,
                allocator: StackSlabAllocator) returns (ok: bool)
    requires Ready(nodes, queue, lookup, expanded, allocator)
    modifies allocator
    ensures Ready(nodes, queue, lookup, expanded, allocator)
    ensures ok <==> old(allocator.mCurrent) != old(allocator.mEnd) || old(allocator.obtained) < allocator.budget
    ensures ok ==> allocator.LastInHead() && SlotsAdded(old(allocator.Handed()), allocator.Handed(), 1)
    ensures !ok ==> allocator.Handed() == old(allocator.Handed())
  {
    var slot;
    ok, slot := allocator.GetNext();
  }

  /**
   * The body of `expandAStarExpanded` once the slot is taken: the successor is built in it
   * (the parent's state after the move, linked to the parent) and its state looked up in
   * the expanded list.
   */
  method Visit(nodes: seq<Node>, ghost rank: seq<nat>, goal: Board, manhattan: bool,
               ghost q: multiset<nat>, ghost keys: multiset<Key>, ghost closed: multiset<Board>,
               current: nat, newPos: nat, oldPos: nat,
               queue: PriorityQueue, lookup: HashMap<Key>, expanded: HashMap<Board>, allocator: StackSlabAllocator, ghost held: seq<Ptr>)
      returns (nodes': seq<Node>, ghost rank': seq<nat>, deleted: nat, reExpanded: nat)
    requires Poised(nodes, rank, q, keys, current, goal)
    requires oldPos == nodes[current].board.emptyPos && newPos < Cells && Adjacent(oldPos, newPos)
    requires Ready(nodes, queue, lookup, expanded, allocator)
    requires allocator.LastInHead() && SlotsAdded(held, allocator.Handed(), 1)
    requires q == multiset(queue.data) && keys == lookup.Contents() && closed == expanded.Contents()
    modifies queue, lookup.Repr, allocator
    ensures Ready(nodes', queue, lookup, expanded, allocator) && expanded.Contents() == closed
    ensures lookup.data == old(lookup.data) || fresh(lookup.data)
    ensures Handled(nodes, rank, q, keys, closed, current, newPos, goal, manhattan,
                    nodes', rank', multiset(queue.data), lookup.Contents(), deleted, reExpanded)
    ensures allocator.Valid() && SlotsAdded(held, allocator.Handed(), |nodes'| - |nodes|)
  {
    var n := nodes[current].(board := Move(nodes[current].board, newPos), next := Some(current));
    var at := expanded.Find(n.board);
    var seen := at != expanded.capacity;
    assert seen <==> n.board in closed by {
      if !seen {
        forall x | x in closed
          ensures x != n.board
        {
          assert !SameState(x, n.board);
        }
      }
    }
    nodes', rank', deleted, reExpanded := Settle(nodes, rank, goal, manhattan, q, keys, closed, current, newPos, oldPos,
                                                 n, seen, queue, lookup, expanded, allocator, held);

  }

  /** The two outcomes of the lookup in the expanded list: `Reject` a state seen before, `Accept` a new one. */
  method Settle(nodes: seq<Node>, ghost rank: seq<nat>, goal: Board, manhattan: bool,
                ghost q: multiset<nat>, ghost keys: multiset<Key>, ghost closed: multiset<Board>,
                current: nat, newPos: nat, oldPos: nat, n: Node, seen: bool,
                queue: PriorityQueue, lookup: HashMap<Key>, expanded: HashMap<Board>, allocator: StackSlabAllocator, ghost held: seq<Ptr>)
      returns (nodes': seq<Node>, ghost rank': seq<nat>, deleted: nat, reExpanded: nat)
    requires Poised(nodes, rank, q, keys, current, goal)
    requires oldPos == nodes[current].board.emptyPos && newPos < Cells && Adjacent(oldPos, newPos)
    requires n == nodes[current].(board := Move(nodes[current].board, newPos), next := Some(current))
    requires seen <==> n.board in closed
    requires Ready(nodes, queue, lookup, expanded, allocator)
    requires allocator.LastInHead() && SlotsAdded(held, allocator.Handed(), 1)
    requires q == multiset(queue.data) && keys == lookup.Contents() && closed == expanded.Contents()
    modifies queue, lookup.Repr, allocator
    ensures Ready(nodes', queue, lookup, expanded, allocator) && expanded.Contents() == closed
    ensures lookup.data == old(lookup.data) || fresh(lookup.data)
    ensures Handled(nodes, rank, q, keys, closed, current, newPos, goal, manhattan,
                    nodes', rank', multiset(queue.data), lookup.Contents(), deleted, reExpanded)
    ensures allocator.Valid() && SlotsAdded(held, allocator.Handed(), |nodes'| - |nodes|)
  {
    if seen {
      nodes', rank', deleted, reExpanded := Reject(nodes, rank, goal, manhattan, q, keys, closed, current, newPos, oldPos,
                                                   n, queue, lookup, allocator, held);
    } else {
      nodes', rank', deleted, reExpanded := Accept(nodes, rank, goal, manhattan, q, keys, closed, current, newPos, oldPos,
                                                   n, queue, lookup, allocator, held);
    }
  }

  /**
   * `expandAStarExpanded` for a state already expanded: the slot goes back with
   * `replaceLast` and the successor counts as an attempted re-expansion.
   */
  method Reject(nodes: seq<Node>, ghost rank: seq<nat>, goal: Board, manhattan: bool,
                ghost q: multiset<nat>, ghost keys: multiset<Key>, ghost closed: multiset<Board>,
                current: nat, newPos: nat, oldPos: nat, n: Node,
                queue: PriorityQueue, lookup: HashMap<Key>, allocator: StackSlabAllocator, ghost held: seq<Ptr>)
      returns (nodes': seq<Node>, ghost rank': seq<nat>, deleted: nat, reExpanded: nat)
    requires Poised(nodes, rank, q, keys, current, goal)
    requires oldPos == nodes[current].board.emptyPos && newPos < Cells && Adjacent(oldPos, newPos)
    requires n == nodes[current].(board := Move(nodes[current].board, newPos), next := Some(current))
    requires n.board in closed
    requires queue.Valid(Fs(nodes)) && q == multiset(queue.data)
    requires lookup.Valid() && keys == lookup.Contents()
    requires allocator.LastInHead() && SlotsAdded(held, allocator.Handed(), 1)
    requires queue !in lookup.Repr && allocator !in lookup.Repr
    modifies queue, lookup.Repr, allocator
    ensures queue.Valid(Fs(nodes')) && lookup.Valid() && allocator.Valid()
    ensures lookup.data == old(lookup.data) || fresh(lookup.data)
    ensures Handled(nodes, rank, q, keys, closed, current, newPos, goal, manhattan,
                    nodes', rank', multiset(queue.data), lookup.Contents(), deleted, reExpanded)
    ensures allocator.Valid() && SlotsAdded(held, allocator.Handed(), |nodes'| - |nodes|)
  {
    allocator.ReplaceLast();
    nodes', rank', deleted, reExpanded := nodes, rank, 0, 1;
  }

  /**
   * `expandAStarExpanded` for a state not yet expanded: the successor is scored
   * (`calculateHeuristic`) and merged into the queue.
   */
  method Accept(nodes: seq<Node>, ghost rank: seq<nat>, goal: Board, manhattan: bool,
                ghost q: multiset<nat>, ghost keys: multiset<Key>, ghost closed: multiset<Board>,
                current: nat, newPos: nat, oldPos: nat, n: Node,
                queue: PriorityQueue, lookup: HashMap<Key>, allocator: StackSlabAllocator, ghost held: seq<Ptr>)
      returns (nodes': seq<Node>, ghost rank': seq<nat>, deleted: nat, reExpanded: nat)
    requires Poised(nodes, rank, q, keys, current, goal)
    requires oldPos == nodes[current].board.emptyPos && newPos < Cells && Adjacent(oldPos, newPos)
    requires n == nodes[current].(board := Move(nodes[current].board, newPos), next := Some(current))
    requires n.board !in closed
    requires queue.Valid(Fs(nodes)) && q == multiset(queue.data)
    requires lookup.Valid() && lookup.equal == SameKey && keys == lookup.Contents()
    requires allocator.LastInHead() && SlotsAdded(held, allocator.Handed(), 1)
    requires queue !in lookup.Repr && allocator !in lookup.Repr
    modifies queue, lookup.Repr, allocator
    ensures queue.Valid(Fs(nodes')) && lookup.Valid() && allocator.Valid()
    ensures lookup.data == old(lookup.data) || fresh(lookup.data)
    ensures Handled(nodes, rank, q, keys, closed, current, newPos, goal, manhattan,
                    nodes', rank', multiset(queue.data), lookup.Contents(), deleted, reExpanded)
    ensures allocator.Valid() && SlotsAdded(held, allocator.Handed(), |nodes'| - |nodes|)
  {
    var c := Score(nodes, current, n, goal, manhattan, oldPos, newPos);
    nodes', rank', deleted := Merge(nodes, rank, q, keys, current, c, queue, lookup, allocator, held);
    reExpanded := 0;
  }

  /**
   * One guarded `expandAStarExpanded` call of `aStar_ExpandedList`, for the move of the blank
   * of node `current` to `newPos`: what A* keeps still holds, the successor is counted once,
   * and node `current` stays as it was.
   */
  method ExpandMove(nodes: seq<Node>, ghost rank: seq<nat>, ghost root: Board, goal: Board, manhattan: bool,
                    ghost q: multiset<nat>, ghost keys: multiset<Key>, ghost closed: multiset<Board>,
                    current: nat, newPos: nat,
                    queue: PriorityQueue, lookup: HashMap<Key>, expanded: HashMap<Board>, allocator: StackSlabAllocator)
      returns (nodes': seq<Node>, ghost rank': seq<nat>, ok: bool, deleted: nat, reExpanded: nat)
    requires Expanding(nodes, rank, root, goal, manhattan, q, keys, closed, current)
    requires newPos < Cells && Adjacent(nodes[current].board.emptyPos, newPos)
    requires Ready(nodes, queue, lookup, expanded, allocator)
    requires q == multiset(queue.data) && keys == lookup.Contents() && closed == expanded.Contents()
    modifies queue, lookup.Repr, allocator
    ensures Ready(nodes', queue, lookup, expanded, allocator) && closed == expanded.Contents()
    ensures lookup.data == old(lookup.data) || fresh(lookup.data)
    ensures ok ==> Expanding(nodes', rank', root, goal, manhattan, multiset(queue.data), lookup.Contents(), closed, current)
    ensures ok ==> deleted + reExpanded + (|nodes'| - |nodes|) == 1 && |nodes| <= |nodes'| && nodes'[current] == nodes[current]
    ensures SlotsAdded(old(allocator.Handed()), allocator.Handed(), |nodes'| - |nodes|)
  {
    ExpandingPoised(nodes, rank, root, goal, manhattan, q, keys, closed, current);
    nodes', rank', ok, deleted, reExpanded := ExpandAStarExpanded(nodes, rank, goal, manhattan, q, keys, closed, current, newPos,
                                                                  nodes[current].board.emptyPos, queue, lookup, expanded, allocator);
    if ok {
      HandledKeeps(nodes, rank, root, goal, manhattan, q, keys, closed, current, newPos,
                   nodes', rank', multiset(queue.data), lookup.Contents(), deleted, reExpanded);
    }
  }

  /**
   * The four guarded `expandAStarExpanded` calls of `aStar_ExpandedList`: each successor of
   * node `current`, up, right, down and left within the grid, is handled in turn.  Unless
   * memory runs out, what A* keeps still holds and every successor is counted once, as a
   * deletion, as an attempted re-expansion or as a new node.
   */
  method ExpandAll(nodes: seq<Node>, ghost rank: seq<nat>, ghost root: Board, goal: Board, manhattan: bool,
                   ghost q: multiset<nat>, ghost keys: multiset<Key>, ghost closed: multiset<Board>, current: nat,
                   queue: PriorityQueue, lookup: HashMap<Key>, expanded: HashMap<Board>, allocator: StackSlabAllocator)
      returns (nodes': seq<Node>, ghost rank': seq<nat>, ok: bool, deleted: nat, reExpanded: nat)
    requires Expanding(nodes, rank, root, goal, manhattan, q, keys, closed, current)
    requires Ready(nodes, queue, lookup, expanded, allocator)
    requires q == multiset(queue.data) && keys == lookup.Contents() && closed == expanded.Contents()
    modifies queue, lookup.Repr, allocator
    ensures Ready(nodes', queue, lookup, expanded, allocator) && closed == expanded.Contents()
    ensures lookup.data == old(lookup.data) || fresh(lookup.data)
    ensures ok ==> Expanding(nodes', rank', root, goal, manhattan, multiset(queue.data), lookup.Contents(), closed, current)
    ensures ok ==> nodes'[current] == nodes[current] &&
                   deleted + reExpanded + (|nodes'| - |nodes|) == |Neighbours(nodes[current].board.emptyPos)|
    ensures SlotsAdded(old(allocator.Handed()), allocator.Handed(), |nodes'| - |nodes|)
  {
    var moves := Neighbours(nodes[current].board.emptyPos);
    nodes', rank', ok, deleted, reExpanded := nodes, rank, true, 0, 0;
    var k := 0;
    while k < |moves| && ok
      invariant k <= |moves|
      invariant Ready(nodes', queue, lookup, expanded, allocator) && closed == expanded.Contents()
      invariant lookup.data == old(lookup.data) || fresh(lookup.data)
      invariant ok ==> Expanding(nodes', rank', root, goal, manhattan, multiset(queue.data), lookup.Contents(), closed, current)
      invariant ok ==> nodes'[current] == nodes[current] && deleted + reExpanded + (|nodes'| - |nodes|) == k
      invariant SlotsAdded(old(allocator.Handed()), allocator.Handed(), |nodes'| - |nodes|)
    {
      var d, r;
      ghost var before := allocator.Handed();
      var nodes1 := nodes';
      nodes', rank', ok, d, r := ExpandMove(nodes', rank', root, goal, manhattan, multiset(queue.data), lookup.Contents(), closed,
                                            current, moves[k], queue, lookup, expanded, allocator);
      SlotsAddedJoin(old(allocator.Handed()), before, allocator.Handed(), |nodes1| - |nodes|, |nodes'| - |nodes1|);
      deleted, reExpanded := deleted + d, reExpanded + r;
      k := k + 1;
    }
    if ok {
      assert k == |moves|;
    }
  }

  /**
   * `queueLookup.erase(currentPath)` at the top of the loop of `aStar_ExpandedList`: `key`,
   * the only key with its state, is the one `find` reaches, and it leaves `queueLookup`.
   */
  method Unlist(key: Key, lookup: HashMap<Key>)
    requires lookup.Valid() && lookup.equal == SameKey && key in lookup.Contents()
    requires forall x :: x in lookup.Contents() && Twins(x, key) ==> x == key
    modifies lookup.Repr
    ensures lookup.Valid() && lookup.Repr == old(lookup.Repr) && lookup.data == old(lookup.data)
    ensures lookup.Contents() == old(lookup.Contents()) - multiset{key}
  {
    ghost var x := lookup.EraseValue(key, key);
    assert Twins(x, key);
  }

  /**
   * The end of a pass of the loop of `aStar_ExpandedList`: `maxQLength` rises to the queue's
   * size when that is larger, and the expanded node's state enters the expanded list.
   */
  method Close(nodes: seq<Node>, current: nat, queue: PriorityQueue, lookup: HashMap<Key>, expanded: HashMap<Board>,
               allocator: StackSlabAllocator, maxQLength: nat) returns (maxQLength': nat)
    requires Ready(nodes, queue, lookup, expanded, allocator) && current < |nodes|
    modifies expanded.Repr
    ensures Ready(nodes, queue, lookup, expanded, allocator)
    ensures expanded.data == old(expanded.data) || fresh(expanded.data)
    ensures expanded.Contents() == old(expanded.Contents()) + multiset{nodes[current].board}
    ensures queue.data == old(queue.data) && lookup.Contents() == old(lookup.Contents())
    ensures maxQLength' == if |queue.data| > maxQLength then |queue.data| else maxQLength
  {
    var size := queue.Size();
    maxQLength' := maxQLength;
    if size > maxQLength {
      maxQLength' := size;
    }
    expanded.Insert(nodes[current].board);
  }

  /**
   * The node `current`, already popped, has its successors handled and its state entered
   * in the expanded list, and the largest queue length is updated.  Unless memory runs out,
   * what A* keeps holds again, and every successor is counted once.
   */
  method ExpandAndClose(nodes: seq<Node>, ghost rank: seq<nat>, ghost root: Board, goal: Board, manhattan: bool,
                        ghost q: multiset<nat>, ghost keys: multiset<Key>, ghost closed: multiset<Board>, current: nat,
                        queue: PriorityQueue, lookup: HashMap<Key>, expanded: HashMap<Board>, allocator: StackSlabAllocator,
                        maxQLength: nat)
      returns (nodes': seq<Node>, ghost rank': seq<nat>, ok: bool, deleted: nat, reExpanded: nat, maxQLength': nat)
    requires Expanding(nodes, rank, root, goal, manhattan, q, keys, closed, current)
    requires Ready(nodes, queue, lookup, expanded, allocator)
    requires q == multiset(queue.data) && keys == lookup.Contents() && closed == expanded.Contents()
    modifies queue, lookup.Repr, expanded.Repr, allocator
    ensures lookup.data == old(lookup.data) || fresh(lookup.data)
    ensures expanded.data == old(expanded.data) || fresh(expanded.data)
    ensures ok ==> Ready(nodes', queue, lookup, expanded, allocator)
    ensures ok ==> Searching(nodes', rank', root, goal, manhattan, multiset(queue.data), lookup.Contents(), expanded.Contents())
    ensures ok ==> expanded.Contents() == closed + multiset{nodes[current].board}
    ensures ok ==> deleted + reExpanded + (|nodes'| - |nodes|) == |Neighbours(nodes[current].board.emptyPos)|
    ensures ok ==> maxQLength' == if |queue.data| > maxQLength then |queue.data| else maxQLength
    ensures allocator.Valid() && SlotsAdded(old(allocator.Handed()), allocator.Handed(), |nodes'| - |nodes|)
  {
    nodes', rank', ok, deleted, reExpanded := ExpandAll(nodes, rank, root, goal, manhattan, q, keys, closed, current,
                                                       queue, lookup, expanded, allocator);
    maxQLength' := maxQLength;
    if ok {
      CloseKeeps(nodes', rank', root, goal, manhattan, multiset(queue.data), lookup.Contents(), closed, current);
      maxQLength' := Close(nodes', current, queue, lookup, expanded, allocator, maxQLength);
    }
  }

  /** `posiblePaths.pop()`: the top node leaves the queue and the two hash sets stay as they are. */
  method Dequeue(nodes: seq<Node>, queue: PriorityQueue, lookup: HashMap<Key>, expanded: HashMap<Board>,
                 allocator: StackSlabAllocator)
    requires Ready(nodes, queue, lookup, expanded, allocator) && |queue.data| > 0
    modifies queue
    ensures Ready(nodes, queue, lookup, expanded, allocator)
    ensures multiset(queue.data) == old(multiset(queue.data)) - multiset{old(queue.data[0])}
    ensures lookup.Contents() == old(lookup.Contents()) && expanded.Contents() == old(expanded.Contents())
  {
    queue.Pop(Fs(nodes));
  }

  /**
   * The rest of a pass of the loop of `aStar_ExpandedList` once the top node `top` is known
   * not to be the goal and its key has left `queueLookup`: it is popped and expanded.
   */
  method PopAndExpand(nodes: seq<Node>, ghost rank: seq<nat>, ghost root: Board, goal: Board, manhattan: bool,
                      ghost q: multiset<nat>, ghost keys: multiset<Key>, ghost closed: multiset<Board>, top: nat,
                      queue: PriorityQueue, lookup: HashMap<Key>, expanded: HashMap<Board>, allocator: StackSlabAllocator,
                      maxQLength: nat)
      returns (nodes': seq<Node>, ghost rank': seq<nat>, ok: bool, deleted: nat, reExpanded: nat, maxQLength': nat)
    requires Searching(nodes, rank, root, goal, manhattan, q, keys, closed) && top in q
    requires Ready(nodes, queue, lookup, expanded, allocator) && |queue.data| > 0 && top == queue.data[0]
    requires q == multiset(queue.data) && lookup.Contents() == keys - multiset{Key(nodes[top].board, top)}
    requires closed == expanded.Contents()
    modifies queue, lookup.Repr, expanded.Repr, allocator
    ensures lookup.data == old(lookup.data) || fresh(lookup.data)
    ensures expanded.data == old(expanded.data) || fresh(expanded.data)
    ensures ok ==> Ready(nodes', queue, lookup, expanded, allocator)
    ensures ok ==> Searching(nodes', rank', root, goal, manhattan, multiset(queue.data), lookup.Contents(), expanded.Contents())
    ensures allocator.Valid() && SlotsAdded(old(allocator.Handed()), allocator.Handed(), |nodes'| - |nodes|)
  {
    Dequeue(nodes, queue, lookup, expanded, allocator);
    PopKeeps(nodes, rank, root, goal, manhattan, q, keys, closed, top);
    nodes', rank', ok, deleted, reExpanded, maxQLength' :=
      ExpandAndClose(nodes, rank, root, goal, manhattan, multiset(queue.data), lookup.Contents(), closed, top,
                     queue, lookup, expanded, allocator, maxQLength);
  }

  /**
   * A pass of the loop of `aStar_ExpandedList` on a queue that is not empty: the top node
   * leaves `queueLookup` and is compared with the goal, and when it is not the goal it is
   * popped and expanded (`PopAndExpand`).  A goal found is reached by the path `packPath`
   * builds.
   */
  method ExpandTop(nodes: seq<Node>, ghost rank: seq<nat>, ghost root: Board, goal: Board, manhattan: bool,
                   ghost q: multiset<nat>, ghost keys: multiset<Key>, ghost closed: multiset<Board>,
                   queue: PriorityQueue, lookup: HashMap<Key>, expanded: HashMap<Board>, allocator: StackSlabAllocator,
                   maxQLength: nat)
      returns (isGoal: bool, path: string, nodes': seq<Node>, ghost rank': seq<nat>, ok: bool,
               deleted: nat, reExpanded: nat, maxQLength': nat)
    requires Searching(nodes, rank, root, goal, manhattan, q, keys, closed)
    requires Ready(nodes, queue, lookup, expanded, allocator) && |queue.data| > 0
    requires q == multiset(queue.data) && keys == lookup.Contents() && closed == expanded.Contents()
    modifies queue, lookup.Repr, expanded.Repr, allocator
    ensures isGoal ==> Replay(root, path) == Some(goal)
    ensures lookup.data == old(lookup.data) || fresh(lookup.data)
    ensures expanded.data == old(expanded.data) || fresh(expanded.data)
    ensures !isGoal && ok ==> Ready(nodes', queue, lookup, expanded, allocator)
    ensures !isGoal && ok ==>
      Searching(nodes', rank', root, goal, manhattan, multiset(queue.data), lookup.Contents(), expanded.Contents())
    ensures allocator.Valid() && SlotsAdded(old(allocator.Handed()), allocator.Handed(), |nodes'| - |nodes|)
  {
    var top := queue.Top(Fs(nodes));
    LookedKey(nodes, q, keys, top);
    Unlist(Key(nodes[top].board, top), lookup);
    isGoal, path := GoalTest(nodes, rank, root, top, goal);
    nodes', rank', ok, deleted, reExpanded, maxQLength' := nodes, rank, true, 0, 0, maxQLength;
    if !isGoal {
      nodes', rank', ok, deleted, reExpanded, maxQLength' :=
        PopAndExpand(nodes, rank, root, goal, manhattan, q, keys, closed, top, queue, lookup, expanded, allocator, maxQLength);
    }
  }

  /**
   * One pass of the `while (!posiblePaths.empty())` loop: the search ends with no solution
   * on an empty queue, stops when the fuel is spent, ends at the goal or when memory runs
   * out, and otherwise goes on after one expansion.
   */
  method SearchStep(nodes: seq<Node>, ghost rank: seq<nat>, ghost root: Board, goal: Board, manhattan: bool,
                    queue: PriorityQueue, lookup: HashMap<Key>, expanded: HashMap<Board>, allocator: StackSlabAllocator,
                    maxQLength: nat, fuelLeft: nat)
      returns (done: bool, o: Outcome, nodes': seq<Node>, ghost rank': seq<nat>, deleted: nat, reExpanded: nat,
               maxQLength': nat, fuelLeft': nat)
    requires Ready(nodes, queue, lookup, expanded, allocator)
    requires Searching(nodes, rank, root, goal, manhattan, multiset(queue.data), lookup.Contents(), expanded.Contents())
    modifies queue, lookup.Repr, expanded.Repr, allocator
    ensures lookup.data == old(lookup.data) || fresh(lookup.data)
    ensures expanded.data == old(expanded.data) || fresh(expanded.data)
    ensures !done ==> Ready(nodes', queue, lookup, expanded, allocator) && fuelLeft' < fuelLeft
    ensures !done ==>
      Searching(nodes', rank', root, goal, manhattan, multiset(queue.data), lookup.Contents(), expanded.Contents())
    ensures done && o.Found? ==> Replay(root, o.path) == Some(goal)
    ensures done && o == NoSolution ==> old(|queue.data|) == 0
    ensures fuelLeft' <= fuelLeft
    ensures allocator.Valid() && SlotsAdded(old(allocator.Handed()), allocator.Handed(), |nodes'| - |nodes|)
  {
    done, o, nodes', rank', deleted, reExpanded, maxQLength', fuelLeft' := true, NoSolution, nodes, rank, 0, 0, maxQLength, fuelLeft;
    var empty := queue.Empty();
    if !empty && fuelLeft == 0 {
      o := Stopped;
    } else if !empty {
      fuelLeft' := fuelLeft - 1;
      var isGoal, path, ok;
      isGoal, path, nodes', rank', ok, deleted, reExpanded, maxQLength' :=
        ExpandTop(nodes, rank, root, goal, manhattan, multiset(queue.data), lookup.Contents(), expanded.Contents(),
                  queue, lookup, expanded, allocator, maxQLength);
      if isGoal {
        o := Found(path);
      } else if !ok {
        o := OutOfMemory;
      } else {
        done := false;
      }
    }
  }

  /**
   * The loop of `aStar_ExpandedList`, with the counters it keeps: expansions, the largest
   * queue, deletions from the middle of the heap and attempted re-expansions.  What A* keeps
   * holds at the top of every pass; a path it finds leads from the root to the goal.
   */
  method Search(nodesIn: seq<Node>, ghost rankIn: seq<nat>, ghost root: Board, goal: Board, manhattan: bool,
                queue: PriorityQueue, lookup: HashMap<Key>, expanded: HashMap<Board>, allocator: StackSlabAllocator,
                maxQLengthIn: nat, fuel: nat)
      returns (o: Outcome, expansions: nat, maxQLength: nat, deletions: nat, reExpansions: nat)
    requires Ready(nodesIn, queue, lookup, expanded, allocator) && |queue.data| > 0 && |allocator.Handed()| == |nodesIn|
    requires Searching(nodesIn, rankIn, root, goal, manhattan, multiset(queue.data), lookup.Contents(), expanded.Contents())
    modifies queue, lookup.Repr, expanded.Repr, allocator
    ensures o.Found? ==> Replay(root, o.path) == Some(goal)
    ensures o != NoSolution || expansions > 0
  {
    var nodes := nodesIn;
    ghost var rank := rankIn;
    o, expansions, maxQLength, deletions, reExpansions := NoSolution, 0, maxQLengthIn, 0, 0;
    var fuelLeft := fuel;
    var done := false;
    while !done
      invariant lookup.data == old(lookup.data) || fresh(lookup.data)
      invariant expanded.data == old(expanded.data) || fresh(expanded.data)
      invariant !done ==> Ready(nodes, queue, lookup, expanded, allocator) && |allocator.Handed()| == |nodes|
      invariant !done ==>
        Searching(nodes, rank, root, goal, manhattan, multiset(queue.data), lookup.Contents(), expanded.Contents())
      invariant !done && |queue.data| == 0 ==> expansions > 0
      invariant done ==> (o.Found? ==> Replay(root, o.path) == Some(goal)) && (o != NoSolution || expansions > 0)
      decreases fuelLeft + (if done then 0 else 1)
    {
      var d, r;
      done, o, nodes, rank, d, r, maxQLength, fuelLeft :=
        SearchStep(nodes, rank, root, goal, manhattan, queue, lookup, expanded, allocator, maxQLength, fuelLeft);
      deletions, reExpansions := deletions + d, reExpansions + r;
      if !done {
        expansions := expansions + 1;
      }
    }
  }

  /**
   * `aStar_ExpandedList`: the goal and the initial state are read into states, the root path
   * is obtained from the arena and queued with its key in `queueLookup`, and the loop runs.
   * Running out of arena blocks, for the root or later, ends the search with `OutOfMemory`;
   * a path it returns leads from the initial state to the goal.  Local loops are never
   * counted by this search.
   */
  method AStarExpandedList(initialState: string, goalState: string, goalStart: Board, manhattan: bool,
                           maxQLengthIn: nat, blockSize: nat, budget: nat, fuel: nat)
      returns (o: Outcome, expansions: nat, maxQLength: nat, deletions: nat, localLoopsAvoided: nat, reExpansions: nat)
    requires Permutation(initialState) && Permutation(goalState) && |goalStart.tiles| == Cells && blockSize > 0
    ensures o.Found? ==> Replay(Parsed(initialState, Zero()), o.path) == Some(Parsed(goalState, goalStart))
    ensures o != NoSolution || expansions > 0
    ensures localLoopsAvoided == 0
  {
    expansions, maxQLength, deletions, localLoopsAvoided, reExpansions := 0, maxQLengthIn, 0, 0, 0;
    var goal := Parse(goalState, goalStart);
    var queue, lookup, expanded, allocator := NewContainers(blockSize, budget);
    var got, slot := allocator.GetNext();
    if !got {
      o := OutOfMemory;
    } else {
      var root := Parse(initialState, Zero());
      StartFits(initialState, goalState, root, goal);
      o, expansions, maxQLength, deletions, reExpansions := SeedAndSearch(root, goal, manhattan, queue, lookup, expanded, allocator, fuel);
    }
  }

  /**
   * The containers `aStar_ExpandedList` declares: an empty queue, an empty `queueLookup`
   * hashed by `ListNodeHasher<Map_t, 10>`, an empty expanded list hashed by `Hasher<Map_t>`
   * and an arena with nothing handed out.
   */
  method NewContainers(blockSize: nat, budget: nat)
      returns (queue: PriorityQueue, lookup: HashMap<Key>, expanded: HashMap<Board>, allocator: StackSlabAllocator)
    requires blockSize > 0
    ensures Ready([], queue, lookup, expanded, allocator)
    ensures queue.data == [] && lookup.Contents() == multiset{} && expanded.Contents() == multiset{}
    ensures allocator.Handed() == [] && allocator.budget == budget
    ensures fresh(queue) && fresh(lookup.Repr) && fresh(expanded.Repr) && fresh(allocator)
  {
    KeyHashes();
    StateHashes();
    queue := new PriorityQueue();
    lookup := new HashMap<Key>(KeyHash, SameKey);
    expanded := new HashMap<Board>(Hash31, SameState);
    allocator := new StackSlabAllocator(blockSize, budget);
  }

  /**
   * The search from the root: it is queued with its key, the largest queue length becomes
   * one, and the loop runs.
   */
  method SeedAndSearch(root: Board, goal: Board, manhattan: bool,
                       queue: PriorityQueue, lookup: HashMap<Key>, expanded: HashMap<Board>, allocator: StackSlabAllocator,
                       fuel: nat)
      returns (o: Outcome, expansions: nat, maxQLength: nat, deletions: nat, reExpansions: nat)
    requires Proper(root) && GoalFor(goal, root)
    requires Ready([], queue, lookup, expanded, allocator) && |allocator.Handed()| == 1
    requires queue.data == [] && lookup.Contents() == multiset{} && expanded.Contents() == multiset{}
    modifies queue, lookup.Repr, expanded.Repr, allocator
    ensures o.Found? ==> Replay(root, o.path) == Some(goal)
    ensures o != NoSolution || expansions > 0
  {
    var nodes := Seed(root, queue, lookup, expanded, allocator);
    RootSearch(root, goal, manhattan);
    o, expansions, maxQLength, deletions, reExpansions := Search(nodes, [0], root, goal, manhattan, queue, lookup, expanded, allocator, 1, fuel);
  }

  /**
   * The root path, node 0, is pushed and its key inserted in the empty `queueLookup`, as
   * `Enqueue` does for a new successor.
   */
  method Seed(root: Board, queue: PriorityQueue, lookup: HashMap<Key>, expanded: HashMap<Board>,
              allocator: StackSlabAllocator)
      returns (nodes: seq<Node>)
    requires Ready([], queue, lookup, expanded, allocator)
    requires queue.data == [] && lookup.Contents() == multiset{}
    modifies queue, lookup.Repr
    ensures nodes == [Node(root, 0, 0, 0, None)]
    ensures Ready(nodes, queue, lookup, expanded, allocator)
    ensures multiset(queue.data) == multiset{0} && lookup.Contents() == multiset{Key(root, 0)}
    ensures lookup.data == old(lookup.data) || fresh(lookup.data)
    ensures expanded.Contents() == old(expanded.Contents())
  {
    nodes := Enqueue([], Node(root, 0, 0, 0, None), queue, lookup);
  }
}
