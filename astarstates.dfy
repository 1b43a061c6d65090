/**
 * The values `aStar_ExpandedList` works on and what it keeps true of them: the keys of
 * `queueLookup`, the successor `expandAStarExpanded` builds, and the invariants that tie
 * the tree of nodes, the priority queue, `queueLookup` and the expanded list together,
 * with the lemmas that show each step of the search keeps them.
 */
module AStarStates {
  import opened Common
  import opened Puzzle
  import opened Paths
  import opened SlabAllocators
  import opened HashMaps
  import opened PriorityQueues
  import opened Searches
  import opened Heuristics

  /** A `queueLookup` entry: a pointer to the queued node `index`, whose state is `board`. */
  datatype Key = Key(board: Board, index: nat)

  /** `ListNodeHasher<Map_t, 10>`: the hash of the state an entry points at. */
  function KeyHash(k: Key): nat
  {
    Hash10(k.board)
  }

  /** `ListNodeEqualityTester`: two entries are equal when their states are. */
  function SameKey(a: Key, b: Key): bool
  {
    SameState(a.board, b.board)
  }

  /** Entries with equal states hash alike. */
  lemma KeyHashes()
    ensures Consistent(KeyHash, SameKey)
  {
  }

  /** The `f` of every node: what the priority queue orders node indices by. */
  function Fs(nodes: seq<Node>): (r: seq<nat>)
    ensures |r| == |nodes| && forall i :: 0 <= i < |nodes| ==> r[i] == nodes[i].f
  {
    seq(|nodes|, i requires 0 <= i < |nodes| => nodes[i].f)
  }

  /**
   * The successor `expandAStarExpanded` builds from node `p` with the blank moved to
   * `newPos`, scored by `calculateHeuristic`: `g` moves by the change in the heuristic and
   * `f - g` grows by one, both as `unsigned int`s.
   */
  ghost function Child(nodes: seq<Node>, p: nat, newPos: nat, goal: Board, manhattan: bool): Node
    requires p < |nodes| && Proper(nodes[p].board) && newPos < Cells && |goal.tiles| == Cells
  {
    var parent := nodes[p];
    var b := Move(parent.board, newPos);
    var g := (parent.g + Heuristic(b, goal, manhattan) - Heuristic(parent.board, goal, manhattan)) % U32;
    parent.(board := b, next := Some(p), g := g, f := (parent.f - parent.g + 1 + g) % U32)
  }

  /**
   * The queued node `j` after a successor `c` with the same state was built: it takes `c`'s
   * scores and parent when `c`'s `f` is the smaller.
   */
  function Improve(nodes: seq<Node>, j: nat, c: Node): (r: seq<Node>)
    requires j < |nodes|
    ensures |r| == |nodes| && forall i :: 0 <= i < |nodes| && i != j ==> r[i] == nodes[i]
    ensures r[j].board == nodes[j].board && r[j].f == if nodes[j].f > c.f then c.f else nodes[j].f
  {
    if nodes[j].f > c.f then nodes[j := nodes[j].(f := c.f, g := c.g, next := c.next)] else nodes
  }

  /** Every state in the tree is well formed and made of the goal's tiles. */
  ghost predicate Fitted(nodes: seq<Node>, goal: Board)
  {
    forall i :: 0 <= i < |nodes| ==> Proper(nodes[i].board) && GoalFor(goal, nodes[i].board)
  }

  /**
   * The queue `q` (as a multiset of node indices) and the keys of `queueLookup` agree: every
   * queued node is queued once and has the key of its state, every key names a queued node
   * by its state, and no two keys share a state.
   */
  ghost predicate Looked(nodes: seq<Node>, q: multiset<nat>, keys: multiset<Key>)
  {
    (forall x :: x in q ==> q[x] == 1 && x < |nodes| && Key(nodes[x].board, x) in keys) &&
    (forall k :: k in keys ==> keys[k] == 1 && k.index in q && k.index < |nodes| && nodes[k.index].board == k.board) &&
    (forall a, b {:trigger Twins(a, b)} :: a in keys && b in keys && Twins(a, b) ==> a == b)
  }

  /** Keys `a` and `b` are for the same state. */
  predicate Twins(a: Key, b: Key)
  {
    a.board == b.board
  }

  /** The expanded list holds each state once, and no queued node's state is in it. */
  ghost predicate Closed(nodes: seq<Node>, q: multiset<nat>, closed: multiset<Board>)
  {
    (forall b :: b in closed ==> closed[b] == 1) &&
    (forall x :: x in q && x < |nodes| ==> nodes[x].board !in closed)
  }

  /** A queued node is no node's parent, and the root is queued only while it is alone. */
  ghost predicate Leaves(nodes: seq<Node>, q: multiset<nat>)
  {
    (forall i :: 0 <= i < |nodes| && nodes[i].next.Some? ==> nodes[i].next.value !in q) &&
    (|nodes| > 1 ==> 0 !in q)
  }

  /** What holds at the top of the loop of `aStar_ExpandedList`. */
  ghost predicate Searching(nodes: seq<Node>, rank: seq<nat>, root: Board, goal: Board, manhattan: bool,
                            q: multiset<nat>, keys: multiset<Key>, closed: multiset<Board>)
  {
    Tree(nodes, rank, root) && Scored(nodes, rank, goal, manhattan) && Fitted(nodes, goal) &&
    Looked(nodes, q, keys) && Closed(nodes, q, closed) && Leaves(nodes, q)
  }

  /**
   * What holds while node `current`, taken off the queue, is expanded: it is neither queued
   * nor expanded, and no queued node has its state.
   */
  ghost predicate Expanding(nodes: seq<Node>, rank: seq<nat>, root: Board, goal: Board, manhattan: bool,
                            q: multiset<nat>, keys: multiset<Key>, closed: multiset<Board>, current: nat)
  {
    Searching(nodes, rank, root, goal, manhattan, q, keys, closed) &&
    current < |nodes| && current !in q && nodes[current].board !in closed &&
    forall x :: x in q && x < |nodes| ==> nodes[x].board != nodes[current].board
  }

  /** Node `n` has the scores `Scored` asks of a child of `parent`. */
  ghost predicate ScoredFrom(n: Node, parent: Node, goal: Board, manhattan: bool)
  {
    |n.board.tiles| == Cells && |parent.board.tiles| == Cells && |goal.tiles| == Cells &&
    n.g < U32 && n.f < U32 &&
    n.g == (parent.g + Heuristic(n.board, goal, manhattan) - Heuristic(parent.board, goal, manhattan)) % U32 &&
    (n.f - n.g) % U32 == (parent.f - parent.g + 1) % U32
  }

  /** The scores of a child built by `Child` are those `Scored` asks of a child of `p`. */
  lemma ChildScored(nodes: seq<Node>, p: nat, newPos: nat, goal: Board, manhattan: bool)
    requires p < |nodes| && Proper(nodes[p].board) && newPos < Cells && |goal.tiles| == Cells
    ensures ScoredFrom(Child(nodes, p, newPos, goal, manhattan), nodes[p], goal, manhattan)
  {
    var c := Child(nodes, p, newPos, goal, manhattan);
    SubMod(nodes[p].f - nodes[p].g + 1 + c.g, c.g);
  }

  /** A state the program accepts, parsed, is well formed; the initial state is made of the goal's tiles. */
  lemma StartFits(s: string, t: string, b: Board, goal: Board)
    requires Permutation(s) && Permutation(t) && |b.tiles| == Cells && |goal.tiles| == Cells
    requires forall i :: 0 <= i < Cells ==> b.tiles[i] == TileOf(s[i]) && goal.tiles[i] == TileOf(t[i])
    requires (exists i :: 0 <= i < |s| && s[i] == '0') ==> b.emptyPos < |s| && s[b.emptyPos] == '0'
    requires (exists i :: 0 <= i < |t| && t[i] == '0') ==> goal.emptyPos < |t| && t[goal.emptyPos] == '0'
    ensures Proper(b) && GoalFor(goal, b)
  {
    HasBlank(s);
    ParsedProper(s, b);
    HasBlank(t);
    ParsedProper(t, goal);
    PermutationsAgree(s, t);
    forall p | 0 <= p < Cells
      ensures b.tiles[p] in goal.tiles
    {
      assert s[p] in t;
      var q :| 0 <= q < |t| && t[q] == s[p];
      assert goal.tiles[q] == b.tiles[p];
    }
  }

  /** A successor of a fitted state is fitted. */
  lemma MoveFits(b: Board, goal: Board, n: nat)
    requires Proper(b) && GoalFor(goal, b) && n < Cells && n != b.emptyPos
    ensures Proper(Move(b, n)) && GoalFor(goal, Move(b, n))
  {
    MoveProper(b, n);
    var m := Move(b, n);
    forall p | 0 <= p < |m.tiles|
      ensures m.tiles[p] in goal.tiles
    {
      assert m.tiles[p] in multiset(m.tiles);
    }
  }

  /** A new node scored from its parent keeps the tree scored. */
  lemma GrowScored(nodes: seq<Node>, rank: seq<nat>, goal: Board, manhattan: bool, p: nat, n: Node)
    requires Linked(nodes, rank) && Scored(nodes, rank, goal, manhattan) && p < |nodes|
    requires Linked(nodes + [n], rank + [rank[p] + 1]) && n.next == Some(p)
    requires ScoredFrom(n, nodes[p], goal, manhattan)
    ensures Scored(nodes + [n], rank + [rank[p] + 1], goal, manhattan)
  {
    var nodes', rank' := nodes + [n], rank + [rank[p] + 1];
    forall i | 0 < i < |nodes'|
      ensures ScoredAt(nodes', rank', goal, manhattan, i)
    {
      if i < |nodes| {
        assert ScoredAt(nodes, rank, goal, manhattan, i);
      }
    }
  }

  /** Re-scoring a node that is no node's parent from a new parent keeps the tree scored. */
  lemma RelinkScored(nodes: seq<Node>, rank: seq<nat>, goal: Board, manhattan: bool, j: nat, p: nat, n: Node)
    requires Linked(nodes, rank) && Scored(nodes, rank, goal, manhattan) && 0 < j < |nodes| && p < |nodes| && p != j
    requires forall i :: 0 < i < |nodes| ==> nodes[i].next.value != j
    requires Linked(nodes[j := n], rank[j := rank[p] + 1]) && n.next == Some(p)
    requires ScoredFrom(n, nodes[p], goal, manhattan)
    ensures Scored(nodes[j := n], rank[j := rank[p] + 1], goal, manhattan)
  {
    var nodes', rank' := nodes[j := n], rank[j := rank[p] + 1];
    forall i | 0 < i < |nodes'|
      ensures ScoredAt(nodes', rank', goal, manhattan, i)
    {
      if i != j {
        assert ScoredAt(nodes, rank, goal, manhattan, i);
        assert nodes[i].next.value != j;
      }
    }
  }

  /** The tree A* starts from: the root alone, queued, with its key in `queueLookup`. */
  lemma RootSearch(root: Board, goal: Board, manhattan: bool)
    requires Proper(root) && GoalFor(goal, root)
    ensures Searching([Node(root, 0, 0, 0, None)], [0], root, goal, manhattan, multiset{0}, multiset{Key(root, 0)}, multiset{})
  {
  }

  /** The key of a queued state names the one queued node with that state. */
  lemma KeyNames(nodes: seq<Node>, q: multiset<nat>, keys: multiset<Key>, e: Key, j: nat)
    requires Looked(nodes, q, keys) && e in keys && j in q && nodes[j].board == e.board
    ensures j == e.index
  {
    assert Key(nodes[j].board, j) in keys && Twins(e, Key(nodes[j].board, j));
  }

  /** The key of a queued node is in `queueLookup`, and no other key there has its state. */
  lemma LookedKey(nodes: seq<Node>, q: multiset<nat>, keys: multiset<Key>, top: nat)
    requires Looked(nodes, q, keys) && top in q
    ensures top < |nodes| && Key(nodes[top].board, top) in keys
    ensures forall x :: x in keys && Twins(x, Key(nodes[top].board, top)) ==> x == Key(nodes[top].board, top)
  {
  }

  /** Removing the top node from the queue and its key from `queueLookup` keeps the two in step. */
  lemma LookedPop(nodes: seq<Node>, q: multiset<nat>, keys: multiset<Key>, top: nat)
    requires Looked(nodes, q, keys) && top in q
    ensures Looked(nodes, q - multiset{top}, keys - multiset{Key(nodes[top].board, top)})
    ensures forall x :: x in q - multiset{top} ==> x < |nodes| && nodes[x].board != nodes[top].board
  {
    var kt := Key(nodes[top].board, top);
    var q', keys' := q - multiset{top}, keys - multiset{kt};
    forall x | x in q'
      ensures q'[x] == 1 && x < |nodes| && Key(nodes[x].board, x) in keys' && nodes[x].board != nodes[top].board
    {
      assert x != top;
      assert Key(nodes[x].board, x) in keys;
      if nodes[x].board == nodes[top].board {
        assert Twins(Key(nodes[x].board, x), kt);
      }
    }
    forall k | k in keys'
      ensures keys'[k] == 1 && k.index in q' && k.index < |nodes| && nodes[k.index].board == k.board
    {
      assert k != kt;
    }
  }

  /** Fewer queued nodes keep the expanded list and the parent links as they were. */
  lemma Fewer(nodes: seq<Node>, q: multiset<nat>, q': multiset<nat>, closed: multiset<Board>)
    requires Closed(nodes, q, closed) && Leaves(nodes, q) && q' <= q
    ensures Closed(nodes, q', closed) && Leaves(nodes, q')
  {
  }

  /**
   * Taking the top node off the queue and its key out of `queueLookup` leaves it ready to
   * expand: its state is neither queued nor expanded.
   */
  lemma PopKeeps(nodes: seq<Node>, rank: seq<nat>, root: Board, goal: Board, manhattan: bool,
                 q: multiset<nat>, keys: multiset<Key>, closed: multiset<Board>, top: nat)
    requires Searching(nodes, rank, root, goal, manhattan, q, keys, closed) && top in q
    ensures Expanding(nodes, rank, root, goal, manhattan, q - multiset{top},
                      keys - multiset{Key(nodes[top].board, top)}, closed, top)
  {
    LookedPop(nodes, q, keys, top);
    Fewer(nodes, q, q - multiset{top}, closed);
  }

  /**
   * A queued node with the state of a new child of `current` that has the smaller `f` takes
   * the child's scores and parent; what A* keeps still holds.
   */
  lemma ImproveKeeps(nodes: seq<Node>, rank: seq<nat>, root: Board, goal: Board, manhattan: bool,
                     q: multiset<nat>, keys: multiset<Key>, closed: multiset<Board>, current: nat, newPos: nat, j: nat)
    requires Expanding(nodes, rank, root, goal, manhattan, q, keys, closed, current)
    requires newPos < Cells && Adjacent(nodes[current].board.emptyPos, newPos)
    requires j in q && nodes[j].board == Child(nodes, current, newPos, goal, manhattan).board
    requires nodes[j].f > Child(nodes, current, newPos, goal, manhattan).f
    ensures Expanding(Improve(nodes, j, Child(nodes, current, newPos, goal, manhattan)), rank[j := rank[current] + 1],
                      root, goal, manhattan, q, keys, closed, current)
  {
    var c := Child(nodes, current, newPos, goal, manhattan);
    var n := nodes[j].(f := c.f, g := c.g, next := c.next);
    var nodes', rank' := nodes[j := n], rank[j := rank[current] + 1];
    assert j < |nodes| && j != current && j != 0;
    forall i | 0 < i < |nodes|
      ensures nodes[i].next.value != j
    {
    }
    RelinkTree(nodes, rank, root, j, current, n);
    ChildScored(nodes, current, newPos, goal, manhattan);
    RelinkScored(nodes, rank, goal, manhattan, j, current, n);
    assert Improve(nodes, j, c) == nodes';
    forall k | k in keys
      ensures nodes'[k.index].board == k.board
    {
    }
  }

  /** A new node with a state no key has joins the queue with its key. */
  lemma LookedPush(nodes: seq<Node>, q: multiset<nat>, keys: multiset<Key>, c: Node)
    requires Looked(nodes, q, keys) && forall k :: k in keys ==> k.board != c.board
    ensures Looked(nodes + [c], q + multiset{|nodes|}, keys + multiset{Key(c.board, |nodes|)})
  {
    var nodes', q', keys' := nodes + [c], q + multiset{|nodes|}, keys + multiset{Key(c.board, |nodes|)};
    assert |nodes| !in q;
    forall x | x in q'
      ensures q'[x] == 1 && x < |nodes'| && Key(nodes'[x].board, x) in keys'
    {
      if x != |nodes| {
        assert Key(nodes[x].board, x) in keys;
      }
    }
    forall k | k in keys'
      ensures keys'[k] == 1 && k.index in q' && k.index < |nodes'| && nodes'[k.index].board == k.board
    {
      if k != Key(c.board, |nodes|) {
        assert k in keys;
      }
    }
  }

  /** A new child of `current`, a node that is not queued, is no node's parent and is queued. */
  lemma LeavesPush(nodes: seq<Node>, rank: seq<nat>, q: multiset<nat>, current: nat, c: Node)
    requires Linked(nodes, rank) && Leaves(nodes, q) && current < |nodes| && current !in q && c.next == Some(current)
    requires forall x :: x in q ==> x < |nodes|
    ensures Leaves(nodes + [c], q + multiset{|nodes|})
  {
    var nodes', q' := nodes + [c], q + multiset{|nodes|};
    forall i | 0 <= i < |nodes'| && nodes'[i].next.Some?
      ensures nodes'[i].next.value !in q'
    {
      if 0 < i < |nodes| {
        assert nodes[i].next.value < |nodes|;
      }
    }
  }

  /** A new child of `current` keeps the tree a scored tree of fitted states. */
  lemma TreePush(nodes: seq<Node>, rank: seq<nat>, root: Board, goal: Board, manhattan: bool, current: nat, newPos: nat)
    requires Tree(nodes, rank, root) && Scored(nodes, rank, goal, manhattan) && Fitted(nodes, goal)
    requires current < |nodes| && newPos < Cells && Adjacent(nodes[current].board.emptyPos, newPos)
    ensures var nodes', rank' := nodes + [Child(nodes, current, newPos, goal, manhattan)], rank + [rank[current] + 1];
      Tree(nodes', rank', root) && Scored(nodes', rank', goal, manhattan) && Fitted(nodes', goal)
  {
    var c := Child(nodes, current, newPos, goal, manhattan);
    GrowTree(nodes, rank, root, current, c);
    ChildScored(nodes, current, newPos, goal, manhattan);
    GrowScored(nodes, rank, goal, manhattan, current, c);
    MoveFits(nodes[current].board, goal, newPos);
  }

  /**
   * A new child of `current` whose state is neither expanded nor queued joins the tree, the
   * queue and `queueLookup`; what A* keeps still holds.
   */
  lemma EnqueueKeeps(nodes: seq<Node>, rank: seq<nat>, root: Board, goal: Board, manhattan: bool,
                     q: multiset<nat>, keys: multiset<Key>, closed: multiset<Board>, current: nat, newPos: nat)
    requires Expanding(nodes, rank, root, goal, manhattan, q, keys, closed, current)
    requires newPos < Cells && Adjacent(nodes[current].board.emptyPos, newPos)
    requires Child(nodes, current, newPos, goal, manhattan).board !in closed
    requires forall k :: k in keys ==> k.board != Child(nodes, current, newPos, goal, manhattan).board
    ensures var c := Child(nodes, current, newPos, goal, manhattan);
      Expanding(nodes + [c], rank + [rank[current] + 1], root, goal, manhattan,
                q + multiset{|nodes|}, keys + multiset{Key(c.board, |nodes|)}, closed, current)
  {
    var c := Child(nodes, current, newPos, goal, manhattan);
    TreePush(nodes, rank, root, goal, manhattan, current, newPos);
    LookedPush(nodes, q, keys, c);
    LeavesPush(nodes, rank, q, current, c);
    assert c.board.emptyPos != nodes[current].board.emptyPos;
  }

  /** Entering the expanded node's state in the expanded list restores the loop's invariant. */
  lemma CloseKeeps(nodes: seq<Node>, rank: seq<nat>, root: Board, goal: Board, manhattan: bool,
                   q: multiset<nat>, keys: multiset<Key>, closed: multiset<Board>, current: nat)
    requires Expanding(nodes, rank, root, goal, manhattan, q, keys, closed, current)
    ensures Searching(nodes, rank, root, goal, manhattan, q, keys, closed + multiset{nodes[current].board})
  {
  }

  /**
   * What `expandAStarExpanded` does with the successor of node `current` whose blank moved
   * to `newPos` once the arena gave it a slot: a state already expanded is dropped and
   * counted as an attempted re-expansion; a state already queued is dropped and counted as a
   * deletion, after the queued node takes the new path if that path has the smaller `f`;
   * any other state is queued as a new node with its key in `queueLookup`.  The ranks follow
   * the parents.
   */
  ghost predicate Handled(nodes: seq<Node>, rank: seq<nat>, q: multiset<nat>, keys: multiset<Key>, closed: multiset<Board>,
                          current: nat, newPos: nat, goal: Board, manhattan: bool,
                          nodes': seq<Node>, rank': seq<nat>, q': multiset<nat>, keys': multiset<Key>,
                          deleted: int, reExpanded: int)
    requires current < |nodes| == |rank| && Proper(nodes[current].board) && newPos < Cells && |goal.tiles| == Cells
  {
    var c := Child(nodes, current, newPos, goal, manhattan);
    if c.board in closed then
      nodes' == nodes && rank' == rank && q' == q && keys' == keys && deleted == 0 && reExpanded == 1
    else
      Merged(nodes, rank, q, keys, current, c, nodes', rank', q', keys', deleted) && reExpanded == 0
  }

  /**
   * The part of `expandAStarExpanded` that merges a scored successor `c` of node `current`
   * into the queue: when a key in `queueLookup` has `c`'s state, the queue and `queueLookup`
   * stay as they are, the successor counts as a deletion, and the node that key names takes
   * `c`'s path when `c`'s `f` is smaller; otherwise `c` becomes a new queued node with its
   * key.
   */
  ghost predicate Merged(nodes: seq<Node>, rank: seq<nat>, q: multiset<nat>, keys: multiset<Key>, current: nat, c: Node,
                         nodes': seq<Node>, rank': seq<nat>, q': multiset<nat>, keys': multiset<Key>, deleted: int)
    requires current < |nodes| == |rank|
  {
    if exists e :: e in keys && e.board == c.board then
      q' == q && keys' == keys && deleted == 1 &&
      exists e :: e in keys && e.board == c.board && e.index < |nodes| &&
        nodes' == Improve(nodes, e.index, c) &&
        rank' == if nodes[e.index].f > c.f then rank[e.index := rank[current] + 1] else rank
    else
      nodes' == nodes + [c] && rank' == rank + [rank[current] + 1] &&
      q' == q + multiset{|nodes|} && keys' == keys + multiset{Key(c.board, |nodes|)} && deleted == 0
  }

  /**
   * Whatever `expandAStarExpanded` does with a successor keeps what A* keeps; every
   * successor is counted once, as a re-expansion, as a deletion or as a new queued node; and
   * the node being expanded stays as it was.
   */
  lemma HandledKeeps(nodes: seq<Node>, rank: seq<nat>, root: Board, goal: Board, manhattan: bool,
                     q: multiset<nat>, keys: multiset<Key>, closed: multiset<Board>, current: nat, newPos: nat,
                     nodes': seq<Node>, rank': seq<nat>, q': multiset<nat>, keys': multiset<Key>,
                     deleted: int, reExpanded: int)
    requires Expanding(nodes, rank, root, goal, manhattan, q, keys, closed, current)
    requires newPos < Cells && Adjacent(nodes[current].board.emptyPos, newPos)
    requires Handled(nodes, rank, q, keys, closed, current, newPos, goal, manhattan, nodes', rank', q', keys', deleted, reExpanded)
    ensures Expanding(nodes', rank', root, goal, manhattan, q', keys', closed, current)
    ensures deleted + reExpanded + (|nodes'| - |nodes|) == 1 && |q'| - |q| == |nodes'| - |nodes|
    ensures |nodes| <= |nodes'| && nodes'[current] == nodes[current]
  {
    var c := Child(nodes, current, newPos, goal, manhattan);
    if c.board in closed {
    } else if exists e :: e in keys && e.board == c.board {
      var e :| e in keys && e.board == c.board && e.index < |nodes| && nodes' == Improve(nodes, e.index, c) &&
        rank' == if nodes[e.index].f > c.f then rank[e.index := rank[current] + 1] else rank;
      if nodes[e.index].f > c.f {
        ImproveKeeps(nodes, rank, root, goal, manhattan, q, keys, closed, current, newPos, e.index);
      }
    } else {
      EnqueueKeeps(nodes, rank, root, goal, manhattan, q, keys, closed, current, newPos);
    }
  }

  /**
   * What scoring and merging one successor of node `current` relies on: the node is a
   * well-formed state over the goal's tiles with scores below 2^32, and the queue and
   * `queueLookup` hold nodes.
   */
  ghost predicate Poised(nodes: seq<Node>, rank: seq<nat>, q: multiset<nat>, keys: multiset<Key>, current: nat, goal: Board)
  {
    current < |nodes| == |rank| && Proper(nodes[current].board) && GoalFor(goal, nodes[current].board) &&
    nodes[current].g < U32 && nodes[current].f < U32 && Indexed(nodes, q, keys)
  }

  /** Every queued index is a node, and every key in `queueLookup` names a queued node. */
  ghost predicate Indexed(nodes: seq<Node>, q: multiset<nat>, keys: multiset<Key>)
  {
    (forall x :: x in q ==> x < |nodes|) && (forall k :: k in keys ==> k.index in q)
  }

  /** A node being expanded is poised for each of its successors. */
  lemma ExpandingPoised(nodes: seq<Node>, rank: seq<nat>, root: Board, goal: Board, manhattan: bool,
                        q: multiset<nat>, keys: multiset<Key>, closed: multiset<Board>, current: nat)
    requires Expanding(nodes, rank, root, goal, manhattan, q, keys, closed, current)
    ensures Poised(nodes, rank, q, keys, current, goal)
  {
  }

  /** The containers `aStar_ExpandedList` uses are distinct objects. */
  ghost predicate Separate(queue: PriorityQueue, lookup: HashMap<Key>, expanded: HashMap<Board>, allocator: StackSlabAllocator)
    reads lookup, expanded
  {
    queue !in lookup.Repr && queue !in expanded.Repr && allocator !in lookup.Repr && allocator !in expanded.Repr &&
    lookup.Repr !! expanded.Repr
  }

  /**
   * The containers are valid, the queue ordered by the nodes' `f`, the two hash sets with
   * the hashers and comparisons `aStar_ExpandedList` names.
   */
  ghost predicate Ready(nodes: seq<Node>, queue: PriorityQueue, lookup: HashMap<Key>, expanded: HashMap<Board>,
                        allocator: StackSlabAllocator)
    reads queue, lookup, lookup.Repr, expanded, expanded.Repr, allocator
  {
    Separate(queue, lookup, expanded, allocator) && queue.Valid(Fs(nodes)) &&
    lookup.Valid() && lookup.hash == KeyHash && lookup.equal == SameKey &&
    expanded.Valid() && expanded.hash == Hash31 && expanded.equal == SameState && allocator.Valid()
  }
}
