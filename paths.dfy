/**
 * Search nodes and the conversion of a chain of nodes into a move string (`packPath`).
 *
 * A `ListNode` lives in the node arena; here the nodes are a sequence and a node's
 * `next` pointer (its parent on the path back to the initial state) is the index of
 * the parent, or `None` for the root.
 */
module Paths {
  import opened Common
  import opened Puzzle

  /**
   * `ListNode` over the richest state type the drivers use: the board, the depth of
   * `MapWithDepth`, the `g` and `f` of `MapWithHuristic`.  A driver whose state type
   * lacks a field leaves it 0.
   */
  datatype Node = Node(board: Board, depth: nat, g: nat, f: nat, next: Option<nat>)

  /**
   * Node 0 is the root and every other node has a parent whose rank is smaller, so the
   * chain of `next` links from any node ends at the root.  BFS and iterative deepening
   * add a node only after its parent, but A* can later re-link a queued node to a parent
   * created after it; the rank (for instance the depth) orders both.
   */
  ghost predicate Linked(nodes: seq<Node>, rank: seq<nat>)
  {
    |rank| == |nodes| &&
    (|nodes| > 0 ==> nodes[0].next == None) &&
    forall i :: 0 < i < |nodes| ==> nodes[i].next.Some? && nodes[i].next.value < |nodes| && rank[nodes[i].next.value] < rank[i]
  }

  /** Node `i` holds its parent's state with the blank moved to a side neighbour. */
  ghost predicate MovedFrom(nodes: seq<Node>, rank: seq<nat>, i: nat)
    requires Linked(nodes, rank) && 0 < i < |nodes|
  {
    var b := nodes[nodes[i].next.value].board;
    |b.tiles| == Cells && b.emptyPos < Cells && nodes[i].board.emptyPos < Cells && Adjacent(b.emptyPos, nodes[i].board.emptyPos) &&
    nodes[i].board == Move(b, nodes[i].board.emptyPos)
  }

  /** Every node below the root is its parent's state after one move of the blank. */
  ghost predicate Derived(nodes: seq<Node>, rank: seq<nat>)
    requires Linked(nodes, rank)
  {
    forall i :: 0 < i < |nodes| ==> MovedFrom(nodes, rank, i)
  }

  /** Every state in the tree has nine tiles and its blank inside the grid. */
  ghost predicate Shaped(nodes: seq<Node>)
  {
    forall i :: 0 <= i < |nodes| ==> |nodes[i].board.tiles| == Cells && nodes[i].board.emptyPos < Cells
  }

  /** The nodes a search has built: a tree over the state `root`, each node one move from its parent. */
  ghost predicate Tree(nodes: seq<Node>, rank: seq<nat>, root: Board)
  {
    |nodes| > 0 && nodes[0].board == root && Shaped(nodes) && Linked(nodes, rank) && Derived(nodes, rank)
  }

  /**
   * The node an `expandPath*` helper adds: the blank of node `p` moved to a cell beside it,
   * linked to `p`.  The tree stays a tree, with the new node ranked just after its parent.
   */
  lemma GrowTree(nodes: seq<Node>, rank: seq<nat>, root: Board, p: nat, n: Node)
    requires Tree(nodes, rank, root) && p < |nodes|
    requires n.next == Some(p) && n.board.emptyPos < Cells && Adjacent(nodes[p].board.emptyPos, n.board.emptyPos)
    requires n.board == Move(nodes[p].board, n.board.emptyPos)
    ensures Tree(nodes + [n], rank + [rank[p] + 1], root)
  {
    var nodes', rank' := nodes + [n], rank + [rank[p] + 1];
    assert Linked(nodes', rank');
    forall i | 0 < i < |nodes'|
      ensures MovedFrom(nodes', rank', i)
    {
      if i < |nodes| {
        assert MovedFrom(nodes, rank, i);
      }
    }
  }

  /**
   * A* re-links a queued node `j` that no node has as its parent to a new parent `p` one
   * move away; the tree stays a tree, with `j` ranked just after `p`.
   */
  lemma RelinkTree(nodes: seq<Node>, rank: seq<nat>, root: Board, j: nat, p: nat, n: Node)
    requires Tree(nodes, rank, root) && 0 < j < |nodes| && p < |nodes| && p != j
    requires forall i :: 0 < i < |nodes| ==> nodes[i].next.value != j
    requires n.board == nodes[j].board && n.next == Some(p) && Adjacent(nodes[p].board.emptyPos, n.board.emptyPos)
    requires n.board == Move(nodes[p].board, n.board.emptyPos)
    ensures Tree(nodes[j := n], rank[j := rank[p] + 1], root)
  {
    var nodes', rank' := nodes[j := n], rank[j := rank[p] + 1];
    assert Linked(nodes', rank') by {
      forall i | 0 < i < |nodes'|
        ensures nodes'[i].next.Some? && nodes'[i].next.value < |nodes'| && rank'[nodes'[i].next.value] < rank'[i]
      {
        if i != j {
          assert nodes[i].next.value != j;
        }
      }
    }
    forall i | 0 < i < |nodes'|
      ensures MovedFrom(nodes', rank', i)
    {
      if i != j {
        assert MovedFrom(nodes, rank, i);
        assert nodes[i].next.value != j;
      }
    }
  }

  /**
   * The node the `expandPath*` helpers construct: a copy of the parent's data linked to the
   * parent, whose blank index becomes `newPos`, whose old blank cell receives the tile from
   * `newPos`, and which gets 0 at `newPos`: the parent's state after one move.
   */
  method Successor(nodes: seq<Node>, parent: nat, newPos: nat, oldPos: nat) returns (n: Node)
    requires parent < |nodes| && |nodes[parent].board.tiles| == Cells
    requires nodes[parent].board.emptyPos == oldPos < Cells && newPos < Cells
    ensures n == nodes[parent].(board := Move(nodes[parent].board, newPos), next := Some(parent))
    ensures n.board.emptyPos == newPos && n.board.tiles[newPos] == 0
  {
    n := nodes[parent].(next := Some(parent));
    n := n.(board := n.board.(emptyPos := newPos));
    n := n.(board := n.board.(tiles := n.board.tiles[oldPos := n.board.tiles[n.board.emptyPos]]));
    n := n.(board := n.board.(tiles := n.board.tiles[n.board.emptyPos := 0]));
  }

  /** The successors of node `p` for the blank moved to each of `moves`, in that order. */
  function ChildrenAt(nodes: seq<Node>, p: nat, moves: seq<nat>): (r: seq<Node>)
    requires p < |nodes| && |nodes[p].board.tiles| == Cells && nodes[p].board.emptyPos < Cells
    requires forall k :: 0 <= k < |moves| ==> moves[k] < Cells
    ensures |r| == |moves|
    ensures forall k :: 0 <= k < |moves| ==> r[k].board == Move(nodes[p].board, moves[k]) && r[k].next == Some(p)
  {
    seq(|moves|, k requires 0 <= k < |moves| => nodes[p].(board := Move(nodes[p].board, moves[k]), next := Some(p)))
  }

  /** The successors of node `p` in the order the drivers generate them: up, right, down, left. */
  function Children(nodes: seq<Node>, p: nat): (r: seq<Node>)
    requires p < |nodes| && |nodes[p].board.tiles| == Cells && nodes[p].board.emptyPos < Cells
    ensures 2 <= |r| <= 4
  {
    NeighboursAdjacent(nodes[p].board.emptyPos, 0);
    ChildrenAt(nodes, p, Neighbours(nodes[p].board.emptyPos))
  }

  /** The number of links from node `k` back to the root. */
  function Depth(nodes: seq<Node>, rank: seq<nat>, k: nat): nat
    requires Linked(nodes, rank) && k < |nodes|
    decreases rank[k]
  {
    if k == 0 then 0 else 1 + Depth(nodes, rank, nodes[k].next.value)
  }

  /**
   * The letter `packPath` writes for a move of the blank from `oldPos` to `newPos`: the
   * difference is taken in `size_t`, so a move left is the largest `size_t`.
   */
  function Letter(oldPos: nat, newPos: nat): (r: char)
    ensures r in "RDLU"
  {
    var difference := (newPos - oldPos) % Word;
    if difference == 1 then 'R'
    else if difference == Width then 'D'
    else if difference == Word - 1 then 'L'
    else 'U'
  }

  /** The moves from the root to node `k`, first move first. */
  function Moves(nodes: seq<Node>, rank: seq<nat>, k: nat): (r: string)
    requires Linked(nodes, rank) && k < |nodes|
    ensures |r| == Depth(nodes, rank, k)
    decreases rank[k]
  {
    if k == 0 then []
    else
      var p := nodes[k].next.value;
      Moves(nodes, rank, p) + [Letter(nodes[p].board.emptyPos, nodes[k].board.emptyPos)]
  }

  /**
   * `packPath`: counts the links from `last` to the root, then walks the chain again
   * writing one letter per link from the back of the string to the front.
   */
  method PackPath(nodes: seq<Node>, last: nat, ghost rank: seq<nat>) returns (moves: string)
    requires Linked(nodes, rank) && last < |nodes|
    ensures moves == Moves(nodes, rank, last)
  {
    var length := Length(nodes, last, rank);
    moves := seq(length, _ => 'U');
    var finalPath: nat := last;
    var i: int := length;
    while i != 0
      invariant 0 <= i <= length == |moves| && finalPath < |nodes|
      invariant Depth(nodes, rank, finalPath) == i
      invariant Moves(nodes, rank, last) == Moves(nodes, rank, finalPath) + moves[i..]
    {
      i := i - 1;
      var newEmptyPos := nodes[finalPath].board.emptyPos;
      finalPath := nodes[finalPath].next.value;
      var oldEmptyPos := nodes[finalPath].board.emptyPos;
      var letter := Letter(oldEmptyPos, newEmptyPos);
      assert moves[i := letter][i..] == [letter] + moves[i + 1..];
      moves := moves[i := letter];
    }
  }

  /** The first loop of `packPath`: the number of links from `last` to the root. */
  method Length(nodes: seq<Node>, last: nat, ghost rank: seq<nat>) returns (length: nat)
    requires Linked(nodes, rank) && last < |nodes|
    ensures length == Depth(nodes, rank, last)
  {
    length := 0;
    var current := nodes[last].next;
    while current != None
      invariant current.Some? ==> current.value < |nodes| && length + 1 + Depth(nodes, rank, current.value) == Depth(nodes, rank, last)
      invariant current == None ==> length == Depth(nodes, rank, last)
      decreases if current.Some? then rank[current.value] + 1 else 0
    {
      length := length + 1;
      current := nodes[current.value].next;
    }
  }

  /** Where the blank goes for a letter: right, down, left or up one cell. */
  function Target(pos: nat, letter: char): int
  {
    match letter
    case 'R' => pos + 1
    case 'D' => pos + Width
    case 'L' => pos - 1
    case _ => pos - Width
  }

  /** Plays a move string from a state; `None` once a move leaves the grid. */
  function Replay(b: Board, moves: string): Option<Board>
    decreases |moves|
  {
    if moves == [] then Some(b)
    else
      var before := Replay(b, moves[..|moves| - 1]);
      if before.None? then None
      else
        var s := before.value;
        var n := Target(s.emptyPos, moves[|moves| - 1]);
        if |s.tiles| == Cells && s.emptyPos < Cells && 0 <= n < Cells then Some(Move(s, n)) else None
  }

  /** The letter of a move between two cells that share a side leads back to the second cell. */
  lemma LetterTarget(oldPos: nat, newPos: nat)
    requires oldPos < Cells && newPos < Cells && Adjacent(oldPos, newPos)
    ensures Target(oldPos, Letter(oldPos, newPos)) == newPos
  {
  }

  /** Replaying the move string of a node from the root's state gives that node's state. */
  lemma {:induction false} ReplayMoves(nodes: seq<Node>, rank: seq<nat>, k: nat)
    requires Linked(nodes, rank) && Derived(nodes, rank) && k < |nodes|
    ensures Replay(nodes[0].board, Moves(nodes, rank, k)) == Some(nodes[k].board)
    decreases rank[k]
  {
    if k > 0 {
      var p := nodes[k].next.value;
      ReplayMoves(nodes, rank, p);
      assert MovedFrom(nodes, rank, k);
      var m := Moves(nodes, rank, k);
      assert m[..|m| - 1] == Moves(nodes, rank, p);
      LetterTarget(nodes[p].board.emptyPos, nodes[k].board.emptyPos);
    }
  }
}
