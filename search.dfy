/**
 * What the five search drivers share: how a search ends, the hash and equality functors
 * the drivers give their hash sets, and the states held by a sequence of nodes.
 */
module Searches {
  import opened Common
  import opened Puzzle
  import opened Paths
  import opened HashMaps

  /**
   * How a driver ends.  `Found` carries the move string `packPath` builds, `NoSolution` is
   * the empty string returned when the frontier runs dry, `OutOfMemory` is the `"OOM"`
   * string returned when memory runs out, and `Stopped` means the fuel bound was reached
   * (the program has no such bound).
   */
  datatype Outcome = Found(path: string) | NoSolution | OutOfMemory | Stopped

  /** `Hasher<Map_t, 10>`: the hash of the visited sets and of the queue lookup. */
  function Hash10(b: Board): nat
  {
    HashOf(b, 10)
  }

  /** `Hasher<Map_t>` with its default multiplier 31: the hash of the expanded set. */
  function Hash31(b: Board): nat
  {
    HashOf(b, 31)
  }

  /** `EqualityTester`: two states are equal when `Map::operator==` says so. */
  function SameState(a: Board, b: Board): bool
  {
    a == b
  }

  /** Both hashers agree on equal states, as a hash set needs. */
  lemma StateHashes()
    ensures Consistent(Hash10, SameState) && Consistent(Hash31, SameState)
  {
  }

  /** The states of a sequence of nodes, in order. */
  function States(nodes: seq<Node>): (r: seq<Board>)
    ensures |r| == |nodes|
    ensures forall i :: 0 <= i < |nodes| ==> r[i] == nodes[i].board
  {
    seq(|nodes|, i requires 0 <= i < |nodes| => nodes[i].board)
  }

  /** The node indices `lo`, `lo + 1`, ..., `hi - 1`. */
  function Span(lo: nat, hi: nat): (r: seq<nat>)
    requires lo <= hi
    ensures |r| == hi - lo
    ensures forall k :: 0 <= k < |r| ==> r[k] == lo + k
  {
    seq(hi - lo, k requires 0 <= k < hi - lo => lo + k)
  }

  /** One more index at the top of a span, after the indices queued before it. */
  lemma SpanGrow(before: seq<nat>, lo: nat, hi: nat)
    requires lo <= hi
    ensures Span(lo, hi + 1) == Span(lo, hi) + [hi]
    ensures before + Span(lo, hi + 1) == before + Span(lo, hi) + [hi]
  {
    assert Span(lo, hi + 1) == Span(lo, hi) + [hi];
  }

  /**
   * The goal test of every driver: node `current` is compared with the goal with
   * `Map::operator==`, and when they are equal `packPath` builds the node's move string,
   * which replays from the root's state to the goal.
   */
  method GoalTest(nodes: seq<Node>, ghost rank: seq<nat>, ghost root: Board, current: nat, goal: Board)
      returns (found: bool, path: string)
    requires Tree(nodes, rank, root) && current < |nodes| && |goal.tiles| == Cells
    ensures found <==> nodes[current].board == goal
    ensures found ==> path == Moves(nodes, rank, current) && Replay(root, path) == Some(goal)
  {
    found := Equals(nodes[current].board, goal);
    path := "";
    if found {
      ReplayMoves(nodes, rank, current);
      path := PackPath(nodes, current, rank);
    }
  }

  /** Nothing queued: an empty span. */
  lemma SpanEmpty(before: seq<nat>, lo: nat)
    ensures before + Span(lo, lo) == before
  {
    assert Span(lo, lo) == [];
  }

  /** Indices queued in two runs, one after the other, form one span. */
  lemma SpanJoin(before: seq<nat>, lo: nat, mid: nat, hi: nat)
    requires lo <= mid <= hi
    ensures before + Span(lo, mid) + Span(mid, hi) == before + Span(lo, hi)
  {
    assert Span(lo, mid) + Span(mid, hi) == Span(lo, hi);
  }

  /** After the front index is taken off, the rest and the new span all index nodes below `hi`. */
  lemma PopSpanBelow(front: seq<nat>, lo: nat, hi: nat)
    requires front != [] && lo <= hi
    requires forall k :: 0 <= k < |front| ==> front[k] < lo
    ensures forall k :: 0 <= k < |front[1..] + Span(lo, hi)| ==> (front[1..] + Span(lo, hi))[k] < hi
  {
    var rest := front[1..] + Span(lo, hi);
    forall k | 0 <= k < |rest|
      ensures rest[k] < hi
    {
      if k < |front| - 1 {
        assert rest[k] == front[k + 1];
      }
    }
  }

  /** No two nodes hold the same state. */
  ghost predicate Distinct(nodes: seq<Node>)
  {
    forall i, j :: 0 <= i < j < |nodes| ==> nodes[i].board != nodes[j].board
  }
}
