/**
 * The two heuristics of A* (`calculateHeuristic`), computed incrementally from the
 * parent's scores and the move taken.
 *
 * The node field `g` holds the heuristic measured from the root's heuristic (the root
 * starts at `g == f == 0`), and `f - g` is the depth; both are `unsigned int`, so all
 * of it is taken modulo 2^32.
 */
module Heuristics {
  import opened Common
  import opened Puzzle
  import opened Paths

  /** `unsigned int` arithmetic wraps modulo 2^32. */
  const U32: nat := 0x1_0000_0000

  /** Tile equality, as the goal lookup compares tiles. */
  function Same(a: int, b: int): bool
  {
    a == b
  }

  /** The goal cell of tile `t`: the first goal cell that holds it. */
  function GoalCell(goal: Board, t: int): nat
  {
    FirstIndex(goal.tiles, t, Same)
  }

  /** The `for (;;)` loop of the Manhattan update: scans the goal for the moved tile. */
  method FindGoalCell(goal: Board, t: int) returns (index: nat)
    requires t in goal.tiles
    ensures index == GoalCell(goal, t)
    ensures index < |goal.tiles| && goal.tiles[index] == t
  {
    index := 0;
    while goal.tiles[index] != t
      invariant index < |goal.tiles| && t in goal.tiles[index..]
      invariant forall j :: 0 <= j < index ==> goal.tiles[j] != t
      decreases |goal.tiles| - index
    {
      assert goal.tiles[index..] == [goal.tiles[index]] + goal.tiles[index + 1..];
      index := index + 1;
    }
    FirstIndexIsFirst(goal.tiles, t, Same, index);
  }

  /**
   * What the tile at cell `p` adds to the heuristic: its grid distance from its goal cell
   * (Manhattan), or 1 when it is not on its goal cell (misplaced tiles); the blank adds 0.
   */
  function Cost(b: Board, goal: Board, manhattan: bool, p: nat): nat
    requires p < |b.tiles| && p < |goal.tiles|
  {
    var t := b.tiles[p];
    if t == 0 then 0
    else if manhattan then GridDistance(GoalCell(goal, t), p)
    else if t != goal.tiles[p] then 1 else 0
  }

  function Costs(b: Board, goal: Board, manhattan: bool): (r: seq<int>)
    requires |b.tiles| == Cells && |goal.tiles| == Cells
    ensures |r| == Cells
    ensures forall p :: 0 <= p < Cells ==> r[p] == Cost(b, goal, manhattan, p)
  {
    seq(Cells, p requires 0 <= p < Cells => Cost(b, goal, manhattan, p))
  }

  function Total(s: seq<int>): int
  {
    if s == [] then 0 else Total(s[..|s| - 1]) + s[|s| - 1]
  }

  /** The heuristic of a state: the sum of the costs of its tiles. */
  function Heuristic(b: Board, goal: Board, manhattan: bool): int
    requires |b.tiles| == Cells && |goal.tiles| == Cells
  {
    Total(Costs(b, goal, manhattan))
  }

  /** Changing one element of a sequence changes its total by the difference. */
  lemma {:induction false} TotalUpdate(s: seq<int>, i: nat, v: int)
    requires i < |s|
    ensures Total(s[i := v]) == Total(s) - s[i] + v
  {
    var n := |s| - 1;
    if i < n {
      assert s[i := v][..n] == s[..n][i := v];
      TotalUpdate(s[..n], i, v);
    } else {
      assert s[i := v][..n] == s[..n];
    }
  }

  /** Every tile has a goal cell and no two goal cells hold the same tile. */
  ghost predicate GoalFor(goal: Board, b: Board)
  {
    |goal.tiles| == Cells &&
    (forall p :: 0 <= p < |b.tiles| ==> b.tiles[p] in goal.tiles) &&
    (forall p, q :: 0 <= p < q < Cells ==> goal.tiles[p] != goal.tiles[q])
  }

  /**
   * Moving the blank of a well-formed state changes the heuristic only through the moved
   * tile: by its cost at the old blank cell minus its cost at the cell it left.
   */
  lemma MoveHeuristic(b: Board, goal: Board, manhattan: bool, n: nat)
    requires Proper(b) && |goal.tiles| == Cells && n < Cells && n != b.emptyPos
    ensures Heuristic(Move(b, n), goal, manhattan) ==
      Heuristic(b, goal, manhattan) + Cost(Move(b, n), goal, manhattan, b.emptyPos) - Cost(b, goal, manhattan, n)
  {
    var c := Move(b, n);
    var e := b.emptyPos;
    MoveProper(b, n);
    var before := Costs(b, goal, manhattan);
    var mid := before[e := Cost(c, goal, manhattan, e)];
    assert Costs(c, goal, manhattan) == mid[n := 0];
    TotalUpdate(before, e, Cost(c, goal, manhattan, e));
    TotalUpdate(mid, n, 0);
  }

  /** Two cells that share a side are at distances from any third cell that differ by one. */
  lemma AdjacentDistance(g: nat, a: nat, b: nat)
    requires Adjacent(a, b)
    ensures GridDistance(g, a) - GridDistance(g, b) in {-1, 1}
  {
  }

  /**
   * A move changes the Manhattan heuristic by exactly one and the misplaced-tiles heuristic
   * by at most one.
   */
  lemma HeuristicStep(b: Board, goal: Board, manhattan: bool, n: nat)
    requires Proper(b) && GoalFor(goal, b) && n < Cells && Adjacent(b.emptyPos, n)
    ensures var d := Heuristic(Move(b, n), goal, manhattan) - Heuristic(b, goal, manhattan);
      if manhattan then d in {-1, 1} else -1 <= d <= 1
  {
    assert n != b.emptyPos;
    MoveHeuristic(b, goal, manhattan, n);
    if manhattan {
      AdjacentDistance(GoalCell(goal, b.tiles[n]), b.emptyPos, n);
    }
  }

  /**
   * `calculateHeuristic<true>`: the Manhattan update.  `node` is the new state (the moved
   * tile now at `oldPos`), `g` and `f` the parent's scores.  The new `g` is the parent's
   * plus the change of the Manhattan heuristic, and `f - g` grows by one.
   */
  method ManhattanUpdate(node: Board, g: nat, f: nat, goal: Board, oldPos: nat, newPos: nat, ghost parent: Board)
      returns (g2: nat, f2: nat)
    requires Proper(parent) && GoalFor(goal, parent) && parent.emptyPos == oldPos
    requires newPos < Cells && newPos != oldPos && node == Move(parent, newPos)
    ensures g2 < U32 && f2 < U32
    ensures g2 == (g + Heuristic(node, goal, true) - Heuristic(parent, goal, true)) % U32
    ensures (f2 - g2) % U32 == (f - g + 1) % U32
  {
    MoveProper(parent, newPos);
    var index := FindGoalCell(goal, node.tiles[oldPos]);
    var x1 := index % Width;
    var y1 := index / Width;
    var x2 := oldPos % Width;
    var y2 := oldPos / Width;
    var dx := x1 - x2;
    if dx < 0 {
      dx := -dx;
    }
    var dy := y1 - y2;
    if dy < 0 {
      dy := -dy;
    }
    var distance := dx + dy;
    assert distance == GridDistance(index, oldPos);
    var x3 := newPos % Width;
    var y3 := newPos / Width;
    var dx2 := x1 - x3;
    if dx2 < 0 {
      dx2 := -dx2;
    }
    var dy2 := y1 - y3;
    if dy2 < 0 {
      dy2 := -dy2;
    }
    var distance2 := dx2 + dy2;
    assert distance2 == GridDistance(index, newPos);
    MoveHeuristic(parent, goal, true, newPos);
    g2 := (g + distance - distance2) % U32;
    f2 := (f - g + 1 + g2) % U32;
    SubMod(f - g + 1 + g2, g2);
  }

  /**
   * `calculateHeuristic<false>`: the misplaced-tiles update.  The moved tile adds one when
   * it left its goal cell and takes one away when it reached it.
   */
  method MisplacedUpdate(node: Board, g: nat, f: nat, goal: Board, oldPos: nat, newPos: nat, ghost parent: Board)
      returns (g2: nat, f2: nat)
    requires Proper(parent) && GoalFor(goal, parent) && parent.emptyPos == oldPos
    requires newPos < Cells && newPos != oldPos && node == Move(parent, newPos)
    requires g < U32
    ensures g2 < U32 && f2 < U32
    ensures g2 == (g + Heuristic(node, goal, false) - Heuristic(parent, goal, false)) % U32
    ensures (f2 - g2) % U32 == (f - g + 1) % U32
  {
    MoveProper(parent, newPos);
    g2 := g;
    if node.tiles[oldPos] == goal.tiles[newPos] {
      g2 := (g2 + 1) % U32;
    } else if node.tiles[oldPos] == goal.tiles[oldPos] {
      g2 := (g2 - 1) % U32;
    }
    MoveHeuristic(parent, goal, false, newPos);
    f2 := (f - g + 1 + g2) % U32;
    SubMod(f - g + 1 + g2, g2);
  }

  /** Reducing before subtracting does not change the residue. */
  lemma SubMod(a: int, b: int)
    ensures (a % U32 - b) % U32 == (a - b) % U32
  {
    var q := a / U32;
    assert a == q * U32 + a % U32;
    ShiftMod32(a % U32 - b, q);
  }

  lemma ShiftMod32(a: int, k: int)
    ensures (a + k * U32) % U32 == a % U32
  {
  }

  /** Node `i`'s scores are its parent's updated for its move, as `calculateHeuristic` leaves them. */
  ghost predicate ScoredAt(nodes: seq<Node>, rank: seq<nat>, goal: Board, manhattan: bool, i: nat)
    requires Linked(nodes, rank) && 0 < i < |nodes|
    requires |nodes[i].board.tiles| == Cells && |goal.tiles| == Cells
    requires |nodes[nodes[i].next.value].board.tiles| == Cells
  {
    var p := nodes[nodes[i].next.value];
    nodes[i].g == (p.g + Heuristic(nodes[i].board, goal, manhattan) - Heuristic(p.board, goal, manhattan)) % U32 &&
    (nodes[i].f - nodes[i].g) % U32 == (p.f - p.g + 1) % U32
  }

  /**
   * The scores A* keeps: every score is an `unsigned int`, the root has `g == f == 0`,
   * and every other node is scored from its parent.
   */
  ghost predicate Scored(nodes: seq<Node>, rank: seq<nat>, goal: Board, manhattan: bool)
    requires Linked(nodes, rank)
  {
    |goal.tiles| == Cells &&
    (forall i :: 0 <= i < |nodes| ==> |nodes[i].board.tiles| == Cells && nodes[i].g < U32 && nodes[i].f < U32) &&
    (|nodes| > 0 ==> nodes[0].g == 0 && nodes[0].f == 0) &&
    forall i :: 0 < i < |nodes| ==> ScoredAt(nodes, rank, goal, manhattan, i)
  }

  /**
   * In a scored tree `g` is the heuristic minus the root's heuristic and `f` is the depth
   * plus `g`, both modulo 2^32.
   */
  lemma {:induction false} ScoresTrackDepth(nodes: seq<Node>, rank: seq<nat>, goal: Board, manhattan: bool, k: nat)
    requires Linked(nodes, rank) && Scored(nodes, rank, goal, manhattan) && k < |nodes|
    ensures nodes[k].g == (Heuristic(nodes[k].board, goal, manhattan) - Heuristic(nodes[0].board, goal, manhattan)) % U32
    ensures nodes[k].f ==
      (Depth(nodes, rank, k) + Heuristic(nodes[k].board, goal, manhattan) - Heuristic(nodes[0].board, goal, manhattan)) % U32
    decreases rank[k]
  {
    if k > 0 {
      var p := nodes[k].next.value;
      ScoresTrackDepth(nodes, rank, goal, manhattan, p);
      assert ScoredAt(nodes, rank, goal, manhattan, k);
      var h0 := Heuristic(nodes[0].board, goal, manhattan);
      var hp := Heuristic(nodes[p].board, goal, manhattan);
      var hk := Heuristic(nodes[k].board, goal, manhattan);
      AddMod(hp - h0, hk - hp);
      var dp := Depth(nodes, rank, p);
      SubBoth(dp + hp - h0, hp - h0);
      assert (nodes[p].f - nodes[p].g) % U32 == dp % U32;
      AddMod(nodes[p].f - nodes[p].g, 1);
      AddMod(dp, 1);
      Recover(nodes[k].f, nodes[k].g, dp + 1, hk - h0);
    }
  }

  /** Adding to a reduced value gives the residue of the sum. */
  lemma AddMod(a: int, b: int)
    ensures (a % U32 + b) % U32 == (a + b) % U32
  {
    var q := a / U32;
    assert a == q * U32 + a % U32;
    ShiftMod32(a % U32 + b, q);
  }

  /** The difference of two reduced values has the residue of the difference. */
  lemma SubBoth(a: int, b: int)
    ensures (a % U32 - b % U32) % U32 == (a - b) % U32
  {
    SubMod(a, b % U32);
    var q := b / U32;
    assert b == q * U32 + b % U32;
    ShiftMod32(a - b, q);
  }

  /** A value in range whose difference from `g` has the residue of `d` is `d + e` reduced. */
  lemma Recover(f: int, g: int, d: int, e: int)
    requires 0 <= f < U32 && g == e % U32 && (f - g) % U32 == d % U32
    ensures f == (d + e) % U32
  {
    SubBoth(f, e);
    AddBack(f, e, d);
  }

  lemma AddBack(f: int, e: int, d: int)
    requires 0 <= f < U32 && (f - e) % U32 == d % U32
    ensures f == (d + e) % U32
  {
    AddMod(f - e, e);
    AddMod(d, e);
  }

  /**
   * Along a path of moves the heuristic falls by at most one per move, so the exact value
   * behind `f`, the depth plus the heuristic minus the root's, is never negative.
   */
  lemma {:induction false} DepthCoversDrop(nodes: seq<Node>, rank: seq<nat>, goal: Board, manhattan: bool, k: nat)
    requires k < |nodes| && |goal.tiles| == Cells
    requires forall i :: 0 <= i < |nodes| ==> |nodes[i].board.tiles| == Cells && Proper(nodes[i].board) && GoalFor(goal, nodes[i].board)
    requires Linked(nodes, rank) && Derived(nodes, rank)
    ensures Depth(nodes, rank, k) + Heuristic(nodes[k].board, goal, manhattan) - Heuristic(nodes[0].board, goal, manhattan) >= 0
    decreases rank[k]
  {
    if k > 0 {
      var p := nodes[k].next.value;
      DepthCoversDrop(nodes, rank, goal, manhattan, p);
      assert MovedFrom(nodes, rank, k);
      HeuristicStep(nodes[p].board, goal, manhattan, nodes[k].board.emptyPos);
    }
  }
}
