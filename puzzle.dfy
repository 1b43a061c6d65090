/**
 * The puzzle state: a 3 by 3 grid of tiles stored row by row, tile 0 standing for the
 * blank, together with the index of the blank (`Map`).  Also the operations on a single
 * state the searches use: reading a state string, equality, hashing and moving the blank.
 */
module Puzzle {
  const Width: nat := 3
  const Height: nat := 3
  const Cells: nat := 9
  /** `size_t` arithmetic wraps modulo 2^64. */
  const Word: nat := 0x1_0000_0000_0000_0000

  /** `Map`: the tiles row by row and the index of the blank. */
  datatype Board = Board(tiles: seq<int>, emptyPos: nat)

  /** The value-initialised `Map` the root node starts from: every tile and the blank index 0. */
  function Zero(): (r: Board)
    ensures |r.tiles| == Cells && r.emptyPos == 0
    ensures forall i :: 0 <= i < Cells ==> r.tiles[i] == 0
  {
    Board(seq(Cells, i => 0), 0)
  }

  /** The tile a character of a state string stands for: its distance from `'0'`. */
  function TileOf(c: char): (r: int)
    ensures '0' <= c <= '9' ==> 0 <= r <= 9
    ensures r == 0 <==> c == '0'
  {
    c as int - '0' as int
  }

  /** A well-formed state of the 3 by 3 puzzle: the blank is at `emptyPos` and nowhere else. */
  ghost predicate Proper(b: Board)
  {
    |b.tiles| == Cells && b.emptyPos < Cells && b.tiles[b.emptyPos] == 0 &&
    forall p :: 0 <= p < Cells && p != b.emptyPos ==> b.tiles[p] != 0
  }

  /** A state string the program accepts: nine characters, each of the digits 0 to 8 once. */
  ghost predicate Permutation(s: string)
  {
    |s| == Cells &&
    (forall i :: 0 <= i < |s| ==> '0' <= s[i] <= '8') &&
    (forall i, j :: 0 <= i < j < |s| ==> s[i] != s[j])
  }

  /** The state a string reads as over `start`, one character at a time. */
  function Parsed(s: string, start: Board): (b: Board)
    requires |s| <= Cells && |start.tiles| == Cells
    ensures |b.tiles| == Cells
    decreases |s|
  {
    if s == [] then start
    else
      var i := |s| - 1;
      var b := Parsed(s[..i], start);
      if s[i] == '0' then Board(b.tiles[i := 0], i) else b.(tiles := b.tiles[i := TileOf(s[i])])
  }

  /**
   * Reading a state string into `start`, as each driver does for the goal (an uninitialised
   * `Map`) and the root (a value-initialised one): character `i` sets tile `i`, and every
   * `'0'` moves the blank index to its position.
   */
  method Parse(s: string, start: Board) returns (b: Board)
    requires |s| <= Cells && |start.tiles| == Cells
    ensures b == Parsed(s, start)
    ensures |b.tiles| == Cells
    ensures forall i :: 0 <= i < |s| ==> b.tiles[i] == TileOf(s[i])
    ensures forall i :: |s| <= i < Cells ==> b.tiles[i] == start.tiles[i]
    ensures (exists i :: 0 <= i < |s| && s[i] == '0') ==>
      b.emptyPos < |s| && s[b.emptyPos] == '0' && forall j :: b.emptyPos < j < |s| ==> s[j] != '0'
    ensures (forall i :: 0 <= i < |s| ==> s[i] != '0') ==> b.emptyPos == start.emptyPos
  {
    b := start;
    var i := 0;
    while i != |s|
      invariant i <= |s| && |b.tiles| == Cells
      invariant forall k :: 0 <= k < i ==> b.tiles[k] == TileOf(s[k])
      invariant forall k :: i <= k < Cells ==> b.tiles[k] == start.tiles[k]
      invariant (exists k :: 0 <= k < i && s[k] == '0') ==>
        b.emptyPos < i && s[b.emptyPos] == '0' && forall j :: b.emptyPos < j < i ==> s[j] != '0'
      invariant (forall k :: 0 <= k < i ==> s[k] != '0') ==> b.emptyPos == start.emptyPos
      invariant b == Parsed(s[..i], start)
    {
      assert s[..i + 1][..i] == s[..i];
      if s[i] == '0' {
        b := b.(tiles := b.tiles[i := 0], emptyPos := i);
      } else {
        b := b.(tiles := b.tiles[i := TileOf(s[i])]);
      }
      i := i + 1;
    }
    assert s[..i] == s;
  }

  /** Reading a permutation of the digits gives a well-formed state whose tiles are those digits. */
  lemma ParsedProper(s: string, b: Board)
    requires Permutation(s) && |b.tiles| == Cells
    requires forall i :: 0 <= i < |s| ==> b.tiles[i] == TileOf(s[i])
    requires b.emptyPos < |s| && s[b.emptyPos] == '0'
    ensures Proper(b)
    ensures forall p :: 0 <= p < Cells ==> 0 <= b.tiles[p] < Cells
    ensures forall p, q :: 0 <= p < q < Cells ==> b.tiles[p] != b.tiles[q]
  {
  }

  /** The characters of `s`, as a set. */
  function Chars(s: string): (r: set<char>)
    ensures forall c :: c in r <==> c in s
    decreases |s|
  {
    if s == [] then {} else Chars(s[..|s| - 1]) + {s[|s| - 1]}
  }

  /** A string of distinct characters has as many characters as its set of characters. */
  lemma {:induction false} CharsCard(s: string)
    requires forall i, j :: 0 <= i < j < |s| ==> s[i] != s[j]
    ensures |Chars(s)| == |s|
    decreases |s|
  {
    if s != [] {
      var u := s[..|s| - 1];
      CharsCard(u);
      assert s[|s| - 1] !in Chars(u);
    }
  }

  lemma {:induction false} SubsetCard<T>(a: set<T>, b: set<T>)
    requires a <= b
    ensures |a| <= |b|
    decreases |a|
  {
    if a != {} {
      var x :| x in a;
      SubsetCard(a - {x}, b - {x});
    }
  }

  /** The digits a state string is made of. */
  const Digits: set<char> := {'0', '1', '2', '3', '4', '5', '6', '7', '8'}

  lemma DigitsCover(s: string)
    requires Permutation(s)
    ensures Chars(s) <= Digits && |Chars(s)| == |Digits|
  {
    CharsCard(s);
    forall c | c in Chars(s)
      ensures c in Digits
    {
      IsDigit(c);
    }
    DigitsCard();
  }

  lemma IsDigit(c: char)
    requires '0' <= c <= '8'
    ensures c in Digits
  {
  }

  lemma DigitsCard()
    ensures |Digits| == Cells
  {
  }

  /** A state string the program accepts has a blank. */
  lemma HasBlank(s: string)
    requires Permutation(s)
    ensures exists i :: 0 <= i < |s| && s[i] == '0'
  {
    DigitsCover(s);
    if '0' !in s {
      assert Chars(s) <= Digits - {'0'};
      SubsetCard(Chars(s), Digits - {'0'});
    }
  }

  /**
   * Two state strings the program accepts use the same characters: each is the nine digits
   * `0` to `8` in some order.
   */
  lemma PermutationsAgree(s: string, t: string)
    requires Permutation(s) && Permutation(t)
    ensures forall c :: c in s ==> c in t
  {
    DigitsCover(s);
    DigitsCover(t);
    forall c | c in s
      ensures c in t
    {
      if c !in t {
        assert Chars(t) <= Digits - {c};
        SubsetCard(Chars(t), Digits - {c});
      }
    }
  }

  /** `Map::operator==`: every tile and the blank index agree. */
  method Equals(a: Board, b: Board) returns (r: bool)
    requires |a.tiles| == Cells && |b.tiles| == Cells
    ensures r <==> a == b
  {
    var i := 0;
    while i != Cells
      invariant i <= Cells
      invariant a.tiles[..i] == b.tiles[..i]
    {
      if a.tiles[i] != b.tiles[i] {
        assert a != b;
        return false;
      }
      assert a.tiles[..i + 1] == a.tiles[..i] + [a.tiles[i]];
      assert b.tiles[..i + 1] == b.tiles[..i] + [b.tiles[i]];
      i := i + 1;
    }
    assert a.tiles == a.tiles[..Cells] && b.tiles == b.tiles[..Cells];
    r := a.emptyPos == b.emptyPos;
  }

  /**
   * The number `Hasher` computes before wrap-around: the blank index followed by the tiles,
   * read as digits in base `m`.
   */
  function Fold(e: int, tiles: seq<int>, m: int): int
  {
    if tiles == [] then e else Fold(e, tiles[..|tiles| - 1], m) * m + tiles[|tiles| - 1]
  }

  /** `Hasher<Map, m>`: the fold reduced modulo 2^64, as `size_t` arithmetic leaves it. */
  function HashOf(b: Board, m: int): nat
  {
    Fold(b.emptyPos, b.tiles, m) % Word
  }

  /** `Hasher::operator()`: folds the tiles into the blank index with wrapping arithmetic. */
  method Hash(b: Board, m: nat) returns (r: nat)
    ensures r == HashOf(b, m)
  {
    r := b.emptyPos % Word;
    var i := 0;
    while i != |b.tiles|
      invariant i <= |b.tiles|
      invariant r == Fold(b.emptyPos, b.tiles[..i], m) % Word
    {
      assert b.tiles[..i + 1][..i] == b.tiles[..i];
      WrapStep(Fold(b.emptyPos, b.tiles[..i], m), m, b.tiles[i]);
      r := (r * m + b.tiles[i]) % Word;
      i := i + 1;
    }
    assert b.tiles[..i] == b.tiles;
  }

  /** Reducing the running value before each step does not change the final reduction. */
  lemma WrapStep(x: int, m: nat, t: int)
    ensures ((x % Word) * m + t) % Word == (x * m + t) % Word
  {
    var q := x / Word;
    assert x == q * Word + x % Word;
    assert x * m + t == (x % Word) * m + t + (q * m) * Word;
    ShiftMod((x % Word) * m + t, q * m);
  }

  lemma ShiftMod(a: int, k: int)
    ensures (a + k * Word) % Word == a % Word
  {
  }

  /** Every tile and the blank index is a single decimal digit. */
  ghost predicate DecimalBoard(b: Board)
  {
    b.emptyPos < 10 && forall i :: 0 <= i < |b.tiles| ==> 0 <= b.tiles[i] < 10
  }

  function Pow10(n: nat): (r: nat)
    ensures r >= 1
  {
    if n == 0 then 1 else 10 * Pow10(n - 1)
  }

  /** The decimal fold of digits has one digit per tile after the leading one. */
  lemma {:induction false} FoldBound(e: nat, tiles: seq<int>)
    requires e < 10 && forall i :: 0 <= i < |tiles| ==> 0 <= tiles[i] < 10
    ensures 0 <= Fold(e, tiles, 10) < Pow10(|tiles| + 1)
  {
    if tiles != [] {
      FoldBound(e, tiles[..|tiles| - 1]);
    }
  }

  /** The decimal fold of equally long digit strings determines the digits. */
  lemma {:induction false} FoldInjective(e1: nat, t1: seq<int>, e2: nat, t2: seq<int>)
    requires e1 < 10 && forall i :: 0 <= i < |t1| ==> 0 <= t1[i] < 10
    requires e2 < 10 && forall i :: 0 <= i < |t2| ==> 0 <= t2[i] < 10
    requires |t1| == |t2| && Fold(e1, t1, 10) == Fold(e2, t2, 10)
    ensures e1 == e2 && t1 == t2
  {
    if t1 != [] {
      var n := |t1| - 1;
      FoldBound(e1, t1[..n]);
      FoldBound(e2, t2[..n]);
      FoldInjective(e1, t1[..n], e2, t2[..n]);
      assert t1 == t1[..n] + [t1[n]] && t2 == t2[..n] + [t2[n]];
    }
  }

  /**
   * With multiplier 10, as the visited lists and the queue lookup use it, the hash of a
   * 3 by 3 state whose entries are digits never wraps, so two such states collide only
   * when they are equal.
   */
  lemma Hash10Injective(a: Board, b: Board)
    requires DecimalBoard(a) && DecimalBoard(b) && |a.tiles| == Cells && |b.tiles| == Cells
    requires HashOf(a, 10) == HashOf(b, 10)
    ensures a == b
  {
    FoldBound(a.emptyPos, a.tiles);
    FoldBound(b.emptyPos, b.tiles);
    assert Pow10(Cells + 1) < Word;
    NoWrap(Fold(a.emptyPos, a.tiles, 10), Fold(b.emptyPos, b.tiles, 10));
    FoldInjective(a.emptyPos, a.tiles, b.emptyPos, b.tiles);
  }

  /** Two values below 2^64 that agree modulo 2^64 are equal. */
  lemma NoWrap(x: int, y: int)
    requires 0 <= x < Word && 0 <= y < Word && x % Word == y % Word
    ensures x == y
  {
  }

  /** Column and row distance between two cells of the grid. */
  function GridDistance(a: nat, b: nat): nat
  {
    var dx := a % Width - b % Width;
    var dy := a / Width - b / Width;
    (if dx < 0 then -dx else dx) + (if dy < 0 then -dy else dy)
  }

  /** Two cells that share a side. */
  predicate Adjacent(a: nat, b: nat)
  {
    GridDistance(a, b) == 1
  }

  /**
   * The cells the blank can move to from `e`, in the order the drivers try them: up (if
   * not in the top row), right (if not in the right column), down (if not in the bottom
   * row), left (if not in the left column).
   */
  function Neighbours(e: nat): (r: seq<nat>)
    requires e < Cells
    ensures forall k :: 0 <= k < |r| ==> r[k] < Cells && Adjacent(e, r[k])
  {
    var x := e % Width;
    var y := e / Width;
    (if y != 0 then [e - Width] else []) +
    (if x != Width - 1 then [e + 1] else []) +
    (if y != Height - 1 then [e + Width] else []) +
    (if x != 0 then [e - 1] else [])
  }

  /** The moves generated are exactly the moves to a cell of the grid that shares a side. */
  lemma NeighboursAdjacent(e: nat, n: nat)
    requires e < Cells
    ensures n in Neighbours(e) <==> n < Cells && Adjacent(e, n)
    ensures |Neighbours(e)| >= 2
  {
  }

  /**
   * The four guards the drivers test before each expansion: not in the top row, not in the
   * right column, not in the bottom row, not in the left column.  Each one lets through
   * exactly the cells whose neighbour in that direction is inside the grid.
   */
  lemma SideNeighbours(e: nat)
    requires e < Cells
    ensures e / Width != 0 <==> e >= Width && Adjacent(e, e - Width)
    ensures e % Width != Width - 1 <==> e + 1 < Cells && Adjacent(e, e + 1)
    ensures e / Width != Height - 1 <==> e + Width < Cells && Adjacent(e, e + Width)
    ensures e % Width != 0 <==> e >= 1 && Adjacent(e, e - 1)
  {
  }

  /**
   * The successor state built by the `expandPath*` helpers: the node starts as a copy of
   * the parent, the blank index becomes `newPos`, the tile at `newPos` is written to the
   * old blank index and 0 is written at `newPos`.
   */
  function Move(b: Board, newPos: nat): (r: Board)
    requires |b.tiles| == Cells && b.emptyPos < Cells && newPos < Cells
    ensures |r.tiles| == Cells && r.emptyPos == newPos
  {
    Board(b.tiles[b.emptyPos := b.tiles[newPos]][newPos := 0], newPos)
  }

  /**
   * A move of a well-formed state slides the tile at `newPos` into the blank: the result
   * is well formed, holds the same tiles, and differs from the state only at the two cells.
   */
  lemma MoveProper(b: Board, n: nat)
    requires Proper(b) && n < Cells && n != b.emptyPos
    ensures Proper(Move(b, n))
    ensures multiset(Move(b, n).tiles) == multiset(b.tiles)
    ensures Move(b, n).tiles[b.emptyPos] == b.tiles[n] && Move(b, n).tiles[n] == 0
    ensures forall p :: 0 <= p < Cells && p != n && p != b.emptyPos ==> Move(b, n).tiles[p] == b.tiles[p]
  {
    var t := b.tiles;
    var e := b.emptyPos;
    assert Move(b, n).tiles == t[e := t[n]][n := t[e]];
  }

  /** Moving the blank back where it came from restores the state. */
  lemma MoveBack(b: Board, n: nat)
    requires Proper(b) && n < Cells && n != b.emptyPos
    ensures Move(Move(b, n), b.emptyPos) == b
  {
    MoveProper(b, n);
  }
}
