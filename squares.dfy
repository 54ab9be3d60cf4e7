/** Model of the square geometry the board relies on (loa/Square.java is not
 *  part of this model).  A square is a (column, row) pair on the 8x8 board,
 *  indexed row*8+col.  Directions are numbered clockwise from north:
 *  0 N, 1 NE, 2 E, 3 SE, 4 S, 5 SW, 6 W, 7 NW, with -1 for "no direction". */
module Squares {
  import opened Wrappers

  const BOARD_SIZE: int := 8

  /** True iff (col, row) lies on the board. */
  predicate Exists(col: int, row: int) {
    0 <= col < BOARD_SIZE && 0 <= row < BOARD_SIZE
  }

  datatype Coord = Coord(col: int, row: int)

  /** A square is an in-bounds coordinate pair. */
  type Square = c: Coord | Exists(c.col, c.row) witness Coord(0, 0)

  /** A direction code. */
  type Dir = d: int | 0 <= d < 8

  function Abs(x: int): int { if x < 0 then -x else x }
  function Sign(x: int): int { if x > 0 then 1 else if x < 0 then -1 else 0 }
  function Max(x: int, y: int): int { if x >= y then x else y }
  function Min(x: int, y: int): int { if x <= y then x else y }

  /** The index of S in the flat 64-cell board. */
  function Index(s: Square): (i: int)
    ensures 0 <= i < BOARD_SIZE * BOARD_SIZE
  {
    s.row * BOARD_SIZE + s.col
  }

  /** The square whose index is I (the source's ALL_SQUARES[I]). */
  function SquareAt(i: int): (s: Square)
    requires 0 <= i < BOARD_SIZE * BOARD_SIZE
    ensures Index(s) == i
  {
    Coord(i % BOARD_SIZE, i / BOARD_SIZE)
  }

  /** Column displacement of one step in direction D. */
  function DCol(d: Dir): int {
    if d == 0 || d == 4 then 0 else if d <= 3 then 1 else -1
  }

  /** Row displacement of one step in direction D. */
  function DRow(d: Dir): int {
    if d == 2 || d == 6 then 0 else if d <= 1 || d == 7 then 1 else -1
  }

  /** The reverse direction, (d + 4) mod 8 as the source computes it
   *  (so "no direction" -1 maps to 3). */
  function OppositeDir(d: int): (r: int)
    requires -1 <= d < 8
    ensures 0 <= r < 8
    ensures 0 <= d ==> DCol(r) == -DCol(d) && DRow(r) == -DRow(d)
  {
    (d + 4) % 8
  }

  /** X moved N steps along a unit displacement DX. */
  function Offset(x: int, dx: int, n: int): int {
    if dx > 0 then x + n else if dx < 0 then x - n else x
  }

  /** The coordinates N steps from C in direction D. */
  function Step(c: Coord, d: Dir, n: int): Coord {
    Coord(Offset(c.col, DCol(d), n), Offset(c.row, DRow(d), n))
  }

  /** The square STEPS squares from S in direction DIR, or None if that is
   *  off the board or DIR is -1. */
  function MoveDest(s: Square, dir: int, steps: int): Option<Square>
    requires -1 <= dir < 8
  {
    if dir == -1 then None
    else
      var c := Step(s, dir, steps);
      if Exists(c.col, c.row) then Some(c) else None
  }

  /** True iff A and B are distinct and on a common row, column or diagonal. */
  predicate OnLine(a: Square, b: Square) {
    a != b &&
    (a.col == b.col || a.row == b.row ||
     a.col - b.col == a.row - b.row || a.col - b.col == b.row - a.row)
  }

  /** The direction from A to B, taken from the signs of the displacement;
   *  -1 when A == B. */
  function Direction(a: Square, b: Square): (r: int)
    ensures -1 <= r < 8
    ensures r == -1 <==> a == b
    ensures a != b ==> DCol(r) == Sign(b.col - a.col) && DRow(r) == Sign(b.row - a.row)
  {
    var dc, dr := Sign(b.col - a.col), Sign(b.row - a.row);
    if dc == 0 && dr == 0 then -1
    else if dc == 0 then (if dr > 0 then 0 else 4)
    else if dc > 0 then (if dr > 0 then 1 else if dr == 0 then 2 else 3)
    else (if dr < 0 then 5 else if dr == 0 then 6 else 7)
  }

  /** The number of steps from A to B along their common line, or -1 when
   *  they do not share a line. */
  function Distance(a: Square, b: Square): (r: int)
    ensures r == -1 <==> !OnLine(a, b)
    ensures OnLine(a, b) ==> r >= 1 && Step(a, Direction(a, b), r) == b
  {
    if OnLine(a, b) then Max(Abs(a.col - b.col), Abs(a.row - b.row)) else -1
  }

  /** How far X can move along DX before leaving the board (8 if DX is 0). */
  function Reach(x: int, dx: int): int {
    if dx > 0 then BOARD_SIZE - 1 - x else if dx < 0 then x else BOARD_SIZE
  }

  /** The number of squares beyond S in direction D before the edge. */
  function RayLength(s: Square, d: Dir): (n: int)
    ensures 0 <= n < BOARD_SIZE
    ensures forall k :: 0 <= k ==> (Exists(Step(s, d, k).col, Step(s, d, k).row) <==> k <= n)
  {
    Min(Reach(s.col, DCol(d)), Reach(s.row, DRow(d)))
  }

  /** The squares beyond S in direction D, nearest first, up to the edge:
   *  the squares the source's walk `s = s.moveDest(dir, 1)` visits. */
  function Ray(s: Square, d: Dir): seq<Square>
    decreases RayLength(s, d)
  {
    match MoveDest(s, d, 1)
    case None => []
    case Some(n) =>
      assert Step(n, d, RayLength(s, d)) == Step(s, d, RayLength(s, d) + 1);
      [n] + Ray(n, d)
  }

  /** Ray(S, D) lists exactly the squares 1, 2, ... RayLength(S, D) steps
   *  from S in direction D, in that order. */
  lemma {:induction false} RayShape(s: Square, d: Dir)
    decreases RayLength(s, d)
    ensures |Ray(s, d)| == RayLength(s, d)
    ensures forall k :: 0 <= k < |Ray(s, d)| ==> Ray(s, d)[k] == Step(s, d, k + 1)
  {
    match MoveDest(s, d, 1)
    case None =>
    case Some(n) =>
      assert Step(n, d, RayLength(s, d)) == Step(s, d, RayLength(s, d) + 1);
      RayShape(n, d);
      forall k | 0 <= k < |Ray(s, d)|
        ensures Ray(s, d)[k] == Step(s, d, k + 1)
      {
        if k > 0 {
          assert Ray(s, d)[k] == Ray(n, d)[k - 1];
          assert Step(n, d, k) == Step(s, d, k + 1);
        }
      }
  }

  /** True iff A and B are distinct neighbours (8-direction adjacency). */
  predicate Adj(a: Square, b: Square) {
    a != b && Abs(a.col - b.col) <= 1 && Abs(a.row - b.row) <= 1
  }

  /** The neighbours of S reached by directions D..7, in direction order. */
  function AdjacentFrom(s: Square, d: int): (r: seq<Square>)
    requires 0 <= d <= 8
    ensures forall t :: t in r <==> Adj(s, t) && Direction(s, t) >= d
    decreases 8 - d
  {
    if d == 8 then []
    else
      var rest := AdjacentFrom(s, d + 1);
      match MoveDest(s, d, 1)
      case None => rest
      case Some(n) => assert Direction(s, n) == d; [n] + rest
  }

  /** The source's `adjacent()`: the up to eight neighbours of S. */
  function Adjacent(s: Square): (r: seq<Square>)
    ensures forall t :: t in r <==> Adj(s, t)
  {
    AdjacentFrom(s, 0)
  }
}
