/** The central rule of Board.java as pure functions over the 64 cells:
 *  the line of squares through a move, the number of pieces on it, the
 *  path of a move, blocking and legality. */
module Lines {
  import opened Pieces
  import opened Squares

  /** The flat board: cell i holds the piece on SquareAt(i). */
  type Cells = c: seq<Piece> | |c| == BOARD_SIZE * BOARD_SIZE witness seq(64, _ => EMP)

  function Get(cells: Cells, s: Square): Piece {
    cells[Index(s)]
  }

  function RayOrEmpty(s: Square, d: int): seq<Square>
    requires -1 <= d < 8
  {
    if d == -1 then [] else Ray(s, d)
  }

  /** lineOfSquares(F, T): F, then every square beyond F towards T up to
   *  the edge, then every square beyond F in the opposite direction. */
  function LineOfSquares(f: Square, t: Square): seq<Square> {
    var dir := Direction(f, t);
    [f] + RayOrEmpty(f, dir) + Ray(f, OppositeDir(dir))
  }

  /** The number of occupied squares in LINE. */
  function CountOccupied(cells: Cells, line: seq<Square>): (n: int)
    ensures 0 <= n <= |line|
  {
    if line == [] then 0
    else CountOccupied(cells, line[..|line| - 1]) + (if Get(cells, line[|line| - 1]) != EMP then 1 else 0)
  }

  /** piecesInLine(F, T): the pieces on the line of squares through F and T. */
  function PiecesInLine(cells: Cells, f: Square, t: Square): int {
    CountOccupied(cells, LineOfSquares(f, t))
  }

  /** True iff S lies on the axis through F that direction D runs along
   *  (both directions of it). */
  predicate OnAxis(f: Square, d: Dir, s: Square) {
    var a := d % 4;
    if a == 0 then s.col == f.col
    else if a == 2 then s.row == f.row
    else if a == 1 then s.col - f.col == s.row - f.row
    else s.col - f.col == f.row - s.row
  }

  /** The set of occupied squares (by index) on the axis through F along D. */
  function AxisPieces(cells: Cells, f: Square, d: Dir): set<int> {
    set i | 0 <= i < BOARD_SIZE * BOARD_SIZE && OnAxis(f, d, SquareAt(i)) && cells[i] != EMP
  }

  predicate Distinct(xs: seq<Square>) {
    forall i, j :: 0 <= i < j < |xs| ==> xs[i] != xs[j]
  }

  /** The squares strictly between F and T on their common line. */
  function Between(f: Square, t: Square): (r: seq<Square>)
    requires OnLine(f, t)
    ensures |r| == Distance(f, t) - 1
    ensures forall k :: 0 <= k < |r| ==> r[k] == Step(f, Direction(f, t), k + 1)
  {
    RayShape(f, Direction(f, t));
    Ray(f, Direction(f, t))[..Distance(f, t) - 1]
  }

  /** blocked(F, T): T holds the mover's piece, or an opposing piece stands
   *  strictly between F and T. */
  predicate Blocked(cells: Cells, turn: Piece, f: Square, t: Square)
    requires OnLine(f, t) && turn != EMP
  {
    Get(cells, t) == turn ||
    exists k :: 0 <= k < |Between(f, t)| && Get(cells, Between(f, t)[k]) == Opposite(turn)
  }

  /** isLegal(F, T) for the side TURN: F and T share a line, the move's
   *  length equals the number of pieces on that whole line, F holds TURN's
   *  piece, and the move is not blocked. */
  predicate Legal(cells: Cells, turn: Piece, f: Square, t: Square)
    requires turn != EMP
  {
    OnLine(f, t) &&
    Distance(f, t) == PiecesInLine(cells, f, t) &&
    Get(cells, f) == turn &&
    !Blocked(cells, turn, f, t)
  }

  // ---------------------------------------------------------------------
  // The line of squares is the whole axis, each square once.
  // ---------------------------------------------------------------------

  /** Two walks from F, one in direction D and one in its opposite (or in D
   *  itself with a different length), meet only at F. */
  lemma StepsApart(f: Square, d: Dir, i: int, j: int)
    requires 0 <= i && 0 <= j
    ensures i != j ==> Step(f, d, i) != Step(f, d, j)
    ensures Step(f, d, i) == Step(f, OppositeDir(d), j) ==> i == 0 && j == 0
  {
  }

  /** A direction and its opposite run along the same axis. */
  lemma OppositeAxis(d: Dir)
    ensures OppositeDir(d) % 4 == d % 4
  {
  }

  /** Every square of either ray from F along D lies on the axis. */
  lemma StepOnAxis(f: Square, d: Dir, e: Dir, n: int)
    requires e % 4 == d % 4
    requires Exists(Step(f, e, n).col, Step(f, e, n).row)
    ensures OnAxis(f, d, Step(f, e, n))
  {
  }

  /** A square on the axis through F along D, other than F, is reached from
   *  F in direction D or in the opposite direction. */
  lemma AxisDirection(f: Square, d: Dir, s: Square)
    requires OnAxis(f, d, s) && s != f
    ensures OnLine(f, s)
    ensures Direction(f, s) == d || Direction(f, s) == OppositeDir(d)
  {
  }

  /** S is in Ray(F, D) iff it is some positive number of steps from F in D. */
  lemma InRay(f: Square, d: Dir, s: Square, n: int)
    requires 1 <= n && s == Step(f, d, n)
    ensures s in Ray(f, d)
  {
    RayShape(f, d);
    assert Ray(f, d)[n - 1] == s;
  }

  /** Every square of the line of squares lies on the axis. */
  lemma LineOnAxis(f: Square, t: Square, s: Square)
    requires f != t && s in LineOfSquares(f, t)
    ensures OnAxis(f, Direction(f, t), s)
  {
    var d := Direction(f, t);
    var o := OppositeDir(d);
    var a, b := Ray(f, d), Ray(f, o);
    RayShape(f, d);
    RayShape(f, o);
    assert LineOfSquares(f, t) == [f] + a + b;
    if s == f {
    } else if s in a {
      var k :| 0 <= k < |a| && a[k] == s;
      StepOnAxis(f, d, d, k + 1);
    } else {
      assert s in b;
      var k :| 0 <= k < |b| && b[k] == s;
      OppositeAxis(d);
      StepOnAxis(f, d, o, k + 1);
    }
  }

  /** Every square of the axis is on the line of squares. */
  lemma AxisInLine(f: Square, t: Square, s: Square)
    requires f != t && OnAxis(f, Direction(f, t), s)
    ensures s in LineOfSquares(f, t)
  {
    var d := Direction(f, t);
    var line := LineOfSquares(f, t);
    assert line == [f] + Ray(f, d) + Ray(f, OppositeDir(d));
    if s != f {
      AxisDirection(f, d, s);
      var e := Direction(f, s);
      InRay(f, e, s, Distance(f, s));
    }
  }

  /** The membership half of "each square of the axis listed once". */
  lemma LineMembership(f: Square, t: Square, s: Square)
    requires f != t
    ensures s in LineOfSquares(f, t) <==> OnAxis(f, Direction(f, t), s)
  {
    if s in LineOfSquares(f, t) {
      LineOnAxis(f, t, s);
    }
    if OnAxis(f, Direction(f, t), s) {
      AxisInLine(f, t, s);
    }
  }

  /** The distinctness half of "each square of the axis listed once". */
  lemma LineDistinct(f: Square, t: Square)
    requires f != t
    ensures Distinct(LineOfSquares(f, t))
  {
    var d := Direction(f, t);
    var o := OppositeDir(d);
    RayShape(f, d);
    RayShape(f, o);
    var a, b := Ray(f, d), Ray(f, o);
    var line := LineOfSquares(f, t);
    assert line == [f] + a + b;
    forall i, j | 0 <= i < j < |line|
      ensures line[i] != line[j]
    {
      if i == 0 {
        if j <= |a| {
          StepsApart(f, d, 0, j);
        } else {
          StepsApart(f, o, 0, j - |a|);
        }
      } else if i <= |a| && j <= |a| {
        StepsApart(f, d, i, j);
      } else if i <= |a| {
        StepsApart(f, d, i, j - |a|);
        assert OppositeDir(o) == d;
        StepsApart(f, o, j - |a|, i);
      } else {
        StepsApart(f, o, i - |a|, j - |a|);
      }
    }
  }

  // ---------------------------------------------------------------------
  // piecesInLine counts the occupied squares of the whole axis.
  // ---------------------------------------------------------------------

  lemma IndexRoundTrip(s: Square)
    ensures SquareAt(Index(s)) == s
  {
  }

  /** The occupied squares (by index) listed in XS. */
  function OccupiedIn(cells: Cells, xs: seq<Square>): set<int> {
    set i | 0 <= i < BOARD_SIZE * BOARD_SIZE && SquareAt(i) in xs && cells[i] != EMP
  }

  /** Counting the occupied entries of a list without repeats counts the
   *  occupied squares it lists. */
  lemma {:induction false} CountDistinct(cells: Cells, xs: seq<Square>)
    requires Distinct(xs)
    ensures CountOccupied(cells, xs) == |OccupiedIn(cells, xs)|
  {
    if xs == [] {
      assert OccupiedIn(cells, xs) == {};
    } else {
      var ys, x := xs[..|xs| - 1], xs[|xs| - 1];
      assert xs == ys + [x];
      CountDistinct(cells, ys);
      IndexRoundTrip(x);
      assert x !in ys;
      assert Index(x) !in OccupiedIn(cells, ys);
      if Get(cells, x) != EMP {
        assert OccupiedIn(cells, xs) == OccupiedIn(cells, ys) + {Index(x)};
      } else {
        assert OccupiedIn(cells, xs) == OccupiedIn(cells, ys);
      }
    }
  }

  /** piecesInLine(F, T) is the number of pieces on the whole axis through F
   *  towards T, in both directions to the edge. */
  lemma LineCountIsAxisCount(cells: Cells, f: Square, t: Square)
    requires f != t
    ensures PiecesInLine(cells, f, t) == |AxisPieces(cells, f, Direction(f, t))|
  {
    LineDistinct(f, t);
    CountDistinct(cells, LineOfSquares(f, t));
    forall i | 0 <= i < BOARD_SIZE * BOARD_SIZE
      ensures i in OccupiedIn(cells, LineOfSquares(f, t)) <==> i in AxisPieces(cells, f, Direction(f, t))
    {
      LineMembership(f, t, SquareAt(i));
    }
    assert OccupiedIn(cells, LineOfSquares(f, t)) == AxisPieces(cells, f, Direction(f, t));
  }
}
