/** Board.legalMoves as a pure function: scan the squares in index order;
 *  for a square holding the side to move, scan the axes 0..3 (N-S, NE-SW,
 *  E-W, SE-NW), skipping an axis whose first-direction neighbour is off
 *  the board, and keep each legal move to a square of that axis's line. */
module MoveGen {
  import opened Wrappers
  import opened Pieces
  import opened Squares
  import opened Moves
  import opened Lines

  /** True iff the generator scans the axis of the move F-T from F: the
   *  neighbour of F in the axis's first direction (0..3) is on the board. */
  predicate AxisScanned(f: Square, t: Square) {
    MoveDest(f, Direction(f, t) % 4, 1).Some?
  }

  /** The direction from S to a square one or more steps away in D is D. */
  lemma DirectionOfStep(s: Square, d: Dir, n: int)
    requires 1 <= n && Exists(Step(s, d, n).col, Step(s, d, n).row)
    ensures Direction(s, Step(s, d, n)) == d
  {
  }

  /** A square on a line with S lies on S's axis A exactly when the
   *  direction towards it is A or its opposite. */
  lemma AxisOfTarget(s: Square, a: Dir, t: Square)
    requires OnLine(s, t) && a < 4
    ensures OnAxis(s, a, t) <==> Direction(s, t) % 4 == a
  {
    var d := Direction(s, t);
    StepOnAxis(s, d, d, Distance(s, t));
    if OnAxis(s, a, t) {
      AxisDirection(s, a, t);
      OppositeAxis(a);
    }
  }

  /** The moves S-P, P in LINE (in order), that are legal. */
  function LegalTargets(cells: Cells, turn: Piece, s: Square, line: seq<Square>): seq<Move>
    requires turn != EMP
  {
    if line == [] then []
    else
      var p := line[|line| - 1];
      var m := Mv(s, p);
      LegalTargets(cells, turn, s, line[..|line| - 1]) +
      (if m.Some? && Legal(cells, turn, s, p) then [m.value] else [])
  }

  /** LegalTargets keeps exactly the legal moves from S to squares of LINE. */
  lemma {:induction false} LegalTargetsSpec(cells: Cells, turn: Piece, s: Square, line: seq<Square>)
    requires turn != EMP
    ensures forall m :: m in LegalTargets(cells, turn, s, line) <==>
      m.from == s && !m.isCapture && m.to in line && Legal(cells, turn, s, m.to)
    decreases |line|
  {
    if line != [] {
      var front := line[..|line| - 1];
      LegalTargetsSpec(cells, turn, s, front);
      assert line == front + [line[|line| - 1]];
    }
  }

  /** The legal moves from S found on its axes 0..A-1. */
  function AxisMoves(cells: Cells, turn: Piece, s: Square, a: int): seq<Move>
    requires turn != EMP && 0 <= a <= 4
  {
    if a == 0 then []
    else
      var before := AxisMoves(cells, turn, s, a - 1);
      match MoveDest(s, a - 1, 1)
      case None => before
      case Some(adj) => before + LegalTargets(cells, turn, s, LineOfSquares(s, adj))
  }

  /** AxisMoves keeps exactly the legal moves from S along the scanned axes
   *  0..A-1. */
  lemma {:induction false} AxisMovesSpec(cells: Cells, turn: Piece, s: Square, a: int)
    requires turn != EMP && 0 <= a <= 4
    ensures forall m :: m in AxisMoves(cells, turn, s, a) <==>
      m.from == s && !m.isCapture && Legal(cells, turn, s, m.to) &&
      Direction(s, m.to) % 4 < a && AxisScanned(s, m.to)
  {
    if a > 0 {
      AxisMovesSpec(cells, turn, s, a - 1);
      match MoveDest(s, a - 1, 1)
      case None =>
      case Some(adj) =>
        var here := LegalTargets(cells, turn, s, LineOfSquares(s, adj));
        LegalTargetsSpec(cells, turn, s, LineOfSquares(s, adj));
        assert adj == Step(s, a - 1, 1);
        DirectionOfStep(s, a - 1, 1);
        forall m: Move | m.from == s && Legal(cells, turn, s, m.to)
          ensures m.to in LineOfSquares(s, adj) <==> Direction(s, m.to) % 4 == a - 1
        {
          LineMembership(s, adj, m.to);
          AxisOfTarget(s, a - 1, m.to);
        }
    }
  }

  /** One more axis: AxisMoves grows by the targets on that axis's line
   *  when the axis is scanned. */
  lemma AxisMovesNext(cells: Cells, turn: Piece, s: Square, a: int)
    requires turn != EMP && 0 <= a < 4
    ensures AxisMoves(cells, turn, s, a + 1) == AxisMoves(cells, turn, s, a) +
      (if MoveDest(s, a, 1).Some? then LegalTargets(cells, turn, s, LineOfSquares(s, MoveDest(s, a, 1).value)) else [])
  {
  }

  /** The legal moves generated from square S. */
  function MovesFrom(cells: Cells, turn: Piece, s: Square): seq<Move>
    requires turn != EMP
  {
    if Get(cells, s) == EMP then []
    else if Get(cells, s) == turn then AxisMoves(cells, turn, s, 4)
    else []
  }

  /** The legal moves generated from the squares of index 0..N-1. */
  function GenMoves(cells: Cells, turn: Piece, n: int): seq<Move>
    requires turn != EMP && 0 <= n <= BOARD_SIZE * BOARD_SIZE
  {
    if n == 0 then []
    else GenMoves(cells, turn, n - 1) + MovesFrom(cells, turn, SquareAt(n - 1))
  }

  /** MovesFrom keeps exactly the legal moves from S along scanned axes. */
  lemma MovesFromSpec(cells: Cells, turn: Piece, s: Square)
    requires turn != EMP
    ensures forall m :: m in MovesFrom(cells, turn, s) <==>
      m.from == s && !m.isCapture && Legal(cells, turn, m.from, m.to) && AxisScanned(m.from, m.to)
  {
    AxisMovesSpec(cells, turn, s, 4);
  }

  /** One more square: GenMoves grows by the moves from square N. */
  lemma GenMovesNext(cells: Cells, turn: Piece, n: int)
    requires turn != EMP && 0 <= n < BOARD_SIZE * BOARD_SIZE
    ensures GenMoves(cells, turn, n + 1) == GenMoves(cells, turn, n) + MovesFrom(cells, turn, SquareAt(n))
  {
  }

  /** GenMoves keeps exactly the legal moves from squares of index below N
   *  along scanned axes. */
  lemma {:induction false} GenMovesSpec(cells: Cells, turn: Piece, n: int)
    requires turn != EMP && 0 <= n <= BOARD_SIZE * BOARD_SIZE
    ensures forall m :: m in GenMoves(cells, turn, n) <==>
      Index(m.from) < n && !m.isCapture && Legal(cells, turn, m.from, m.to) && AxisScanned(m.from, m.to)
  {
    if n > 0 {
      GenMovesSpec(cells, turn, n - 1);
      var s := SquareAt(n - 1);
      MovesFromSpec(cells, turn, s);
      forall m: Move ensures Index(m.from) == n - 1 <==> m.from == s {
        IndexRoundTrip(m.from);
      }
    }
  }

  /** legalMoves(): the moves generated from every square. */
  function LegalMoves(cells: Cells, turn: Piece): seq<Move>
    requires turn != EMP
  {
    GenMoves(cells, turn, BOARD_SIZE * BOARD_SIZE)
  }

  /** legalMoves(): every move it lists is legal, non-capturing in form and
   *  starts on a square of the side to move; every legal move is listed
   *  unless the generator skips its axis (see AxisScanned). */
  lemma LegalMovesSpec(cells: Cells, turn: Piece)
    requires turn != EMP
    ensures forall m :: m in LegalMoves(cells, turn) <==>
      !m.isCapture && Legal(cells, turn, m.from, m.to) && AxisScanned(m.from, m.to)
    ensures forall m :: m in LegalMoves(cells, turn) ==> Get(cells, m.from) == turn && Get(cells, m.to) != turn
  {
    GenMovesSpec(cells, turn, BOARD_SIZE * BOARD_SIZE);
  }

  // ---------------------------------------------------------------------
  // The generator as its documentation promises it ("all legal moves"):
  // an axis whose first-direction neighbour is off the board is scanned
  // from the neighbour in the opposite direction instead.
  // ---------------------------------------------------------------------

  /** A neighbour of S on axis A (0..3): one step in direction A or, at
   *  that edge, one step in the opposite direction. */
  function AxisNeighbour(s: Square, a: Dir): Option<Square> {
    if MoveDest(s, a, 1).Some? then MoveDest(s, a, 1) else MoveDest(s, OppositeDir(a), 1)
  }

  /** An axis neighbour lies on the axis: the direction to it is A or its
   *  opposite. */
  lemma AxisNeighbourOnAxis(s: Square, a: Dir, adj: Square)
    requires a < 4 && AxisNeighbour(s, a) == Some(adj)
    ensures adj != s && Direction(s, adj) % 4 == a
  {
    if MoveDest(s, a, 1).Some? {
      DirectionOfStep(s, a, 1);
    } else {
      DirectionOfStep(s, OppositeDir(a), 1);
    }
  }

  /** Two directions along the same axis describe the same axis. */
  lemma SameAxis(f: Square, d: Dir, a: Dir, s: Square)
    requires a < 4 && d % 4 == a
    ensures OnAxis(f, d, s) == OnAxis(f, a, s)
  {
  }

  /** A square sharing a line with S gives S a neighbour on that line's
   *  axis: the first square towards it is on the board. */
  lemma LineHasNeighbour(s: Square, t: Square)
    requires OnLine(s, t)
    ensures AxisNeighbour(s, Direction(s, t) % 4).Some?
  {
    var e := Direction(s, t);
    assert Step(s, e, Distance(s, t)) == t;
    assert MoveDest(s, e, 1).Some?;
    OppositeAxis(e % 4);
  }

  /** Hence an axis without a neighbour of S holds no square on a line
   *  with S. */
  lemma NoNeighbourOffAxis(s: Square, a: Dir, t: Square)
    requires a < 4 && AxisNeighbour(s, a).None? && OnLine(s, t)
    ensures Direction(s, t) % 4 != a
  {
    LineHasNeighbour(s, t);
  }

  /** The targets listed on the line through an axis neighbour are exactly
   *  the legal moves along that axis. */
  lemma AxisTargets(cells: Cells, turn: Piece, s: Square, a: Dir, adj: Square)
    requires turn != EMP && a < 4 && AxisNeighbour(s, a) == Some(adj)
    ensures forall m :: m in LegalTargets(cells, turn, s, LineOfSquares(s, adj)) <==>
      m.from == s && !m.isCapture && Legal(cells, turn, s, m.to) && Direction(s, m.to) % 4 == a
  {
    LegalTargetsSpec(cells, turn, s, LineOfSquares(s, adj));
    AxisNeighbourOnAxis(s, a, adj);
    forall m: Move | m.from == s && Legal(cells, turn, s, m.to)
      ensures m.to in LineOfSquares(s, adj) <==> Direction(s, m.to) % 4 == a
    {
      LineMembership(s, adj, m.to);
      AxisOfTarget(s, a, m.to);
      SameAxis(s, Direction(s, adj), a, m.to);
    }
  }

  /** The legal moves from S found on its axes 0..A-1, every axis scanned. */
  function AxisMovesIntended(cells: Cells, turn: Piece, s: Square, a: int): seq<Move>
    requires turn != EMP && 0 <= a <= 4
  {
    if a == 0 then []
    else
      var before := AxisMovesIntended(cells, turn, s, a - 1);
      match AxisNeighbour(s, a - 1)
      case None => before
      case Some(adj) => before + LegalTargets(cells, turn, s, LineOfSquares(s, adj))
  }

  /** AxisMovesIntended keeps exactly the legal moves from S along the axes
   *  0..A-1, with no axis skipped. */
  lemma {:induction false} AxisMovesIntendedSpec(cells: Cells, turn: Piece, s: Square, a: int)
    requires turn != EMP && 0 <= a <= 4
    ensures forall m :: m in AxisMovesIntended(cells, turn, s, a) <==>
      m.from == s && !m.isCapture && Legal(cells, turn, s, m.to) && Direction(s, m.to) % 4 < a
  {
    if a > 0 {
      var before := AxisMovesIntended(cells, turn, s, a - 1);
      AxisMovesIntendedSpec(cells, turn, s, a - 1);
      match AxisNeighbour(s, a - 1)
      case None =>
        assert AxisMovesIntended(cells, turn, s, a) == before;
        forall m: Move
          ensures m in before <==>
            m.from == s && !m.isCapture && Legal(cells, turn, s, m.to) && Direction(s, m.to) % 4 < a
        {
          if m.from == s && Legal(cells, turn, s, m.to) {
            NoNeighbourOffAxis(s, a - 1, m.to);
          }
        }
        assert forall m :: m in AxisMovesIntended(cells, turn, s, a) <==>
          m.from == s && !m.isCapture && Legal(cells, turn, s, m.to) && Direction(s, m.to) % 4 < a;
      case Some(adj) =>
        var here := LegalTargets(cells, turn, s, LineOfSquares(s, adj));
        assert AxisMovesIntended(cells, turn, s, a) == before + here;
        AxisTargets(cells, turn, s, a - 1, adj);
        assert forall m :: m in AxisMovesIntended(cells, turn, s, a) <==>
          m.from == s && !m.isCapture && Legal(cells, turn, s, m.to) && Direction(s, m.to) % 4 < a;
    }
  }

  /** The moves from square S, every axis scanned. */
  function MovesFromIntended(cells: Cells, turn: Piece, s: Square): seq<Move>
    requires turn != EMP
  {
    if Get(cells, s) == turn then AxisMovesIntended(cells, turn, s, 4) else []
  }

  /** The moves from the squares of index 0..N-1, every axis scanned. */
  function GenMovesIntended(cells: Cells, turn: Piece, n: int): seq<Move>
    requires turn != EMP && 0 <= n <= BOARD_SIZE * BOARD_SIZE
  {
    if n == 0 then []
    else GenMovesIntended(cells, turn, n - 1) + MovesFromIntended(cells, turn, SquareAt(n - 1))
  }

  lemma {:induction false} GenMovesIntendedSpec(cells: Cells, turn: Piece, n: int)
    requires turn != EMP && 0 <= n <= BOARD_SIZE * BOARD_SIZE
    ensures forall m :: m in GenMovesIntended(cells, turn, n) <==>
      Index(m.from) < n && !m.isCapture && Legal(cells, turn, m.from, m.to)
  {
    if n > 0 {
      GenMovesIntendedSpec(cells, turn, n - 1);
      var s := SquareAt(n - 1);
      AxisMovesIntendedSpec(cells, turn, s, 4);
      forall m: Move ensures Index(m.from) == n - 1 <==> m.from == s {
        IndexRoundTrip(m.from);
      }
    }
  }

  /** legalMoves() as documented: every legal move of the side to move, in
   *  its non-capturing form. */
  function LegalMovesIntended(cells: Cells, turn: Piece): seq<Move>
    requires turn != EMP
  {
    GenMovesIntended(cells, turn, BOARD_SIZE * BOARD_SIZE)
  }

  /** The corrected generator lists a move iff it is legal (and in its
   *  non-capturing form): no legal move is missed. */
  lemma LegalMovesIntendedSpec(cells: Cells, turn: Piece)
    requires turn != EMP
    ensures forall m :: m in LegalMovesIntended(cells, turn) <==> !m.isCapture && Legal(cells, turn, m.from, m.to)
  {
    GenMovesIntendedSpec(cells, turn, BOARD_SIZE * BOARD_SIZE);
  }
}
