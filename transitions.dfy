/** makeMove and retract of Board.java as functions on a value snapshot of
 *  the board's state: the cells, the side to move, the move-limit
 *  countdown, the stack of unretracted moves and the map from each
 *  recorded move to the piece it displaced. */
module Transitions {
  import opened Pieces
  import opened Squares
  import opened Moves
  import opened Lines

  datatype BoardState = BoardState(
    cells: Cells,
    turn: Piece,
    moveLimit: int,
    moves: seq<Move>,
    made: map<Move, Piece>)

  /** The only state invariant the source keeps: a side is to move. */
  predicate WellFormed(st: BoardState) {
    st.turn != EMP
  }

  /** movesMade(): the depth of the stack of unretracted moves. */
  function MovesMade(st: BoardState): nat {
    |st.moves|
  }

  /** makeMove(M): record M (in capturing form when T holds the opponent)
   *  with the piece on T, move the piece from F to T, empty F, pass the
   *  turn and count the move against the limit. */
  function Make(st: BoardState, m: Move): (r: BoardState)
    requires WellFormed(st)
    ensures WellFormed(r)
    ensures r.turn == Opposite(st.turn) && r.moveLimit == st.moveLimit - 1
    ensures MovesMade(r) == MovesMade(st) + 1 && r.moves[..MovesMade(st)] == st.moves
    ensures var pushed := r.moves[MovesMade(st)];
      pushed.from == m.from && pushed.to == m.to &&
      (pushed.isCapture <==> m.isCapture || Get(st.cells, m.to) == Opposite(st.turn)) &&
      r.made == st.made[pushed := Get(st.cells, m.to)]
    ensures Get(r.cells, m.from) == EMP
    ensures m.from != m.to ==> Get(r.cells, m.to) == Get(st.cells, m.from)
    ensures forall s :: s != m.from && s != m.to ==> Get(r.cells, s) == Get(st.cells, s)
  {
    var displaced := Get(st.cells, m.to);
    var pushed := if displaced == Opposite(st.turn) then CaptureMove(m) else m;
    var c1 := st.cells[Index(m.to) := Get(st.cells, m.from)];
    var c2 := c1[Index(m.from) := EMP];
    BoardState(c2, Opposite(st.turn), st.moveLimit - 1, st.moves + [pushed], st.made[pushed := displaced])
  }

  /** retract(): pop the last move, put the piece on its destination back on
   *  its origin and the recorded displaced piece back on the destination
   *  (EMP when the map has lost the entry), forget the entry, and give the
   *  move back to the limit.  The turn is flipped twice, so it is left as
   *  it was. */
  function Retract(st: BoardState): (r: BoardState)
    requires WellFormed(st) && MovesMade(st) > 0
    ensures WellFormed(r)
    ensures r.turn == st.turn && r.moveLimit == st.moveLimit + 1
    ensures r.moves == st.moves[..MovesMade(st) - 1]
    ensures var prev := st.moves[MovesMade(st) - 1];
      r.made == st.made - {prev} &&
      Get(r.cells, prev.to) == (if prev in st.made then st.made[prev] else EMP) &&
      (prev.from != prev.to ==> Get(r.cells, prev.from) == Get(st.cells, prev.to)) &&
      forall s :: s != prev.from && s != prev.to ==> Get(r.cells, s) == Get(st.cells, s)
  {
    var prev := st.moves[|st.moves| - 1];
    var last := if prev in st.made then st.made[prev] else EMP;
    var c1 := st.cells[Index(prev.from) := Get(st.cells, prev.to)];
    var c2 := c1[Index(prev.to) := last];
    var flipped := Opposite(st.turn);
    BoardState(c2, Opposite(flipped), st.moveLimit + 1, st.moves[..|st.moves| - 1], st.made - {prev})
  }

  lemma CellsEqual(a: Cells, b: Cells)
    requires forall s: Square :: Get(a, s) == Get(b, s)
    ensures a == b
  {
    forall i | 0 <= i < BOARD_SIZE * BOARD_SIZE
      ensures a[i] == b[i]
    {
      assert Get(a, SquareAt(i)) == Get(b, SquareAt(i));
    }
  }

  /** Retracting a move just made restores the cells, the move limit and the
   *  move stack, and drops the entry the move recorded; the turn is NOT
   *  restored: it is the opposite of the side that moved. */
  lemma RetractAfterMake(st: BoardState, m: Move)
    requires WellFormed(st)
    ensures var pushed := Make(st, m).moves[MovesMade(st)];
      var r := Retract(Make(st, m));
      r.cells == st.cells && r.moveLimit == st.moveLimit && r.moves == st.moves &&
      MovesMade(r) == MovesMade(st) &&
      r.turn == Opposite(st.turn) &&
      r.made == st.made - {pushed}
  {
    var mk := Make(st, m);
    var r := Retract(mk);
    var pushed := mk.moves[MovesMade(st)];
    assert mk.moves[MovesMade(mk) - 1] == pushed;
    forall s: Square
      ensures Get(r.cells, s) == Get(st.cells, s)
    {
    }
    CellsEqual(r.cells, st.cells);
  }

  /** The map of displaced pieces comes back unchanged exactly when it held
   *  no entry for the recorded move before the move was made. */
  lemma MadeRestoredIff(st: BoardState, m: Move)
    requires WellFormed(st)
    ensures var pushed := Make(st, m).moves[MovesMade(st)];
      Retract(Make(st, m)).made == st.made <==> pushed !in st.made
  {
    RetractAfterMake(st, m);
    var pushed := Make(st, m).moves[MovesMade(st)];
    if pushed in st.made {
      assert pushed !in Retract(Make(st, m)).made;
    }
  }

  /** makeMove of a legal move: the mover's piece lands on T, F empties,
   *  and the recorded move is the capturing form exactly when T held the
   *  opponent, whose piece is then the displaced one (EMP otherwise). */
  lemma MakeLegal(st: BoardState, m: Move)
    requires WellFormed(st) && !m.isCapture && Legal(st.cells, st.turn, m.from, m.to)
    ensures var r := Make(st, m);
      var pushed := r.moves[MovesMade(st)];
      Get(r.cells, m.to) == st.turn && Get(r.cells, m.from) == EMP &&
      (pushed.isCapture <==> Get(st.cells, m.to) == Opposite(st.turn)) &&
      r.made[pushed] == (if pushed.isCapture then Opposite(st.turn) else EMP)
  {
    assert Get(st.cells, m.to) != st.turn;
  }

  /** The consequence inside a search loop: right after a move has been
   *  made and retracted with no moves in between, every move that was
   *  legal for the side to move is illegal on the resulting state, since
   *  its origin holds the piece of the side that is no longer to move. */
  lemma RetractedTurnMakesMovesIllegal(st: BoardState, m: Move, next: Move)
    requires WellFormed(st) && Legal(st.cells, st.turn, next.from, next.to)
    ensures var r := Retract(Make(st, m));
      !Legal(r.cells, r.turn, next.from, next.to)
  {
    RetractAfterMake(st, m);
  }

  /** retract() as its documentation and tests intend it: the same, except
   *  that the turn is flipped once, back to the side that made the move. */
  function RetractIntended(st: BoardState): (r: BoardState)
    requires WellFormed(st) && MovesMade(st) > 0
    ensures WellFormed(r)
    ensures r.turn == Opposite(st.turn)
    ensures r.cells == Retract(st).cells && r.moveLimit == Retract(st).moveLimit
    ensures r.moves == Retract(st).moves && r.made == Retract(st).made
  {
    Retract(st).(turn := Opposite(st.turn))
  }

  /** RetractIntended undoes Make completely, the side to move included,
   *  apart from forgetting any entry the map held for the pushed move;
   *  the state is restored exactly when there was no such entry. */
  lemma RetractIntendedUndoesMake(st: BoardState, m: Move)
    requires WellFormed(st)
    ensures var pushed := Make(st, m).moves[MovesMade(st)];
      var r := RetractIntended(Make(st, m));
      r == st.(made := st.made - {pushed}) &&
      (r == st <==> pushed !in st.made)
  {
    RetractAfterMake(st, m);
    var pushed := Make(st, m).moves[MovesMade(st)];
    var r := RetractIntended(Make(st, m));
    assert r.turn == st.turn;
    if pushed in st.made {
      assert pushed !in r.made;
    } else {
      assert st.made - {pushed} == st.made;
    }
  }
}
