/** The Board class of Board.java: 64 cells in a flat array indexed
 *  row*8+col, the side to move, the move-limit countdown, the stack of
 *  unretracted moves with the pieces they displaced, the winner cache and
 *  the cached region sizes of each side. */
module Boards {
  import opened Wrappers
  import opened Pieces
  import opened Squares
  import opened Moves
  import opened Lines
  import opened MoveGen
  import opened Transitions
  import opened Regions

  /** Default number of moves for each side that results in a draw. */
  const DEFAULT_MOVE_LIMIT: int := 60

  /** The squares a visited grid (indexed [col, row]) marks. */
  ghost function Marked(v: array2<bool>): set<Square>
    reads v
    requires v.Length0 == BOARD_SIZE && v.Length1 == BOARD_SIZE
  {
    set c, r | 0 <= c < BOARD_SIZE && 0 <= r < BOARD_SIZE && v[c, r] :: Coord(c, r)
  }

  /** The squares a visited grid leaves unmarked. */
  ghost function Unmarked(v: array2<bool>): set<Square>
    reads v
    requires v.Length0 == BOARD_SIZE && v.Length1 == BOARD_SIZE
  {
    set c, r | 0 <= c < BOARD_SIZE && 0 <= r < BOARD_SIZE && !v[c, r] :: Coord(c, r)
  }

  lemma MarkedMember(v: array2<bool>, s: Square)
    requires v.Length0 == BOARD_SIZE && v.Length1 == BOARD_SIZE
    ensures s in Marked(v) <==> v[s.col, s.row]
    ensures s in Unmarked(v) <==> !v[s.col, s.row]
  {
  }

  /** visited[S] = true on a grid where S is unmarked. */
  method Mark(v: array2<bool>, s: Square)
    requires v.Length0 == BOARD_SIZE && v.Length1 == BOARD_SIZE && !v[s.col, s.row]
    modifies v
    ensures Marked(v) == old(Marked(v)) + {s}
    ensures Unmarked(v) == old(Unmarked(v)) - {s} && s in old(Unmarked(v))
  {
    ghost var m0 := Marked(v);
    ghost var u0 := Unmarked(v);
    forall t: Square ensures (t in m0 <==> v[t.col, t.row]) && (t in u0 <==> !v[t.col, t.row]) {
      MarkedMember(v, t);
    }
    v[s.col, s.row] := true;
    forall t: Square
      ensures (t in Marked(v) <==> t in m0 || t == s) && (t in Unmarked(v) <==> t in u0 && t != s)
    {
      MarkedMember(v, t);
    }
  }

  lemma NoneMarked(v: array2<bool>)
    requires v.Length0 == BOARD_SIZE && v.Length1 == BOARD_SIZE
    requires forall c, r :: 0 <= c < BOARD_SIZE && 0 <= r < BOARD_SIZE ==> !v[c, r]
    ensures Marked(v) == {}
  {
    if s :| s in Marked(v) {
      MarkedMember(v, s);
    }
  }

  /** The standard initial position, bottom row first. */
  const INITIAL_PIECES: seq<seq<Piece>> := [
    [EMP, BP, BP, BP, BP, BP, BP, EMP],
    [WP, EMP, EMP, EMP, EMP, EMP, EMP, WP],
    [WP, EMP, EMP, EMP, EMP, EMP, EMP, WP],
    [WP, EMP, EMP, EMP, EMP, EMP, EMP, WP],
    [WP, EMP, EMP, EMP, EMP, EMP, EMP, WP],
    [WP, EMP, EMP, EMP, EMP, EMP, EMP, WP],
    [WP, EMP, EMP, EMP, EMP, EMP, EMP, WP],
    [EMP, BP, BP, BP, BP, BP, BP, EMP]
  ]

  /** An 8x8 array of rows. */
  predicate Is8x8(contents: seq<seq<Piece>>) {
    |contents| == BOARD_SIZE && forall r :: 0 <= r < BOARD_SIZE ==> |contents[r]| == BOARD_SIZE
  }

  lemma InitialIs8x8()
    ensures Is8x8(INITIAL_PIECES)
  {
  }

  /** The cells of a board laid out from CONTENTS, rows bottom first:
   *  square (col, row) holds CONTENTS[row][col]. */
  function Layout(contents: seq<seq<Piece>>): (c: Cells)
    requires Is8x8(contents)
    ensures forall s: Square :: Get(c, s) == contents[s.row][s.col]
  {
    seq(BOARD_SIZE * BOARD_SIZE, i requires 0 <= i < BOARD_SIZE * BOARD_SIZE => contents[i / BOARD_SIZE][i % BOARD_SIZE])
  }

  /** The first squares of LINE hold a single piece, at its head. */
  lemma {:induction false} OccupiedPrefix(cells: Cells, line: seq<Square>, n: int)
    requires 1 <= n <= |line| && Get(cells, line[0]) != EMP
    requires forall k :: 1 <= k < n ==> Get(cells, line[k]) == EMP
    ensures CountOccupied(cells, line[..n]) == 1
  {
    if n > 1 {
      OccupiedPrefix(cells, line, n - 1);
      assert line[..n][..n - 1] == line[..n - 1];
    } else {
      assert line[..1][..0] == [];
    }
  }

  /** The b-file of the initial position: black pieces on b1 and b8 only. */
  lemma InitialBFile(r: int)
    requires 0 <= r < BOARD_SIZE
    ensures Is8x8(INITIAL_PIECES)
    ensures Get(Layout(INITIAL_PIECES), Coord(1, r)) == if r == 0 || r == 7 then BP else EMP
  {
    InitialIs8x8();
  }

  /** The line of squares through b8 and b6 is the b-file, which holds
   *  two pieces in the initial position. */
  lemma InitialBFileCount()
    ensures Is8x8(INITIAL_PIECES)
    ensures PiecesInLine(Layout(INITIAL_PIECES), Coord(1, 7), Coord(1, 5)) == 2
  {
    InitialIs8x8();
    var cells := Layout(INITIAL_PIECES);
    var f: Square, t: Square := Coord(1, 7), Coord(1, 5);
    assert Direction(f, t) == 4;
    RayShape(f, 4);
    assert Ray(f, 0) == [];
    var line := LineOfSquares(f, t);
    assert line == [f] + Ray(f, 4) && |line| == 8;
    forall k | 1 <= k < 7
      ensures Get(cells, line[k]) == EMP
    {
      assert line[k] == Coord(1, 7 - k);
      InitialBFile(7 - k);
    }
    InitialBFile(7);
    InitialBFile(0);
    assert line[7] == Coord(1, 0);
    OccupiedPrefix(cells, line, 7);
    assert line[..8][..7] == line[..7] && line[..8] == line;
  }

  /** In the initial position b8-b6 is legal for black: the b-file holds two
   *  pieces, b6 is empty and nothing stands on b7. */
  lemma InitialB8B6Legal()
    ensures Is8x8(INITIAL_PIECES)
    ensures Legal(Layout(INITIAL_PIECES), BP, Coord(1, 7), Coord(1, 5))
  {
    InitialBFileCount();
    var cells := Layout(INITIAL_PIECES);
    var f: Square, t: Square := Coord(1, 7), Coord(1, 5);
    assert Distance(f, t) == 2;
    InitialBFile(7);
    InitialBFile(6);
    InitialBFile(5);
    assert Between(f, t) == [Coord(1, 6)];
    assert !Blocked(cells, BP, f, t);
  }

  /** legalMoves() misses legal moves: in the initial position black's
   *  b8-b6 (two pieces on the b-file, two squares down it) is legal, but
   *  the generator never scans the b-file from b8, whose northern
   *  neighbour is off the board. The corrected generator lists it. */
  lemma InitialFileMoveSkipped()
    ensures Is8x8(INITIAL_PIECES)
    ensures var cells, m := Layout(INITIAL_PIECES), Move(Coord(1, 7), Coord(1, 5), false);
      Legal(cells, BP, m.from, m.to) && m !in LegalMoves(cells, BP) && m in LegalMovesIntended(cells, BP)
  {
    InitialB8B6Legal();
    var f: Square, t: Square := Coord(1, 7), Coord(1, 5);
    assert Direction(f, t) == 4;
    assert !AxisScanned(f, t);
    LegalMovesSpec(Layout(INITIAL_PIECES), BP);
    LegalMovesIntendedSpec(Layout(INITIAL_PIECES), BP);
  }

  /** The side whose region list getRegionSizes(S) returns. */
  function SideOf(s: Piece): Piece {
    if s == WP then WP else BP
  }

  /** What winner() reports when its cache is stale and the region caches
   *  are sound: a draw when the move limit is exhausted, else the side to
   *  move if its pieces are contiguous, else no winner yet. */
  ghost function GameResult(cells: Cells, turn: Piece, moveLimit: int): Option<Piece> {
    if moveLimit == 0 then Some(EMP)
    else if Contiguous(cells, turn) then Some(turn)
    else None
  }

  class Board {
    /** Square S is at cells[Index(S)]. */
    const cells: array<Piece>
    var turn: Piece
    var moveLimit: int
    /** The unretracted moves, oldest first (top of the stack last). */
    var moves: seq<Move>
    /** The piece each recorded move displaced from its destination. */
    var movesMade: map<Move, Piece>
    var winnerKnown: bool
    /** The cached winner; None stands for the source's null. */
    var winner: Option<Piece>
    var subsetsInitialized: bool
    var whiteRegionSizes: seq<int>
    var blackRegionSizes: seq<int>

    ghost predicate Valid()
      reads this
    {
      cells.Length == BOARD_SIZE * BOARD_SIZE && turn != EMP
    }

    /** The cells as a value. */
    ghost function Contents(): Cells
      reads this, cells
      requires Valid()
    {
      cells[..]
    }

    /** The board's game state as a value. */
    ghost function State(): BoardState
      reads this, cells
      requires Valid()
    {
      BoardState(cells[..], turn, moveLimit, moves, movesMade)
    }

    /** Both cached region lists describe the current cells. */
    ghost predicate RegionsCurrent()
      reads this, cells
      requires Valid()
    {
      RegionSummary(Contents(), BP, blackRegionSizes) &&
      RegionSummary(Contents(), WP, whiteRegionSizes)
    }

    /** A board whose square (col, row) holds CONTENTS[row][col], with SIDE
     *  to move: initialize on a fresh board, whose caches start stale. */
    constructor (contents: seq<seq<Piece>>, side: Piece)
      requires Is8x8(contents) && side != EMP
      ensures Valid() && fresh(cells)
      ensures State() == BoardState(Layout(contents), side, DEFAULT_MOVE_LIMIT, [], map[])
      ensures !winnerKnown && winner == None && subsetsInitialized && RegionsCurrent()
    {
      cells := new Piece[BOARD_SIZE * BOARD_SIZE](_ => EMP);
      turn := side;
      moveLimit := 0;
      moves := [];
      movesMade := map[];
      winnerKnown := false;
      winner := None;
      subsetsInitialized := false;
      whiteRegionSizes := [];
      blackRegionSizes := [];
      new;
      Initialize(contents, side);
    }

    /** A new board in the standard initial position, black to move. */
    constructor Initial()
      ensures Valid() && fresh(cells)
      ensures State() == BoardState(Layout(INITIAL_PIECES), BP, DEFAULT_MOVE_LIMIT, [], map[])
      ensures !winnerKnown && winner == None && subsetsInitialized && RegionsCurrent()
    {
      cells := new Piece[BOARD_SIZE * BOARD_SIZE](_ => EMP);
      turn := BP;
      moveLimit := 0;
      moves := [];
      movesMade := map[];
      winnerKnown := false;
      winner := None;
      subsetsInitialized := false;
      whiteRegionSizes := [];
      blackRegionSizes := [];
      new;
      InitialIs8x8();
      Initialize(INITIAL_PIECES, BP);
    }

    /** A copy of BOARD: a board in the initial position on which copyFrom
     *  is then called.  The copy takes BOARD's state, cached winner and
     *  cache flag, but its region caches still describe the initial
     *  position, and its winner cache is marked stale. */
    constructor Copy(board: Board)
      requires board.Valid()
      ensures Valid() && fresh(cells)
      ensures State() == board.State() && winner == board.winner
      ensures !winnerKnown && subsetsInitialized == board.subsetsInitialized
      ensures RegionSummary(Layout(INITIAL_PIECES), BP, blackRegionSizes)
      ensures RegionSummary(Layout(INITIAL_PIECES), WP, whiteRegionSizes)
    {
      cells := new Piece[BOARD_SIZE * BOARD_SIZE](_ => EMP);
      turn := BP;
      moveLimit := 0;
      moves := [];
      movesMade := map[];
      winnerKnown := false;
      winner := None;
      subsetsInitialized := false;
      whiteRegionSizes := [];
      blackRegionSizes := [];
      new;
      InitialIs8x8();
      Initialize(INITIAL_PIECES, BP);
      CopyFrom(board);
    }

    /** initialize(CONTENTS, SIDE): lay out CONTENTS, give SIDE the move,
     *  reset the move limit and the cached winner (but not winnerKnown),
     *  and compute the region caches, which is a no-op when they are
     *  already flagged current.  The move stack and map are kept. */
    method Initialize(contents: seq<seq<Piece>>, side: Piece)
      requires Valid() && Is8x8(contents) && side != EMP
      modifies cells, this`turn, this`moveLimit, this`winner,
               this`subsetsInitialized, this`whiteRegionSizes, this`blackRegionSizes
      ensures Valid() && Contents() == Layout(contents)
      ensures turn == side && moveLimit == DEFAULT_MOVE_LIMIT && winner == None
      ensures subsetsInitialized
      ensures old(subsetsInitialized) ==>
        whiteRegionSizes == old(whiteRegionSizes) && blackRegionSizes == old(blackRegionSizes)
      ensures !old(subsetsInitialized) ==> RegionsCurrent()
    {
      turn := side;
      moveLimit := DEFAULT_MOVE_LIMIT;
      winner := None;
      Flatten(contents);
      ComputeRegions();
    }

    /** flatten(TWOD): copy the rows of TWOD, bottom row first, into the
     *  flat cells. */
    method Flatten(twoD: seq<seq<Piece>>)
      requires Valid() && Is8x8(twoD)
      modifies cells
      ensures Contents() == Layout(twoD)
    {
      var ind := 0;
      var i := 0;
      while i < |twoD|
        invariant 0 <= i <= BOARD_SIZE && ind == i * BOARD_SIZE
        invariant forall r, c :: 0 <= r < i && 0 <= c < BOARD_SIZE ==> cells[r * BOARD_SIZE + c] == twoD[r][c]
      {
        var j := 0;
        while j < |twoD[i]|
          invariant 0 <= j <= BOARD_SIZE && ind == i * BOARD_SIZE + j
          invariant forall r, c :: 0 <= r < i && 0 <= c < BOARD_SIZE ==> cells[r * BOARD_SIZE + c] == twoD[r][c]
          invariant forall c :: 0 <= c < j ==> cells[i * BOARD_SIZE + c] == twoD[i][c]
        {
          cells[ind] := twoD[i][j];
          ind := ind + 1;
          j := j + 1;
        }
        i := i + 1;
      }
      forall s: Square ensures Get(Contents(), s) == Get(Layout(twoD), s) {
        assert Get(Contents(), s) == cells[s.row * BOARD_SIZE + s.col];
      }
      CellsEqual(Contents(), Layout(twoD));
    }

    /** clear(): the initial configuration with black to move. */
    method Clear()
      requires Valid()
      modifies cells, this`turn, this`moveLimit, this`winner,
               this`subsetsInitialized, this`whiteRegionSizes, this`blackRegionSizes
      ensures Valid() && Contents() == Layout(INITIAL_PIECES)
      ensures turn == BP && moveLimit == DEFAULT_MOVE_LIMIT && winner == None
      ensures subsetsInitialized
      ensures old(subsetsInitialized) ==>
        whiteRegionSizes == old(whiteRegionSizes) && blackRegionSizes == old(blackRegionSizes)
      ensures !old(subsetsInitialized) ==> RegionsCurrent()
    {
      InitialIs8x8();
      Initialize(INITIAL_PIECES, BP);
    }

    /** copyFrom(BOARD): unless BOARD is this board, take its side to move,
     *  cached winner, move limit, cache flag and move map (the source shares
     *  the map object itself), and copy its cells and move stack; the
     *  region caches and winnerKnown are left alone. */
    method CopyFrom(board: Board)
      requires Valid() && board.Valid()
      modifies cells, this`turn, this`winner, this`moveLimit, this`subsetsInitialized,
               this`movesMade, this`moves
      ensures Valid() && State() == old(board.State())
      ensures winner == old(board.winner) && subsetsInitialized == old(board.subsetsInitialized)
    {
      if board == this {
        return;
      }
      turn := board.turn;
      winner := board.winner;
      moveLimit := board.moveLimit;
      subsetsInitialized := board.subsetsInitialized;
      movesMade := board.movesMade;
      var i := 0;
      while i < cells.Length
        modifies cells
        invariant 0 <= i <= cells.Length
        invariant forall k :: 0 <= k < i ==> cells[k] == old(board.cells[k])
        invariant forall k :: i <= k < cells.Length ==> board.cells[k] == old(board.cells[k])
      {
        cells[i] := board.cells[i];
        i := i + 1;
      }
      moves := [];
      var j := 0;
      while j < |board.moves|
        modifies this`moves
        invariant 0 <= j <= |board.moves| && moves == board.moves[..j]
      {
        moves := moves + [board.moves[j]];
        j := j + 1;
      }
      assert board.moves[..j] == board.moves;
    }

    /** numContig(SQ, VISITED, P): mark and count the still unmarked squares
     *  holding P that are joined to SQ (see FillPost).  Returns 0, marking
     *  nothing, when P is EMP, SQ does not hold P or SQ is already marked. */
    method NumContig(sq: Square, visited: array2<bool>, p: Piece) returns (total: int)
      requires Valid() && visited.Length0 == BOARD_SIZE && visited.Length1 == BOARD_SIZE
      modifies visited
      ensures FillPost(Contents(), p, sq, old(Marked(visited)), Marked(visited), total)
      ensures Unmarked(visited) <= old(Unmarked(visited))
      decreases Unmarked(visited)
    {
      var adj := Adjacent(sq);
      if p == EMP {
        FillNone(Contents(), p, sq, Marked(visited));
        return 0;
      }
      if cells[Index(sq)] != p {
        FillNone(Contents(), p, sq, Marked(visited));
        return 0;
      }
      MarkedMember(visited, sq);
      if visited[sq.col, sq.row] {
        FillNone(Contents(), p, sq, Marked(visited));
        return 0;
      }
      ghost var c := Contents();
      ghost var m0 := Marked(visited);
      Mark(visited, sq);
      ghost var marks := Marked(visited);
      ghost var u1 := Unmarked(visited);
      FillLoopStart(c, p, sq, adj, m0);
      total := 1;
      var i := 0;
      while i < |adj|
        invariant 0 <= i <= |adj|
        invariant marks == Marked(visited) && Contents() == c
        invariant Unmarked(visited) <= u1
        invariant FillLoop(c, p, sq, adj, i, m0, marks, total)
      {
        var t := NumContig(adj[i], visited, p);
        FillLoopStep(c, p, sq, adj, i, m0, marks, Marked(visited), total, t);
        marks := Marked(visited);
        total := total + t;
        i := i + 1;
      }
      FillLoopDone(c, p, sq, adj, m0, marks, total);
    }

    /** The step of computeRegions' scan for side P at square S (index IDX):
     *  when S holds P, fill from it and record the fill's size if it is not
     *  zero. */
    method ScanSide(s: Square, visited: array2<bool>, p: Piece, sizes: seq<int>, ghost idx: int,
                    ghost seeds: seq<Square>, ghost others: seq<int>, ghost otherSeeds: seq<Square>)
      returns (sizes': seq<int>, ghost seeds': seq<Square>)
      requires Valid() && visited.Length0 == BOARD_SIZE && visited.Length1 == BOARD_SIZE
      requires p != EMP && Index(s) == idx
      requires ScanBase(Contents(), Marked(visited), idx)
      requires FillInv(Contents(), Marked(visited), p, sizes, seeds)
      requires FillInv(Contents(), Marked(visited), Opposite(p), others, otherSeeds)
      modifies visited
      ensures ScanBase(Contents(), Marked(visited), idx)
      ensures FillInv(Contents(), Marked(visited), p, sizes', seeds')
      ensures FillInv(Contents(), Marked(visited), Opposite(p), others, otherSeeds)
      ensures Get(Contents(), s) == p ==> s in Marked(visited)
      ensures old(Marked(visited)) <= Marked(visited)
    {
      sizes', seeds' := sizes, seeds;
      if cells[Index(s)] == p {
        ghost var m0 := Marked(visited);
        var size := NumContig(s, visited, p);
        ScanFill(Contents(), m0, Marked(visited), idx, p, s, size, sizes, seeds, others, otherSeeds);
        if size != 0 {
          sizes', seeds' := sizes + [size], seeds + [s];
        }
      }
    }

    /** One square of computeRegions' scan, the one of index IDX: fill
     *  black from it, then white. */
    method ScanSquare(visited: array2<bool>, idx: int, black: seq<int>, white: seq<int>,
                      ghost seedsB: seq<Square>, ghost seedsW: seq<Square>)
      returns (black': seq<int>, white': seq<int>, ghost seedsB': seq<Square>, ghost seedsW': seq<Square>)
      requires Valid() && visited.Length0 == BOARD_SIZE && visited.Length1 == BOARD_SIZE
      requires 0 <= idx < BOARD_SIZE * BOARD_SIZE
      requires ScanInv(Contents(), Marked(visited), idx, black, seedsB, white, seedsW)
      modifies visited
      ensures ScanInv(Contents(), Marked(visited), idx + 1, black', seedsB', white', seedsW')
    {
      ghost var c := Contents();
      var s := SquareAt(idx);
      black', seedsB' := ScanSide(s, visited, BP, black, idx, seedsB, white, seedsW);
      white', seedsW' := ScanSide(s, visited, WP, white, idx, seedsW, black', seedsB');
      ScanNext(c, Marked(visited), idx, black', seedsB', white', seedsW');
    }

    /** computeRegions(): unless the cache is flagged current, scan the
     *  squares in index order, fill from each unvisited piece, record each
     *  non-empty fill's size in its side's list, sort both lists into
     *  non-increasing order and flag the cache current. */
    method ComputeRegions()
      requires Valid()
      modifies this`whiteRegionSizes, this`blackRegionSizes, this`subsetsInitialized
      ensures subsetsInitialized
      ensures old(subsetsInitialized) ==>
        whiteRegionSizes == old(whiteRegionSizes) && blackRegionSizes == old(blackRegionSizes)
      ensures !old(subsetsInitialized) ==> RegionsCurrent()
    {
      if subsetsInitialized {
        return;
      }
      var visited := new bool[BOARD_SIZE, BOARD_SIZE]((c, r) => false);
      var white: seq<int> := [];
      var black: seq<int> := [];
      ghost var c := Contents();
      ghost var seedsB: seq<Square> := [];
      ghost var seedsW: seq<Square> := [];
      NoneMarked(visited);
      ScanStart(c);
      var idx := 0;
      while idx < BOARD_SIZE * BOARD_SIZE
        modifies visited
        invariant 0 <= idx <= BOARD_SIZE * BOARD_SIZE
        invariant ScanInv(c, Marked(visited), idx, black, seedsB, white, seedsW)
      {
        black, white, seedsB, seedsW := ScanSquare(visited, idx, black, white, seedsB, seedsW);
        idx := idx + 1;
      }
      ScanComplete(c, Marked(visited), black, seedsB, white, seedsW);
      whiteRegionSizes := SortDesc(white);
      blackRegionSizes := SortDesc(black);
      subsetsInitialized := true;
    }

    /** The region caches describe the current cells whenever they are
     *  flagged current.  makeMove, retract and computeRegions keep this;
     *  set, initialize and copyFrom do not. */
    ghost predicate CacheSound()
      reads this, cells
      requires Valid()
    {
      subsetsInitialized ==> RegionsCurrent()
    }

    /** set(SQ, V, NEXT): put V on SQ and, when NEXT is not null, make NEXT
     *  the side to move.  Nothing else changes (in particular the caches
     *  are not marked stale). */
    method Set(sq: Square, v: Piece, next: Option<Piece>)
      requires Valid() && next != Some(EMP)
      modifies cells, this`turn
      ensures Valid()
      ensures Contents() == old(Contents())[Index(sq) := v]
      ensures turn == if next.Some? then next.value else old(turn)
    {
      cells[Index(sq)] := v;
      if next.Some? {
        turn := next.value;
      }
    }

    /** setMoveLimit(LIMIT): also forgets the cached winner. */
    method SetMoveLimit(limit: int)
      modifies this`moveLimit, this`winnerKnown
      ensures moveLimit == limit && !winnerKnown
    {
      moveLimit := limit;
      winnerKnown := false;
    }

    /** makeMove(M): the new state is Make of the old one (see Transitions);
     *  the winner cache is marked stale and the region caches are
     *  recomputed.  The source's assertion that M is legal is not a
     *  precondition: the search calls makeMove with moves that are not
     *  legal for the side to move (see RetractIntended). */
    method MakeMove(m: Move)
      requires Valid()
      modifies cells, this`moves, this`movesMade, this`turn, this`moveLimit, this`winnerKnown,
               this`subsetsInitialized, this`whiteRegionSizes, this`blackRegionSizes
      ensures Valid() && State() == Make(old(State()), m)
      ensures !winnerKnown && subsetsInitialized && RegionsCurrent()
    {
      ghost var st := State();
      if cells[Index(m.to)] == Opposite(turn) {
        moves := moves + [CaptureMove(m)];
        movesMade := movesMade[CaptureMove(m) := cells[Index(m.to)]];
      } else {
        moves := moves + [m];
        movesMade := movesMade[m := cells[Index(m.to)]];
      }
      Set(m.to, cells[Index(m.from)], None);
      Set(m.from, EMP, Some(Opposite(turn)));
      moveLimit := moveLimit - 1;
      winnerKnown := false;
      subsetsInitialized := false;
      assert State() == Make(st, m);
      ComputeRegions();
    }

    /** retract(): the new state is Retract of the old one (see Transitions:
     *  the turn is flipped twice, so it ends as it was); the winner cache is
     *  marked stale and the region caches are recomputed. */
    method Retract()
      requires Valid() && |moves| > 0
      modifies cells, this`moves, this`movesMade, this`turn, this`moveLimit, this`winnerKnown,
               this`subsetsInitialized, this`whiteRegionSizes, this`blackRegionSizes
      ensures Valid() && State() == Transitions.Retract(old(State()))
      ensures !winnerKnown && subsetsInitialized && RegionsCurrent()
    {
      ghost var st := State();
      var prev := moves[|moves| - 1];
      moves := moves[..|moves| - 1];
      var last := if prev in movesMade then movesMade[prev] else EMP;
      Set(prev.from, cells[Index(prev.to)], None);
      Set(prev.to, last, Some(Opposite(turn)));
      turn := Opposite(turn);
      movesMade := movesMade - {prev};
      winnerKnown := false;
      moveLimit := moveLimit + 1;
      subsetsInitialized := false;
      assert State() == Transitions.Retract(st);
      ComputeRegions();
    }

    /** path(FROM, TO): the squares from FROM to TO inclusive, one step
     *  apart in the direction of TO.  The source indexes an array of
     *  distance + 1 squares, so FROM and TO must share a line. */
    method Path(from: Square, to: Square) returns (path: array<Square>)
      requires OnLine(from, to)
      ensures fresh(path)
      ensures path.Length == Distance(from, to) + 1
      ensures path[0] == from && path[path.Length - 1] == to
      ensures forall i :: 0 <= i < path.Length ==> path[i] == Step(from, Direction(from, to), i)
    {
      var dir: Dir := Direction(from, to);
      var dis := Distance(from, to);
      path := new Square[dis + 1](_ => from);
      var col, row := from.col, from.row;
      path[0] := Coord(col, row);
      var i := 1;
      while i <= dis
        invariant 1 <= i <= dis + 1
        invariant col == Offset(from.col, DCol(dir), i - 1) && row == Offset(from.row, DRow(dir), i - 1)
        invariant forall k :: 0 <= k < i ==> path[k] == Step(from, dir, k)
      {
        col := col + DCol(dir);
        row := row + DRow(dir);
        StepWithin(from, dir, dis, i);
        path[i] := Coord(col, row);
        i := i + 1;
      }
    }

    /** lineOfSquares(F, T): walk from F towards T to the edge, then from
     *  F's neighbour in the opposite direction to the other edge. */
    method LineOfSquares(f: Square, t: Square) returns (line: seq<Square>)
      ensures line == Lines.LineOfSquares(f, t)
    {
      var dir := Direction(f, t);
      line := WalkOnto([], Some(f), dir);
      var back := OppositeDir(dir);
      line := WalkOnto(line, MoveDest(f, back, 1), back);
      LineWalks(f, t);
    }

    /** Each of lineOfSquares' two loops: append S and every square after
     *  it in direction D, up to the edge, to LINE. */
    method WalkOnto(line: seq<Square>, s: Option<Square>, d: int) returns (r: seq<Square>)
      requires -1 <= d < 8
      ensures r == line + Walk(s, d)
    {
      r := line;
      var cur := s;
      while cur.Some?
        invariant r + Walk(cur, d) == line + Walk(s, d)
        decreases |Walk(cur, d)|
      {
        WalkAppend(r, cur.value, d);
        r := r + [cur.value];
        cur := MoveDest(cur.value, d, 1);
      }
    }

    /** piecesInLine(FROM, TO): count the occupied squares of the line. */
    method PiecesInLine(from: Square, to: Square) returns (pieces: int)
      requires Valid()
      ensures pieces == Lines.PiecesInLine(Contents(), from, to)
    {
      var line := LineOfSquares(from, to);
      pieces := 0;
      var i := 0;
      while i < |line|
        invariant 0 <= i <= |line|
        invariant pieces == CountOccupied(Contents(), line[..i])
      {
        assert line[..i + 1][..i] == line[..i];
        if cells[Index(line[i])] != EMP {
          pieces := pieces + 1;
        }
        i := i + 1;
      }
      assert line[..|line|] == line;
    }

    /** blocked(FROM, TO): TO holds the side to move's piece, or a square
     *  strictly inside the path holds the opponent's. */
    method Blocked(from: Square, to: Square) returns (b: bool)
      requires Valid() && OnLine(from, to)
      ensures b == Lines.Blocked(Contents(), turn, from, to)
    {
      var path := Path(from, to);
      if cells[Index(to)] == turn {
        return true;
      }
      b := OpposingInside(path);
      PathInterior(from, to, path[..]);
      if b {
        ghost var k :| 1 <= k < path.Length - 1 && Get(Contents(), path[k]) == Opposite(turn);
        assert Between(from, to)[k - 1] == path[k];
      }
    }

    /** The scan of blocked(): true iff a square of PATH other than its two
     *  ends holds a piece of the side not to move. */
    method OpposingInside(path: array<Square>) returns (found: bool)
      requires Valid()
      ensures found <==> exists k :: 1 <= k < path.Length - 1 && Get(Contents(), path[k]) == Opposite(turn)
    {
      var i := 1;
      while i < path.Length - 1
        invariant 1 <= i
        invariant forall k :: 1 <= k < i && k < path.Length - 1 ==> Get(Contents(), path[k]) != Opposite(turn)
      {
        if cells[Index(path[i])] == Opposite(turn) {
          return true;
        }
        i := i + 1;
      }
      return false;
    }

    /** isLegal(FROM, TO) for the side to move. */
    method IsLegal(from: Square, to: Square) returns (b: bool)
      requires Valid()
      ensures b == Legal(Contents(), turn, from, to)
    {
      var pieces := PiecesInLine(from, to);
      if Distance(from, to) != pieces {
        return false;
      }
      if cells[Index(from)] != turn {
        return false;
      }
      var blocked := Blocked(from, to);
      if blocked {
        return false;
      } else {
        return true;
      }
    }

    /** isLegal(MOVE): false for a null move; the capture mark is ignored. */
    method IsLegalMove(m: Option<Move>) returns (b: bool)
      requires Valid()
      ensures b <==> m.Some? && Legal(Contents(), turn, m.value.from, m.value.to)
    {
      if m.None? {
        return false;
      }
      b := IsLegal(m.value.from, m.value.to);
    }

    /** legalMoves(): scan the squares in index order, collecting the moves
     *  generated from each (see MovesFromSquare). */
    method LegalMoves() returns (legal: seq<Move>)
      requires Valid()
      ensures legal == MoveGen.LegalMoves(Contents(), turn)
    {
      legal := [];
      ghost var c := Contents();
      var idx := 0;
      while idx < BOARD_SIZE * BOARD_SIZE
        invariant 0 <= idx <= BOARD_SIZE * BOARD_SIZE
        invariant legal == GenMoves(c, turn, idx)
      {
        var found := MovesFromSquare(SquareAt(idx));
        GenMovesNext(c, turn, idx);
        legal := legal + found;
        idx := idx + 1;
      }
    }

    /** The body of legalMoves' scan for square S: nothing from an empty
     *  square or an opponent's piece; from a piece of the side to move,
     *  each axis 0..3 whose first-direction neighbour is on the board
     *  contributes the legal moves to the squares of its line. */
    method MovesFromSquare(s: Square) returns (found: seq<Move>)
      requires Valid()
      ensures found == MovesFrom(Contents(), turn, s)
    {
      found := [];
      if cells[Index(s)] == EMP {
        return;
      }
      if cells[Index(s)] == turn {
        var a := 0;
        while a < 4
          invariant 0 <= a <= 4
          invariant found == AxisMoves(Contents(), turn, s, a)
        {
          var adj := MoveDest(s, a, 1);
          AxisMovesNext(Contents(), turn, s, a);
          if adj.Some? {
            var possibilities := LineOfSquares(s, adj.value);
            var here := TargetsOnLine(s, possibilities);
            found := found + here;
          }
          a := a + 1;
        }
      }
    }

    /** The innermost loop of legalMoves: the legal moves from S to the
     *  squares of LINE, in order. */
    method TargetsOnLine(s: Square, line: seq<Square>) returns (here: seq<Move>)
      requires Valid()
      ensures here == LegalTargets(Contents(), turn, s, line)
    {
      here := [];
      var j := 0;
      while j < |line|
        invariant 0 <= j <= |line|
        invariant here == LegalTargets(Contents(), turn, s, line[..j])
      {
        assert line[..j + 1][..j] == line[..j];
        var m := Mv(s, line[j]);
        var ok := IsLegalMove(m);
        if ok {
          here := here + [m.value];
        }
        j := j + 1;
      }
      assert line[..|line|] == line;
    }

    /** equals(OBJ): the same cells and the same side to move. */
    method Equals(b: Board) returns (eq: bool)
      requires Valid() && b.Valid()
      ensures eq <==> Contents() == b.Contents() && turn == b.turn
    {
      var i := 0;
      while i < cells.Length
        invariant 0 <= i <= cells.Length
        invariant cells[..i] == b.cells[..i]
      {
        if cells[i] != b.cells[i] {
          assert Contents()[i] != b.Contents()[i];
          return false;
        }
        assert cells[..i + 1] == cells[..i] + [cells[i]];
        assert b.cells[..i + 1] == b.cells[..i] + [b.cells[i]];
        i := i + 1;
      }
      assert cells[..] == cells[..i] && b.cells[..] == b.cells[..i];
      eq := turn == b.turn;
    }

    /** getRegionSizes(S): compute the caches if they are stale, then the
     *  white list for WP and the black list for anything else.  When the
     *  caches were sound on entry the list summarises S's regions. */
    method GetRegionSizes(s: Piece) returns (sizes: seq<int>)
      requires Valid()
      modifies this`whiteRegionSizes, this`blackRegionSizes, this`subsetsInitialized
      ensures subsetsInitialized
      ensures sizes == if s == WP then whiteRegionSizes else blackRegionSizes
      ensures old(subsetsInitialized) ==>
        whiteRegionSizes == old(whiteRegionSizes) && blackRegionSizes == old(blackRegionSizes)
      ensures old(CacheSound()) ==> CacheSound() && RegionSummary(Contents(), SideOf(s), sizes)
    {
      ComputeRegions();
      if s == WP {
        return whiteRegionSizes;
      } else {
        return blackRegionSizes;
      }
    }

    /** piecesContiguous(SIDE): the region list has exactly one entry; with
     *  sound caches, exactly when SIDE's pieces form one connected group. */
    method PiecesContiguous(side: Piece) returns (b: bool)
      requires Valid()
      modifies this`whiteRegionSizes, this`blackRegionSizes, this`subsetsInitialized
      ensures subsetsInitialized
      ensures b <==> |if side == WP then whiteRegionSizes else blackRegionSizes| == 1
      ensures old(subsetsInitialized) ==>
        whiteRegionSizes == old(whiteRegionSizes) && blackRegionSizes == old(blackRegionSizes)
      ensures old(CacheSound()) ==> CacheSound() && (b <==> Contiguous(Contents(), SideOf(side)))
    {
      var sizes := GetRegionSizes(side);
      b := |sizes| == 1;
    }

    /** winner(): the cached winner when it is known; otherwise a draw (EMP)
     *  when the move limit is exhausted, else the side to move when its
     *  pieces are contiguous (both cached as known), else null with the
     *  cache left unknown.  The side that just moved is never checked. */
    method Winner() returns (w: Option<Piece>)
      requires Valid()
      modifies this`winner, this`winnerKnown, this`whiteRegionSizes, this`blackRegionSizes,
               this`subsetsInitialized
      ensures w == winner
      ensures old(winnerKnown) ==>
        w == old(winner) && winnerKnown && subsetsInitialized == old(subsetsInitialized) &&
        whiteRegionSizes == old(whiteRegionSizes) && blackRegionSizes == old(blackRegionSizes)
      ensures !old(winnerKnown) ==>
        (winnerKnown <==> w.Some?) && (moveLimit == 0 <==> w == Some(EMP)) &&
        (w.None? || w == Some(EMP) || w == Some(turn))
      ensures !old(winnerKnown) && old(CacheSound()) ==>
        CacheSound() && w == GameResult(Contents(), turn, moveLimit)
    {
      if !winnerKnown {
        if moveLimit == 0 {
          winner := Some(EMP);
          winnerKnown := true;
        } else {
          var contiguous := PiecesContiguous(turn);
          if contiguous {
            winner := Some(turn);
            winnerKnown := true;
          } else {
            winner := None;
            winnerKnown := false;
          }
        }
      }
      return winner;
    }

    /** gameOver(): winner() is not null. */
    method GameOver() returns (over: bool)
      requires Valid()
      modifies this`winner, this`winnerKnown, this`whiteRegionSizes, this`blackRegionSizes,
               this`subsetsInitialized
      ensures over <==> winner.Some?
      ensures old(winnerKnown) ==> (over <==> old(winner).Some?)
      ensures !old(winnerKnown) && old(CacheSound()) ==>
        (over <==> moveLimit == 0 || Contiguous(Contents(), turn))
    {
      var w := Winner();
      over := w.Some?;
    }

    /** movesMade(): the number of unretracted moves. */
    function MovesMade(): nat
      reads this
    {
      |moves|
    }
  }

  /** The squares a walk visits from the square S (if any) onwards in
   *  direction D: S, then each next square until the edge. */
  function Walk(s: Option<Square>, d: int): seq<Square>
    requires -1 <= d < 8
  {
    if s.None? then [] else [s.value] + RayOrEmpty(s.value, d)
  }

  /** One step of a walk. */
  lemma WalkStep(s: Square, d: int)
    requires -1 <= d < 8
    ensures RayOrEmpty(s, d) == Walk(MoveDest(s, d, 1), d)
  {
  }

  /** The squares of the path from F to T other than its ends are the
   *  squares between F and T. */
  lemma PathInterior(f: Square, t: Square, path: seq<Square>)
    requires OnLine(f, t) && |path| == Distance(f, t) + 1
    requires forall i :: 0 <= i < |path| ==> path[i] == Step(f, Direction(f, t), i)
    ensures |Between(f, t)| == |path| - 2
    ensures forall k :: 0 <= k < |Between(f, t)| ==> Between(f, t)[k] == path[k + 1]
  {
  }

  /** The line through F and T is the walk from F towards T followed by
   *  the walk from F's neighbour in the opposite direction. */
  lemma LineWalks(f: Square, t: Square)
    ensures var dir := Direction(f, t);
      var back := OppositeDir(dir);
      ([] + Walk(Some(f), dir)) + Walk(MoveDest(f, back, 1), back) == Lines.LineOfSquares(f, t)
  {
    var dir := Direction(f, t);
    var back := OppositeDir(dir);
    WalkStep(f, back);
    assert [] + Walk(Some(f), dir) == [f] + RayOrEmpty(f, dir);
  }

  /** Taking the first square of a walk onto the squares gathered so far
   *  leaves the walk from the next square. */
  lemma WalkAppend(line: seq<Square>, v: Square, d: int)
    requires -1 <= d < 8
    ensures (line + [v]) + Walk(MoveDest(v, d, 1), d) == line + Walk(Some(v), d)
  {
    WalkStep(v, d);
  }

  /** The squares between a square and one N steps away are on the board. */
  lemma StepWithin(f: Square, d: Dir, n: int, k: int)
    requires 0 <= k <= n && Exists(Step(f, d, n).col, Step(f, d, n).row)
    ensures Exists(Step(f, d, k).col, Step(f, d, k).row)
  {
    var _ := RayLength(f, d);
  }

  /** The invariant of computeRegions' scan after the squares of index
   *  0..IDX-1: the marked squares M hold pieces and are closed under
   *  same-coloured adjacency, every piece scanned so far is marked, and
   *  each side's list records its fills. */
  ghost predicate ScanInv(c: Cells, m: set<Square>, idx: int,
                          black: seq<int>, seedsB: seq<Square>, white: seq<int>, seedsW: seq<Square>) {
    ScanBase(c, m, idx) && FillInv(c, m, BP, black, seedsB) && FillInv(c, m, WP, white, seedsW)
  }

  /** The side-independent part of ScanInv. */
  ghost predicate ScanBase(c: Cells, m: set<Square>, idx: int) {
    0 <= idx <= BOARD_SIZE * BOARD_SIZE &&
    (forall x :: x in m ==> Get(c, x) != EMP) &&
    SameColorClosed(c, m) &&
    (forall s: Square :: Index(s) < idx && Get(c, s) != EMP ==> s in m)
  }

  lemma ScanStart(c: Cells)
    ensures ScanInv(c, {}, 0, [], [], [], [])
  {
    FillInvInit(c, BP);
    FillInvInit(c, WP);
  }

  /** One fill of side P from the scanned square S (index IDX) keeps the
   *  scan invariant at IDX once SIZES gains the fill's size (when it is
   *  non-zero), with S as its seed. */
  lemma ScanFill(c: Cells, m0: set<Square>, m1: set<Square>, idx: int, p: Piece, s: Square, total: int,
                 sizes: seq<int>, seeds: seq<Square>, others: seq<int>, otherSeeds: seq<Square>)
    requires p != EMP && Get(c, s) == p
    requires ScanBase(c, m0, idx) && FillInv(c, m0, p, sizes, seeds)
    requires FillInv(c, m0, Opposite(p), others, otherSeeds)
    requires FillPost(c, p, s, m0, m1, total)
    ensures ScanBase(c, m1, idx) && FillInv(c, m1, Opposite(p), others, otherSeeds)
    ensures total != 0 ==> FillInv(c, m1, p, sizes + [total], seeds + [s])
    ensures total == 0 ==> FillInv(c, m1, p, sizes, seeds)
  {
    var n := m1 - m0;
    assert m1 == m0 + n;
    assert m0 !! n;
    ClosedAfterFill(c, p, s, m0, n);
    FillInvStep(c, m0, n, p, sizes, seeds, s, total);
    FillInvOther(c, m0, n, p, Opposite(p), others, otherSeeds);
  }

  /** Adding a closed fill to a closed set keeps it closed. */
  lemma ClosedAfterFill(c: Cells, p: Piece, s: Square, m0: set<Square>, n: set<Square>)
    requires SameColorClosed(c, m0) && Grown(c, p, s, n, m0 + n)
    ensures SameColorClosed(c, m0 + n)
  {
  }

  /** Square IDX has been dealt with. */
  lemma ScanNext(c: Cells, m: set<Square>, idx: int,
                 black: seq<int>, seedsB: seq<Square>, white: seq<int>, seedsW: seq<Square>)
    requires 0 <= idx < BOARD_SIZE * BOARD_SIZE
    requires ScanInv(c, m, idx, black, seedsB, white, seedsW)
    requires c[idx] != EMP ==> SquareAt(idx) in m
    ensures ScanInv(c, m, idx + 1, black, seedsB, white, seedsW)
  {
    forall s: Square | Index(s) < idx + 1 && Get(c, s) != EMP ensures s in m {
      if Index(s) == idx {
        IndexRoundTrip(s);
      }
    }
  }

  /** After the whole board: both sorted lists summarise their side. */
  lemma ScanComplete(c: Cells, m: set<Square>,
                     black: seq<int>, seedsB: seq<Square>, white: seq<int>, seedsW: seq<Square>)
    requires ScanInv(c, m, BOARD_SIZE * BOARD_SIZE, black, seedsB, white, seedsW)
    ensures RegionSummary(c, BP, SortDesc(black)) && RegionSummary(c, WP, SortDesc(white))
  {
    FillInvDone(c, m, BP, black, seedsB);
    FillInvDone(c, m, WP, white, seedsW);
  }

  /** The squares N a fill from SQ marked hold P and are joined to SQ, and
   *  every P-neighbour of one of them is marked. */
  ghost predicate Grown(c: Cells, p: Piece, sq: Square, n: set<Square>, marked: set<Square>) {
    (forall x :: x in n ==> Get(c, x) == p && Joined(c, p, sq, x)) &&
    (forall x, y :: x in n && Adj(x, y) && Get(c, y) == p ==> y in marked)
  }

  /** What numContig(SQ, _, P) does to the marks, from M0 to M1, returning
   *  TOTAL: it only adds marks, TOTAL of them, all on P's squares joined to
   *  SQ and closed under P-adjacency; SQ ends marked when it holds P; and
   *  nothing is marked when P is EMP, SQ does not hold P or SQ was marked. */
  ghost predicate FillPost(c: Cells, p: Piece, sq: Square, m0: set<Square>, m1: set<Square>, total: int) {
    m0 <= m1 && total == |m1 - m0| && Grown(c, p, sq, m1 - m0, m1) &&
    ((p == EMP || Get(c, sq) != p || sq in m0) ==> total == 0 && m1 == m0) &&
    (p != EMP && Get(c, sq) == p ==> sq in m1)
  }

  /** The loop of numContig after the neighbours ADJ[..I] of SQ. */
  ghost predicate FillLoop(c: Cells, p: Piece, sq: Square, adj: seq<Square>, i: int,
                           m0: set<Square>, marks: set<Square>, total: int) {
    0 <= i <= |adj| &&
    m0 + {sq} <= marks && total == |marks - m0| &&
    (forall x :: x in marks - m0 ==> Get(c, x) == p && Joined(c, p, sq, x)) &&
    (forall x, y :: x in marks - m0 && x != sq && Adj(x, y) && Get(c, y) == p ==> y in marks) &&
    (forall j :: 0 <= j < i && Get(c, adj[j]) == p ==> adj[j] in marks)
  }

  lemma FillNone(c: Cells, p: Piece, sq: Square, m: set<Square>)
    requires p == EMP || Get(c, sq) != p || sq in m
    ensures FillPost(c, p, sq, m, m, 0)
  {
    assert m - m == {};
  }

  lemma FillLoopStart(c: Cells, p: Piece, sq: Square, adj: seq<Square>, m0: set<Square>)
    requires Get(c, sq) == p && sq !in m0
    ensures FillLoop(c, p, sq, adj, 0, m0, m0 + {sq}, 1)
  {
    assert (m0 + {sq}) - m0 == {sq};
    JoinedRefl(c, p, sq);
  }

  /** The fill from neighbour ADJ[I] of SQ adds squares joined to SQ. */
  lemma FillLoopStep(c: Cells, p: Piece, sq: Square, adj: seq<Square>, i: int,
                     m0: set<Square>, m1: set<Square>, m2: set<Square>, total: int, t: int)
    requires 0 <= i < |adj| && Adj(sq, adj[i]) && p != EMP && Get(c, sq) == p
    requires FillLoop(c, p, sq, adj, i, m0, m1, total)
    requires FillPost(c, p, adj[i], m1, m2, t)
    ensures FillLoop(c, p, sq, adj, i + 1, m0, m2, total + t)
  {
    forall x | x in m2 - m1 ensures Joined(c, p, sq, x) {
      JoinStep(c, p, sq, adj[i], x);
    }
    DiffSplit(m0, m1, m2);
    forall j | 0 <= j < i + 1 && Get(c, adj[j]) == p
      ensures adj[j] in m2
    {
      if j < i {
        assert adj[j] in m1;
      }
    }
  }

  /** Once every neighbour of SQ has been visited the fill is closed. */
  lemma FillLoopDone(c: Cells, p: Piece, sq: Square, adj: seq<Square>,
                     m0: set<Square>, m: set<Square>, total: int)
    requires p != EMP && Get(c, sq) == p && sq !in m0
    requires forall t :: t in adj <==> Adj(sq, t)
    requires FillLoop(c, p, sq, adj, |adj|, m0, m, total)
    ensures FillPost(c, p, sq, m0, m, total)
  {
    forall y | Adj(sq, y) && Get(c, y) == p ensures y in m {
      var j :| 0 <= j < |adj| && adj[j] == y;
    }
  }

  /** |C - A| splits at an intermediate B. */
  lemma DiffSplit<T>(a: set<T>, b: set<T>, c: set<T>)
    requires a <= b <= c
    ensures |c - a| == |b - a| + |c - b|
  {
    assert c - a == (b - a) + (c - b);
    assert (b - a) !! (c - b);
  }
}
