# Lines of Action: board and alpha-beta search

A Dafny model of two classes of a Lines of Action engine:
- `Board` (`loa/Board.java`) holds the 8x8 board, the side to move, the move-limit countdown, the stack of unretracted moves with the piece each one displaced, a winner cache, and the cached sizes of each side's contiguous regions.
- `MachinePlayer` (`loa/MachinePlayer.java`) chooses a move by alpha-beta search over `Board.makeMove`/`Board.retract`.

The model has three layers.

**Pure rules, on values.**
- `Squares`, `Moves` and `Pieces` give the square geometry, moves and pieces that the board relies on.
- `Lines` covers the line through two squares, pieces in line, blocking and legality.
- `MoveGen` is the legal-move generator.
- `Transitions` has makeMove and retract on a `BoardState` snapshot.
- `Regions` defines walks, contiguity, the region summary and the sorting of sizes.

**The `Board` class (`Boards`).** Its fields are the source's own:
- an `array` of 64 cells;
- the move stack as a `seq`;
- the displaced-piece dictionary as a `map`;
- the winner and region caches.

Each method is proved against the pure layer. For example, `makeMove` leaves `State() == Make(old(State()), m)`. The region flood fill (`numContig`) and the scan of `computeRegions` work on a `visited` `array2`. They are proved to produce, for each side, a region summary: the list holds the size of each of that side's regions, one entry per region, sorted non-increasingly. A region is a maximal set of the side's pieces joined through 8-adjacent squares (`Regions.Region`). The sizes are positive, add up to the side's piece count, and there is exactly one iff the side is contiguous.

**The search (`Machine`).**
- `Search`, `Children` and `Examine` are functions stating what `findMove` computes and which state it leaves on the board.
- The `MachinePlayer` class runs it imperatively on a `Board` and is proved equal to those functions.
- Lemmas then state what the search promises:
  - the examined moves are a prefix of the generated legal moves;
  - the loop stops early only after a child that closed the window;
  - the value is the best child value;
  - the window only narrows;
  - the root reports a move exactly when one exists, and that move is legal;
  - the move reported is the last one examined, not necessarily one of best value (see Findings).

`loa/Square.java`, `loa/Move.java`, `loa/Piece.java`, `loa/Player.java` and `loa/Game.java` are not part of this model. The modules `Squares`, `Moves` and `Pieces` model the behaviour `Board.java` relies on:
- direction codes 0..7 clockwise from north, and -1 for "none";
- `distance` is -1 off a line;
- `moveDest` returns null off the board;
- `Move.mv` returns null when the squares do not share a line;
- `captureMove` sets the capture flag.

## Model

| member | source | states |
|---|---|---|
| Pieces.Opposite | loa/Board.java:132 | the opposite of a side is the other side, never EMP; BP and WP swap |
| Squares.Direction | loa/Board.java:273 | the direction is -1 exactly when the squares coincide; otherwise its unit step has the signs of the displacement |
| Squares.Distance | loa/Board.java:274 | -1 exactly when the squares share no line; otherwise at least 1, and that many steps in the direction reach the target |
| Squares.OppositeDir | loa/Board.java:307 | the opposite direction is a valid code and reverses the unit step |
| Squares.RayShape | loa/Board.java:303-311 | the walk `moveDest(dir, 1)` up to the edge visits exactly the squares 1, 2, ... steps away, in order |
| Squares.Adjacent | loa/Board.java:374 | lists exactly the 8-neighbours of a square |
| Moves.Mv | loa/Board.java:222 | yields a move iff the two squares share a line, with those ends and no capture flag |
| Moves.CaptureMove | loa/Board.java:133-134 | same ends, capture flag set |
| Lines.LineMembership | loa/Board.java:299-313 | lineOfSquares(F, T) holds exactly the squares of F's axis through T |
| Lines.LineDistinct | loa/Board.java:299-313 | lineOfSquares lists no square twice |
| Lines.LineCountIsAxisCount | loa/Board.java:317-326 | piecesInLine equals the number of occupied squares on the whole axis through F and T |
| MoveGen.LegalTargetsSpec | loa/Board.java:220-226 | the inner loop keeps exactly the legal, non-capturing moves from S to squares of the line |
| MoveGen.AxisMovesSpec | loa/Board.java:215-227 | the axis loop keeps exactly the legal moves from S whose axis is below A and not skipped |
| MoveGen.MovesFromSpec | loa/Board.java:211-228 | from a square, exactly the legal moves from it along scanned axes (none from EMP or an opponent's piece) |
| MoveGen.GenMovesSpec | loa/Board.java:210-229 | the scan over squares 0..N-1 keeps exactly the legal moves from those squares along scanned axes |
| MoveGen.LegalMovesSpec | loa/Board.java:208-231 | a move is listed iff it is legal, non-capturing in form and on a scanned axis; every listed move starts on a mover's piece and does not land on one |
| MoveGen.AxisNeighbourOnAxis | loa/Board.java:215-219 | the neighbour the corrected generator scans an axis from lies on that axis |
| MoveGen.LineHasNeighbour | loa/Board.java:215-219 | a square on any line through S gives S an on-board neighbour on that line's axis, so the corrected generator scans every axis that holds a target |
| MoveGen.AxisTargets | loa/Board.java:215-226 | the targets on the line through an axis neighbour are exactly the legal moves along that axis |
| MoveGen.AxisMovesIntendedSpec | loa/Board.java:215-227 | with no axis skipped, the axis loop keeps exactly the legal moves from S whose axis is below A |
| MoveGen.GenMovesIntendedSpec | loa/Board.java:210-229 | with no axis skipped, the scan over squares 0..N-1 keeps exactly the legal moves from those squares |
| MoveGen.LegalMovesIntendedSpec | loa/Board.java:207-231 | the corrected generator lists a move iff it is legal (in non-capturing form): all legal moves, as documented |
| Boards.InitialBFile | loa/Board.java:433-444 | in the initial position the b-file holds black pieces on b1 and b8 and nothing else |
| Boards.InitialBFileCount | loa/Board.java:317-326 | the line through b8 and b6 holds two pieces in the initial position |
| Boards.InitialB8B6Legal | loa/Board.java:180-196 | b8-b6 is legal for black in the initial position |
| Boards.InitialFileMoveSkipped | loa/Board.java:207-231 | b8-b6 is legal in the initial position, the generator as written does not list it, and the corrected one does |
| Transitions.Make | loa/Board.java:130-146 | pushes the move (capture form iff T held the opponent), records the piece on T, moves F's piece to T, empties F, passes the turn, decrements the limit, leaves other squares alone |
| Transitions.Retract | loa/Board.java:150-171 | pops the last move, puts T's piece back on F and the recorded piece (EMP if missing) on T, drops the map entry, increments the limit; the turn is unchanged |
| Transitions.RetractAfterMake | loa/Board.java:150-171 | makeMove then retract restores cells, limit and stack, drops the pushed entry, and leaves the turn flipped |
| Transitions.MadeRestoredIff | loa/Board.java:134-137 | the displaced-piece map comes back unchanged iff it had no entry for the pushed move |
| Transitions.MakeLegal | loa/Board.java:130-146 | for a legal move the mover's piece lands on T, and the pushed move is a capture exactly when T held the opponent, whose piece is recorded |
| Transitions.RetractedTurnMakesMovesIllegal | loa/Board.java:156-165 | after makeMove and retract, no move legal before is legal for the side then to move |
| Transitions.RetractIntended | loa/Board.java:148-171 | retract as documented: the same, but the turn goes back to the side that moved |
| Transitions.RetractIntendedUndoesMake | loa/BoardTest.java:168-181 | the intended retract undoes makeMove completely (turn included) except for a pre-existing map entry, and restores the state exactly when there was none |
| Regions.Insert | loa/Board.java:415-416 | inserting into a non-increasing list keeps it non-increasing and one longer |
| Regions.InsertCounts | loa/Board.java:415-416 | insertion adds exactly the element to the multiset and to the sum |
| Regions.SortDesc | loa/Board.java:415-416 | the sort is non-increasing, a permutation, and keeps the sum |
| Regions.FillIsRegion | loa/Board.java:373-390 | a fill from an unmarked square that marks only P's squares joined to it, and leaves the marked set closed, marks exactly that square's region |
| Regions.FillInvStep | loa/Board.java:401-413 | recording a non-zero fill's size with its start square keeps the running invariant: each entry is the size of its seed's region, no two seeds are joined, and every marked piece of P is joined to a seed |
| Regions.RegionListContiguous | loa/Board.java:240-242 | a list naming each region of P once has exactly one entry iff P is contiguous |
| Regions.FillInvDone | loa/Board.java:393-418 | once every piece is marked, the sorted sizes are the sizes of P's regions, one per region (a permutation of a region list), positive, non-increasing, summing to the piece count, and one iff P is contiguous |
| Regions.JoinedSym | loa/Board.java:386-388 | joined-by-a-walk is symmetric |
| Regions.JoinedTrans | loa/Board.java:386-388 | joined-by-a-walk is transitive |
| Regions.JoinedStaysIn | loa/Board.java:386-388 | a set closed under same-coloured adjacency contains everything joined to its members |
| Boards.Layout | loa/Board.java:28-37 | square (col, row) holds CONTENTS[row][col] |
| Boards.Mark | loa/Board.java:384 | marking an unmarked square adds exactly it to the marked set |
| Boards.ScanComplete | loa/Board.java:401-417 | after the scan of all 64 squares, each side's sorted size list holds the sizes of that side's regions, one per region (a region summary) |
| Boards.Board.constructor | loa/Board.java:37-39 | the board laid out from CONTENTS, SIDE to move, default limit, empty stack and map, no winner, region caches current |
| Boards.Board.Initial | loa/Board.java:42-44 | the standard initial position with black to move |
| Boards.Board.Copy | loa/Board.java:48-51 | the copy has the source board's state and winner; its region caches are those of the initial position, and its flag is the source board's |
| Boards.Board.Initialize | loa/Board.java:54-61 | contents, side, default limit and no winner are set; the caches are recomputed only when the flag was clear |
| Boards.Board.Flatten | loa/Board.java:64-72 | cells become the row-major layout of the 8x8 array |
| Boards.Board.Clear | loa/Board.java:75-77 | the initial position with black to move |
| Boards.Board.CopyFrom | loa/Board.java:80-97 | takes the other board's cells, turn, limit, stack, map, winner and cache flag; the region lists are not copied |
| Boards.Board.NumContig | loa/Board.java:373-390 | marks only unmarked squares holding P that are joined to SQ through P's pieces, leaves SQ marked when it holds P, leaves every P-neighbour of a newly marked square marked, and returns the number it marked; 0 and no marks when P is EMP, SQ lacks P or SQ was marked |
| Boards.Board.ScanSide | loa/Board.java:401-413 | one side's step of the scan keeps the region invariant of both sides and marks S when it holds P |
| Boards.Board.ScanSquare | loa/Board.java:401-413 | one square of the scan, black then white, keeps the scan invariant and advances it by one index |
| Boards.Board.ComputeRegions | loa/Board.java:393-418 | if the flag is set nothing changes; otherwise each size list becomes its side's region summary (the sizes of its regions, one per region, non-increasing) and the flag is set |
| Boards.Board.Set | loa/Board.java:106-117 | one cell changes; the turn changes iff NEXT is given |
| Boards.Board.SetMoveLimit | loa/Board.java:121-124 | the limit is set and the winner cache invalidated |
| Boards.Board.MakeMove | loa/Board.java:130-146 | the new state is Transitions.Make of the old; the winner cache is stale and the regions are current |
| Boards.Board.Retract | loa/Board.java:150-171 | the new state is Transitions.Retract of the old; the winner cache is stale and the regions are current |
| Boards.Board.Path | loa/Board.java:272-287 | an array of Distance+1 squares, the I-th being I steps from FROM towards TO, from FROM to TO |
| Boards.Board.LineOfSquares | loa/Board.java:299-313 | equals the line of the pure layer |
| Boards.Board.WalkOnto | loa/Board.java:303-311 | appends the walk from S in direction D to the edge |
| Boards.Board.PiecesInLine | loa/Board.java:317-326 | counts the occupied squares of the line |
| Boards.Board.Blocked | loa/Board.java:356-367 | true iff T holds the mover's piece or an opposing piece stands strictly between F and T |
| Boards.Board.OpposingInside | loa/Board.java:361-365 | true iff an inner square of the path holds an opposing piece |
| Boards.Board.IsLegal | loa/Board.java:180-196 | true iff the move length equals the pieces in line, F holds the mover's piece, and the move is not blocked |
| Boards.Board.IsLegalMove | loa/Board.java:200-205 | false for null, otherwise legality of its squares |
| Boards.Board.LegalMoves | loa/Board.java:208-231 | the list is the pure generator's, hence exactly the legal moves on scanned axes (MoveGen.LegalMovesSpec) |
| Boards.Board.MovesFromSquare | loa/Board.java:211-228 | the moves generated from one square |
| Boards.Board.TargetsOnLine | loa/Board.java:220-226 | the legal moves from S to the squares of the line, in order |
| Boards.Board.Equals | loa/Board.java:329-332 | true iff the cells and the side to move agree |
| Boards.Board.GetRegionSizes | loa/Board.java:422-429 | returns the white list for WP and the black list otherwise; with sound caches, that side's region summary (the sizes of its regions, one per region, non-increasing) |
| Boards.Board.PiecesContiguous | loa/Board.java:240-242 | true iff the side's list has one size; with sound caches, iff the side is contiguous |
| Boards.Board.Winner | loa/Board.java:246-261 | a known winner is returned unchanged; otherwise a draw at limit 0, else the side to move if contiguous, else no winner (cached only when found) |
| Boards.Board.GameOver | loa/Board.java:235-237 | true iff winner() is not null; with a stale cache and sound regions, iff the limit is 0 or the side to move is contiguous |
| Machine.ChooseDepth | loa/MachinePlayer.java:151-153 | the depth is positive (3) |
| Machine.MaxOfBounds | loa/MachinePlayer.java:100-101 | the running maximum is its start or a value, and bounds all of them |
| Machine.MinOfBounds | loa/MachinePlayer.java:117-118 | the running minimum is its start or a value, and is bounded by all of them |
| Machine.Search | loa/MachinePlayer.java:85-129 | the board comes back with the same stack and limit and a map that only lost entries; the cells come back when every retract found its entry; depth 0 leaves the board alone |
| Machine.Children | loa/MachinePlayer.java:95-108 | the child loop preserves the same restoration facts |
| Machine.Examine | loa/MachinePlayer.java:96-104 | one iteration examines one more move and preserves the restoration facts |
| Machine.RetractAfterSearch | loa/MachinePlayer.java:96-99 | retract after a search below a move restores the stack, the limit and (when the search did) the cells |
| Machine.PrefixExtend | loa/MachinePlayer.java:100-107 | one more child extends the record of examined moves, values and open windows |
| Machine.ExaminePrefix | loa/MachinePlayer.java:95-107 | an iteration with an open window extends the record, and the window stays open iff no cut-off |
| Machine.ChildrenPrefix | loa/MachinePlayer.java:95-108 | the loop examines a prefix of the moves, stays open after each but the last, and stops early only on a cut-off |
| Machine.SearchNode | loa/MachinePlayer.java:85-129 | a node examines the first legal moves in order, at least one iff there is one, and stops early only after a cut-off; its value is the best child value |
| Machine.WindowNarrows | loa/MachinePlayer.java:101-118 | alpha never decreases and beta never increases as children are examined |
| Machine.RootMove | loa/MachinePlayer.java:63-74 | the root reports a move iff the position has a legal move, and that move is generated and legal |
| Machine.RootWindowOpen | loa/MachinePlayer.java:69-71 | child values strictly inside (-INFTY, INFTY) never close the root window |
| Machine.RootReportsLast | loa/MachinePlayer.java:102-104 | at the root window, when no child value reaches a bound, every legal move is examined and the recorded move is the last one generated, whatever the values |
| Machine.ReportedNotBest | loa/MachinePlayer.java:77-80 | when a maximizing node's first child scored above its last, the recorded (last) move's value is below the node's value |
| Machine.BestIndexSpec | loa/MachinePlayer.java:77-80 | recording a move when it is the first or strictly improves keeps a move iff there are children, and the kept value is not improved on by any child |
| Machine.BestIndexValue | loa/MachinePlayer.java:77-80 | the kept value is the node's value unless every child scored beyond the initial bound |
| Machine.RootMoveIntended | loa/MachinePlayer.java:77-80 | the corrected root reports a move iff the position has a legal move; the move is generated and legal, and its value is the node's value (unless every child scored beyond the initial bound) |
| Machine.MachinePlayer.constructor | loa/MachinePlayer.java:34-36 | side and evaluation set, no move found |
| Machine.MachinePlayer.SearchForMove | loa/MachinePlayer.java:63-74 | the result is the move the root Search reports for a copy of the board, at chooseDepth, maximizing for white |
| Machine.MachinePlayer.FindMove | loa/MachinePlayer.java:85-129 | returns Search's value and leaves the board in Search's state; the found move is the last root move examined when saving, else unchanged |
| Machine.MachinePlayer.MaxChildren | loa/MachinePlayer.java:92-109 | the maximizing loop equals Children from -INFTY |
| Machine.MachinePlayer.MinChildren | loa/MachinePlayer.java:110-127 | the minimizing loop equals Children from INFTY |
| Machine.MachinePlayer.SearchChild | loa/MachinePlayer.java:96-99 | makeMove, search one level down with the opposite sense, retract: the value and the board are those of Examine's child |

## Left out

- `toString`, `hashCode`, `ROW_COL` and `mergeArrays` (unused) are not modelled: they are formatting, hashing and dead code.
- `get` and `turn` are plain field reads. `get` is `Lines.Get` on `Contents()`.
- `Boards.Board.MovesMade` has no contract of its own. Its effect is stated through `Transitions.Make`/`Retract`: the stack grows and shrinks by one.
- `evaluateScore` (floating point over region sizes) is a parameter, `evaluate: (Cells, Piece) -> int`, of the `MachinePlayer`. `WINNING_VALUE` is unused.
- `getMove`, `create`, `isManual` and the `Player`/`Game` plumbing are left out: they are I/O and reporting around `searchForMove`.
- Java `null` is `None` of an `Option` (`winner`, `_foundMove`, `Move.mv`).
- A `null` that `retract` writes into a cell when the popped move has no map entry is modelled as `EMP`. This loses one difference: `piecesInLine` (loa/Board.java:317-326) counts a `null` cell as a piece, since it tests `!= EMP`, and `equals` (loa/Board.java:329-332) tells `null` from `EMP`; the model counts neither. The missing entry can arise in a depth-3 search: a capture is made, the opponent moves onto its start square, and the same capture is made again, so the inner `retract` removes the shared map key before the outer one reads it.
- The `_movesMade` map is a value here. `copyFrom` shares the same `HashMap` object between two boards, and that aliasing is not captured.
- Integers are unbounded. The limit, sizes and window values never come near the 32-bit range except `INFTY`, which is only compared.
- `Machine.MachinePlayer.FindMove`: the depth is a `nat`; a negative depth in the source would never reach 0.
- `Boards.Board.Set`: requires that `next` is not `EMP`, so the side to move stays a side. The source would accept it.
- `Boards.Board.MakeMove`: the source's `assert isLegal(move)` is not a precondition, because the search calls `makeMove` on moves that are no longer legal (see Findings).
- `Machine.MachinePlayer.SearchForMove`: requires `side == game.turn`, the source's own assertion. It states the reported move through `Search` and `RootMove` rather than restating that the argument board is untouched.
- The region caches are stated sound only through `CacheSound()`. `set`, `initialize` and `copyFrom` change cells or the flag without recomputing, as the source does. `Boards.Board.GameOver`, `Boards.Board.GetRegionSizes` and `Boards.Board.PiecesContiguous` therefore promise the contiguity meaning only when the caches were sound.
- `Boards.Board.Winner`: when the region caches are stale, its contract bounds the result only to null, `EMP` or the side to move (and `EMP` exactly at limit 0). Whether the side to move is then named follows the stale size list, not the board. The contiguity meaning is promised only with sound caches.
- The following are extracted helpers, not source methods. Each is one loop or block of the method cited in its row:
  - `Boards.Mark`, `Boards.Board.ScanSide`, `Boards.Board.ScanSquare`, `Boards.Board.WalkOnto`, `Boards.Board.OpposingInside`, `Boards.Board.MovesFromSquare`, `Boards.Board.TargetsOnLine`;
  - `Machine.MachinePlayer.MaxChildren`, `Machine.MachinePlayer.MinChildren`, `Machine.MachinePlayer.SearchChild`.
- `MoveGen.AxisMovesNext`, `MoveGen.GenMovesNext`, `Machine.ExamineChild` and `Machine.ChildrenStep` are one-step unfoldings of their functions. The loop proofs use them; they state nothing beyond the function bodies and have no row.
- `MoveGen.LegalMoves` and `Machine.MachinePlayer.FindMove` model the code as written (see Findings). The corrected generator `MoveGen.LegalMovesIntended` and the corrected root record `Machine.ReportedIntended` are stated as functions. The `Board` and `MachinePlayer` methods do not use them.

## Findings

| source | as written | input that shows it | evidently intended | confidence | as-written member | corrected member |
|---|---|---|---|---|---|---|
| loa/Board.java:150-171 | `retract` flips the turn at line 156 and again at line 165, so the side to move is left as the opponent of the side that moved | any board and move, e.g. BOARD1 with black to move and `f3-d5` (loa/BoardTest.java:168-181): after `makeMove` and `retract` white is to move, so `equals` with the original fails | retract returns to the state before the move, turn included (its documentation at lines 148-149 and testMove1) | not executed | Transitions.RetractAfterMake | Transitions.RetractIntendedUndoesMake |
| loa/Board.java:207-231 | `legalMoves` skips axis `a` of a square when `moveDest(a, 1)` is off the board (lines 216-218), although the line through the opposite neighbour is the same axis | the initial position, black to move: b8-b6 is legal (two pieces on the b-file, b7 and b6 empty), but b8's northern neighbour is off the board, so the b-file is never scanned from b8 | all legal moves are listed, as the documentation at line 207 says | not executed | Boards.InitialFileMoveSkipped | MoveGen.LegalMovesIntendedSpec |
| loa/MachinePlayer.java:77-129 | `findMove` overwrites `_foundMove` with every root move it examines (lines 102-104 and 119-121), so the move recorded is the last one examined | any position with two legal moves whose first child scores higher than the second for white (maximizing), both values strictly between -INFTY and INFTY: at the root window every move is examined and the second, worse move is recorded | the recorded move has the node's value, maximal for white and minimal for black (lines 77-80) | not executed | Machine.RootReportsLast | Machine.RootMoveIntended |

The model keeps the code as written in `Boards.Board.Retract` and in the search. `Transitions.RetractedTurnMakesMovesIllegal` shows the consequence for `findMove` right after one make/retract pair with no moves in between, as for every child of a depth-1 node. At that point, every move that was legal before is illegal for the side then to move. Deeper children also make and retract moves of their own, and each such pair flips the turn once more. `Transitions.RetractIntended` is the corrected retract. Its lemma proves that it undoes `makeMove` completely.

`MoveGen.LegalMovesSpec` states what the generator as written lists: the legal moves on axes whose first neighbour exists (`MoveGen.AxisScanned`). `Boards.InitialFileMoveSkipped` exhibits a legal move it misses. `MoveGen.LegalMovesIntended` scans an axis from the opposite neighbour when the first is off the board. `MoveGen.LegalMovesIntendedSpec` proves that it lists every legal move and nothing else.

`Machine.RootReportsLast` shows that the root records the last legal move generated whenever no child value reaches a bound of the window. `Machine.ReportedNotBest` shows that this move's value is then below the node's value whenever an earlier child scored higher (for white). `Machine.ReportedIntended` records a move only when it is the first examined or strictly improves on the recorded one. `Machine.RootMoveIntended` proves that the move it reports is legal and carries the node's value.
