/** The alpha-beta search of MachinePlayer.java, first as functions on board
 *  states (what findMove computes and what it leaves on the board), then as
 *  the MachinePlayer class whose methods drive a Board. */
module Machine {
  import opened Wrappers
  import opened Pieces
  import opened Squares
  import opened Moves
  import opened Lines
  import opened MoveGen
  import opened Transitions
  import opened Boards

  /** A magnitude greater than a normal value (Integer.MAX_VALUE). */
  const INFTY: int := 0x7FFF_FFFF

  /** chooseDepth(): the fixed search depth. */
  function ChooseDepth(): (d: nat)
    ensures d > 0
  {
    3
  }

  /** The largest of INIT and the values VS. */
  function MaxOf(init: int, vs: seq<int>): int {
    if vs == [] then init else Max(MaxOf(init, vs[..|vs| - 1]), vs[|vs| - 1])
  }

  /** The smallest of INIT and the values VS. */
  function MinOf(init: int, vs: seq<int>): int {
    if vs == [] then init else Min(MinOf(init, vs[..|vs| - 1]), vs[|vs| - 1])
  }

  /** MaxOf is INIT or one of VS, and no smaller than any of them. */
  lemma {:induction false} MaxOfBounds(init: int, vs: seq<int>)
    ensures MaxOf(init, vs) >= init && (forall v :: v in vs ==> MaxOf(init, vs) >= v)
    ensures MaxOf(init, vs) == init || MaxOf(init, vs) in vs
  {
    if vs != [] {
      var front := vs[..|vs| - 1];
      MaxOfBounds(init, front);
      assert vs == front + [vs[|vs| - 1]];
    }
  }

  /** MinOf is INIT or one of VS, and no larger than any of them. */
  lemma {:induction false} MinOfBounds(init: int, vs: seq<int>)
    ensures MinOf(init, vs) <= init && (forall v :: v in vs ==> MinOf(init, vs) <= v)
    ensures MinOf(init, vs) == init || MinOf(init, vs) in vs
  {
    if vs != [] {
      var front := vs[..|vs| - 1];
      MinOfBounds(init, front);
      assert vs == front + [vs[|vs| - 1]];
    }
  }

  /** The value a node of sense SENSE reports for child values VS: the
   *  maximum (from -INFTY) when SENSE is 1, else the minimum (from INFTY). */
  function Best(sense: int, vs: seq<int>): int {
    if sense == 1 then MaxOf(-INFTY, vs) else MinOf(INFTY, vs)
  }

  /** The alpha of the window after the child values VS: a maximizing node
   *  raises it to each value. */
  function AlphaAfter(sense: int, alpha: int, vs: seq<int>): int {
    if sense == 1 then MaxOf(alpha, vs) else alpha
  }

  /** The beta of the window after the child values VS: a minimizing node
   *  lowers it to each value. */
  function BetaAfter(sense: int, beta: int, vs: seq<int>): int {
    if sense == 1 then beta else MinOf(beta, vs)
  }

  /** The window is still open after the child values VS: no cut-off. */
  predicate Open(sense: int, alpha: int, beta: int, vs: seq<int>) {
    AlphaAfter(sense, alpha, vs) < BetaAfter(sense, beta, vs)
  }

  /** One node of the search: the value found so far, the window (alpha,
   *  beta) the loop has narrowed to, the board state left behind, the moves
   *  the loop examined (in order) with their values, and whether every
   *  retract inside found the displaced piece it recorded. */
  datatype Node = Node(value: int, alpha: int, beta: int, state: BoardState,
                       examined: seq<Move>, values: seq<int>, clean: bool)

  /** What the board undergoes in a search from ST: the move stack and the
   *  move limit come back, entries of the map may only be lost, and the
   *  cells come back when every retract found its entry. */
  predicate Restores(st: BoardState, after: BoardState) {
    WellFormed(after) && after.moves == st.moves && after.moveLimit == st.moveLimit &&
    (forall k :: k in after.made ==> k in st.made && after.made[k] == st.made[k])
  }

  /** findMove(BOARD, DEPTH, _, SENSE, ALPHA, BETA) on the state ST with
   *  the static evaluation EVAL: at depth 0 the evaluation for the side to
   *  move; otherwise the child loop over the legal moves of ST, starting
   *  from -INFTY when maximizing and INFTY when minimizing. */
  function Search(st: BoardState, depth: nat, sense: int, alpha: int, beta: int,
                  eval: (Cells, Piece) -> int): (r: Node)
    requires WellFormed(st)
    ensures Restores(st, r.state) && (r.clean ==> r.state.cells == st.cells)
    ensures depth == 0 ==> r.state == st && r.examined == []
    decreases depth, 2
  {
    if depth == 0 then Node(eval(st.cells, st.turn), alpha, beta, st, [], [], true)
    else
      var init := Node(if sense == 1 then -INFTY else INFTY, alpha, beta, st, [], [], true);
      Children(depth, sense, eval, LegalMoves(st.cells, st.turn), init)
  }

  /** The child loop of a node of depth DEPTH over the moves MS, after the
   *  children in ACC: examine the next move and stop after a child that
   *  closes the window (beta <= alpha). */
  function Children(depth: nat, sense: int, eval: (Cells, Piece) -> int,
                    ms: seq<Move>, acc: Node): (r: Node)
    requires depth > 0 && WellFormed(acc.state) && |acc.examined| <= |ms|
    ensures Restores(acc.state, r.state) && (r.clean ==> acc.clean && r.state.cells == acc.state.cells)
    decreases depth, 1, |ms| - |acc.examined|
  {
    if |acc.examined| == |ms| then acc
    else
      var next := Examine(depth, sense, eval, ms, acc);
      if next.beta <= next.alpha then next
      else Children(depth, sense, eval, ms, next)
  }

  /** One iteration of the child loop: make the next move of MS, search
   *  below it with the current window and the opposite sense, retract, and
   *  take the child's value into the node's value and window. */
  function Examine(depth: nat, sense: int, eval: (Cells, Piece) -> int,
                   ms: seq<Move>, acc: Node): (r: Node)
    requires depth > 0 && WellFormed(acc.state) && |acc.examined| < |ms|
    ensures Restores(acc.state, r.state) && (r.clean ==> acc.clean && r.state.cells == acc.state.cells)
    ensures |r.examined| == |acc.examined| + 1
    decreases depth, 0
  {
    var m := ms[|acc.examined|];
    var made := Make(acc.state, m);
    var child := Search(made, depth - 1, -sense, acc.alpha, acc.beta, eval);
    var pushed := made.moves[MovesMade(acc.state)];
    RetractAfterSearch(acc.state, m, child.state);
    if sense == 1 then
      Node(Max(acc.value, child.value), Max(acc.alpha, child.value), acc.beta,
           Transitions.Retract(child.state), acc.examined + [m], acc.values + [child.value],
           acc.clean && child.clean && pushed in child.state.made)
    else
      Node(Min(acc.value, child.value), acc.alpha, Min(acc.beta, child.value),
           Transitions.Retract(child.state), acc.examined + [m], acc.values + [child.value],
           acc.clean && child.clean && pushed in child.state.made)
  }

  /** What Examine does, stated through the child search it runs: the
   *  board is left as retract leaves the child's, and the node's value and
   *  window take in the child's value (kept out of Examine's own contract,
   *  where the search would unfold itself). */
  lemma ExamineChild(depth: nat, sense: int, eval: (Cells, Piece) -> int, ms: seq<Move>, acc: Node)
    requires depth > 0 && WellFormed(acc.state) && |acc.examined| < |ms|
    ensures var child := Search(Make(acc.state, ms[|acc.examined|]), depth - 1, -sense, acc.alpha, acc.beta, eval);
      var r := Examine(depth, sense, eval, ms, acc);
      r.state == Transitions.Retract(child.state) &&
      r.examined == acc.examined + [ms[|acc.examined|]] &&
      r.value == (if sense == 1 then Max(acc.value, child.value) else Min(acc.value, child.value)) &&
      r.alpha == (if sense == 1 then Max(acc.alpha, child.value) else acc.alpha) &&
      r.beta == (if sense == 1 then acc.beta else Min(acc.beta, child.value))
  {
  }

  /** One turn of the child loop: examine the next move, then stop if the
   *  window closed and go on otherwise. */
  lemma ChildrenStep(depth: nat, sense: int, eval: (Cells, Piece) -> int, ms: seq<Move>, acc: Node)
    requires depth > 0 && WellFormed(acc.state) && |acc.examined| < |ms|
    ensures var next := Examine(depth, sense, eval, ms, acc);
      Children(depth, sense, eval, ms, acc) ==
        if next.beta <= next.alpha then next else Children(depth, sense, eval, ms, next)
  {
  }

  /** Retracting the move M after a search below it: the move stack, the
   *  move limit and the map come back as after retracting M at once (the
   *  map possibly missing more entries), and so do the cells when the
   *  search restored them and left M's entry in the map. */
  lemma RetractAfterSearch(st: BoardState, m: Move, after: BoardState)
    requires WellFormed(st) && Restores(Make(st, m), after)
    ensures var pushed := Make(st, m).moves[MovesMade(st)];
      Restores(st, Transitions.Retract(after)) &&
      (after.cells == Make(st, m).cells && pushed in after.made ==> Transitions.Retract(after).cells == st.cells)
  {
    var made := Make(st, m);
    var pushed := made.moves[MovesMade(st)];
    var r := Transitions.Retract(after);
    RetractAfterMake(st, m);
    assert after.moves[MovesMade(after) - 1] == pushed;
    if after.cells == made.cells && pushed in after.made {
      forall s: Square ensures Get(r.cells, s) == Get(Transitions.Retract(made).cells, s) {
      }
      CellsEqual(r.cells, Transitions.Retract(made).cells);
    }
  }

  /** The loop of a node with initial window (ALPHA, BETA) so far: the
   *  examined moves are the first ones of MS, one value each, the window
   *  stayed open after each but possibly the last, the value is the best
   *  of the values and the window is the initial one narrowed by them. */
  predicate Prefix(sense: int, alpha: int, beta: int, ms: seq<Move>, n: Node) {
    |n.examined| <= |ms| && n.examined == ms[..|n.examined|] && |n.values| == |n.examined| &&
    (forall k :: 1 <= k < |n.values| ==> Open(sense, alpha, beta, n.values[..k])) &&
    n.value == Best(sense, n.values) &&
    n.alpha == AlphaAfter(sense, alpha, n.values) && n.beta == BetaAfter(sense, beta, n.values)
  }

  /** The child loop keeps its record of the examined moves, values and
   *  cut-offs, and stops early only after a child that closed the window. */
  lemma {:induction false} ChildrenPrefix(depth: nat, sense: int, alpha: int, beta: int,
                                          eval: (Cells, Piece) -> int, ms: seq<Move>, acc: Node)
    requires depth > 0 && WellFormed(acc.state)
    requires Prefix(sense, alpha, beta, ms, acc) && (|acc.values| > 0 ==> Open(sense, alpha, beta, acc.values))
    ensures var r := Children(depth, sense, eval, ms, acc);
      Prefix(sense, alpha, beta, ms, r) &&
      acc.examined <= r.examined &&
      (|r.examined| < |ms| ==> |r.values| > 0 && !Open(sense, alpha, beta, r.values))
    decreases |ms| - |acc.examined|
  {
    if |acc.examined| < |ms| {
      var next := Examine(depth, sense, eval, ms, acc);
      ChildrenStep(depth, sense, eval, ms, acc);
      ExaminePrefix(depth, sense, alpha, beta, eval, ms, acc);
      if next.alpha < next.beta {
        ChildrenPrefix(depth, sense, alpha, beta, eval, ms, next);
      }
    }
  }

  /** An iteration taken while the window is open extends the record. */
  lemma ExaminePrefix(depth: nat, sense: int, alpha: int, beta: int,
                      eval: (Cells, Piece) -> int, ms: seq<Move>, acc: Node)
    requires depth > 0 && WellFormed(acc.state) && |acc.examined| < |ms|
    requires Prefix(sense, alpha, beta, ms, acc) && (|acc.values| > 0 ==> Open(sense, alpha, beta, acc.values))
    ensures var next := Examine(depth, sense, eval, ms, acc);
      Prefix(sense, alpha, beta, ms, next) && acc.examined <= next.examined &&
      (next.alpha < next.beta <==> Open(sense, alpha, beta, next.values))
  {
    var next := Examine(depth, sense, eval, ms, acc);
    var child := Search(Make(acc.state, ms[|acc.examined|]), depth - 1, -sense, acc.alpha, acc.beta, eval);
    ExamineChild(depth, sense, eval, ms, acc);
    assert next.values == acc.values + [child.value];
    PrefixExtend(sense, alpha, beta, ms, acc, child.value, next);
  }

  /** The record after one more child of value V: the next move of MS is
   *  appended with V, and the value and window take V in. */
  lemma PrefixExtend(sense: int, alpha: int, beta: int, ms: seq<Move>, acc: Node, v: int, next: Node)
    requires |acc.examined| < |ms|
    requires Prefix(sense, alpha, beta, ms, acc) && (|acc.values| > 0 ==> Open(sense, alpha, beta, acc.values))
    requires next.examined == acc.examined + [ms[|acc.examined|]] && next.values == acc.values + [v]
    requires next.value == (if sense == 1 then Max(acc.value, v) else Min(acc.value, v))
    requires next.alpha == (if sense == 1 then Max(acc.alpha, v) else acc.alpha)
    requires next.beta == (if sense == 1 then acc.beta else Min(acc.beta, v))
    ensures Prefix(sense, alpha, beta, ms, next) && acc.examined <= next.examined
    ensures next.alpha < next.beta <==> Open(sense, alpha, beta, next.values)
  {
    var n := |acc.values|;
    var vs := next.values;
    assert next.examined == ms[..n + 1];
    assert vs[..n] == acc.values;
    forall k | 1 <= k < |vs| ensures Open(sense, alpha, beta, vs[..k]) {
      assert vs[..k] == acc.values[..k];
      if k == n {
        assert acc.values[..k] == acc.values;
      }
    }
  }

  /** A node of positive depth examines the first moves of the legal-move
   *  list in order, at least one when there is one, and stops early only
   *  right after the first child that closes the window; its value is the
   *  best of the examined children's values (see MaxOfBounds and
   *  MinOfBounds). */
  lemma SearchNode(st: BoardState, depth: nat, sense: int, alpha: int, beta: int,
                   eval: (Cells, Piece) -> int)
    requires WellFormed(st) && depth > 0
    ensures var r := Search(st, depth, sense, alpha, beta, eval);
      var ms := LegalMoves(st.cells, st.turn);
      Prefix(sense, alpha, beta, ms, r) &&
      (|ms| > 0 <==> |r.examined| > 0) &&
      (|r.examined| < |ms| ==> !Open(sense, alpha, beta, r.values))
  {
    var ms := LegalMoves(st.cells, st.turn);
    var init := Node(if sense == 1 then -INFTY else INFTY, alpha, beta, st, [], [], true);
    ChildrenPrefix(depth, sense, alpha, beta, eval, ms, init);
  }

  /** The window only narrows as children are examined: alpha never
   *  decreases and beta never increases. */
  lemma {:induction false} WindowNarrows(sense: int, alpha: int, beta: int, vs: seq<int>, ws: seq<int>)
    requires |vs| <= |ws| && vs == ws[..|vs|]
    ensures alpha <= AlphaAfter(sense, alpha, vs) <= AlphaAfter(sense, alpha, ws)
    ensures beta >= BetaAfter(sense, beta, vs) >= BetaAfter(sense, beta, ws)
    decreases |ws|
  {
    MaxOfBounds(alpha, vs);
    MinOfBounds(beta, vs);
    if |vs| < |ws| {
      var front := ws[..|ws| - 1];
      assert vs == front[..|vs|];
      WindowNarrows(sense, alpha, beta, vs, front);
      assert MaxOf(alpha, ws) == Max(MaxOf(alpha, front), ws[|ws| - 1]);
      assert MinOf(beta, ws) == Min(MinOf(beta, front), ws[|ws| - 1]);
    } else {
      assert vs == ws;
    }
  }

  /** The move a saving search records: the last one its loop examined,
   *  or None when it examined none. */
  function Reported(r: Node): Option<Move> {
    if |r.examined| > 0 then Some(r.examined[|r.examined| - 1]) else None
  }

  /** The root search reports a move exactly when the position has a
   *  legal move, and then one of the generated moves, which is legal. */
  lemma RootMove(st: BoardState, depth: nat, sense: int, alpha: int, beta: int, eval: (Cells, Piece) -> int)
    requires WellFormed(st) && depth > 0
    ensures var mv := Reported(Search(st, depth, sense, alpha, beta, eval));
      var ms := LegalMoves(st.cells, st.turn);
      (mv.Some? <==> |ms| > 0) &&
      (mv.Some? ==> mv.value in ms && Legal(st.cells, st.turn, mv.value.from, mv.value.to))
  {
    SearchNode(st, depth, sense, alpha, beta, eval);
    var r := Search(st, depth, sense, alpha, beta, eval);
    var ms := LegalMoves(st.cells, st.turn);
    LegalMovesSpec(st.cells, st.turn);
    if |r.examined| > 0 {
      assert r.examined[|r.examined| - 1] == ms[|r.examined| - 1];
    }
  }

  /** At the root window (-INFTY, INFTY), as long as no child value reaches
   *  either bound, no child closes the window: the loop examines every
   *  legal move, and the move recorded is simply the last one generated,
   *  whatever the values. */
  lemma RootReportsLast(st: BoardState, depth: nat, sense: int, eval: (Cells, Piece) -> int)
    requires WellFormed(st) && depth > 0
    ensures var r := Search(st, depth, sense, -INFTY, INFTY, eval);
      var ms := LegalMoves(st.cells, st.turn);
      (forall v :: v in r.values ==> -INFTY < v < INFTY) ==>
        r.examined == ms && Reported(r) == (if |ms| > 0 then Some(ms[|ms| - 1]) else None)
  {
    SearchNode(st, depth, sense, -INFTY, INFTY, eval);
    var r := Search(st, depth, sense, -INFTY, INFTY, eval);
    var ms := LegalMoves(st.cells, st.turn);
    if forall v :: v in r.values ==> -INFTY < v < INFTY {
      RootWindowOpen(sense, r.values);
    }
  }

  /** Child values strictly inside (-INFTY, INFTY) leave the root window
   *  open. */
  lemma RootWindowOpen(sense: int, vs: seq<int>)
    requires forall v :: v in vs ==> -INFTY < v < INFTY
    ensures Open(sense, -INFTY, INFTY, vs)
  {
    MaxOfBounds(-INFTY, vs);
    MinOfBounds(INFTY, vs);
  }

  /** Hence the move recorded need not have the node's value: when a
   *  maximizing node examined two or more moves and an earlier one scored
   *  higher than the last, the recorded (last) move's value is below the
   *  node's value. */
  lemma ReportedNotBest(sense: int, alpha: int, beta: int, ms: seq<Move>, n: Node)
    requires sense == 1 && Prefix(sense, alpha, beta, ms, n) && |n.examined| >= 2
    requires n.values[0] > n.values[|n.values| - 1]
    ensures Reported(n) == Some(ms[|n.examined| - 1])
    ensures n.values[|n.values| - 1] < n.value
  {
    MaxOfBounds(-INFTY, n.values);
    assert n.values[0] in n.values;
  }

  // ---------------------------------------------------------------------
  // The root as its documentation promises it: record a move only when it
  // is the first examined or strictly improves on the recorded one.
  // ---------------------------------------------------------------------

  /** Child value V strictly improves on W for a node of sense SENSE. */
  predicate Improves(sense: int, v: int, w: int) {
    if sense == 1 then v > w else v < w
  }

  /** The index of the value a recording-on-improvement loop over VS keeps:
   *  -1 while nothing is recorded. */
  function BestIndex(sense: int, vs: seq<int>): (k: int)
    ensures -1 <= k < |vs|
  {
    if vs == [] then -1
    else
      var front := vs[..|vs| - 1];
      var k := BestIndex(sense, front);
      if k == -1 || Improves(sense, vs[|vs| - 1], vs[k]) then |vs| - 1 else k
  }

  /** BestIndex records something exactly when there are values, and the
   *  value it keeps is the best of all of them. */
  lemma {:induction false} BestIndexSpec(sense: int, vs: seq<int>)
    ensures BestIndex(sense, vs) == -1 <==> vs == []
    ensures var k := BestIndex(sense, vs);
      k >= 0 ==> forall j :: 0 <= j < |vs| ==> !Improves(sense, vs[j], vs[k])
  {
    if vs != [] {
      var front := vs[..|vs| - 1];
      BestIndexSpec(sense, front);
      var k := BestIndex(sense, front);
      forall j | 0 <= j < |front|
        ensures vs[j] == front[j]
      {
      }
    }
  }

  /** The value BestIndex keeps is the node's value Best, unless every
   *  value lies beyond the initial bound (-INFTY or INFTY). */
  lemma BestIndexValue(sense: int, vs: seq<int>)
    requires vs != []
    ensures var k := BestIndex(sense, vs);
      0 <= k && (vs[k] == Best(sense, vs) || Best(sense, vs) == (if sense == 1 then -INFTY else INFTY))
  {
    BestIndexSpec(sense, vs);
    MaxOfBounds(-INFTY, vs);
    MinOfBounds(INFTY, vs);
    var k := BestIndex(sense, vs);
    assert vs[k] in vs;
    if Best(sense, vs) in vs {
      var j :| 0 <= j < |vs| && vs[j] == Best(sense, vs);
      assert !Improves(sense, vs[j], vs[k]);
    }
  }

  /** The move a root recording on improvement reports. */
  function ReportedIntended(sense: int, r: Node): Option<Move> {
    var k := BestIndex(sense, r.values);
    if 0 <= k < |r.examined| then Some(r.examined[k]) else None
  }

  /** The corrected root reports a move exactly when the position has a
   *  legal move; the move is legal, and its value is the node's value
   *  (unless every child scored beyond the initial bound). */
  lemma RootMoveIntended(st: BoardState, depth: nat, sense: int, alpha: int, beta: int, eval: (Cells, Piece) -> int)
    requires WellFormed(st) && depth > 0
    ensures var r := Search(st, depth, sense, alpha, beta, eval);
      var mv := ReportedIntended(sense, r);
      var ms := LegalMoves(st.cells, st.turn);
      (mv.Some? <==> |ms| > 0) &&
      (mv.Some? ==>
        mv.value in ms && Legal(st.cells, st.turn, mv.value.from, mv.value.to) &&
        (r.values[BestIndex(sense, r.values)] == r.value || r.value == (if sense == 1 then -INFTY else INFTY)))
  {
    SearchNode(st, depth, sense, alpha, beta, eval);
    var r := Search(st, depth, sense, alpha, beta, eval);
    var ms := LegalMoves(st.cells, st.turn);
    LegalMovesSpec(st.cells, st.turn);
    BestIndexSpec(sense, r.values);
    var k := BestIndex(sense, r.values);
    if k >= 0 {
      BestIndexValue(sense, r.values);
      assert r.examined[k] == ms[k];
    }
  }

  /** The automated player: its side, the static evaluation it searches
   *  with (evaluateScore, taken as given) and the move its root search
   *  last recorded. */
  class MachinePlayer {
    const side: Piece
    const evaluate: (Cells, Piece) -> int
    /** _foundMove; None stands for null. */
    var foundMove: Option<Move>

    constructor (side: Piece, evaluate: (Cells, Piece) -> int)
      ensures this.side == side && this.evaluate == evaluate && foundMove == None
    {
      this.side := side;
      this.evaluate := evaluate;
      foundMove := None;
    }

    /** searchForMove(): search a copy of GAME to the chosen depth with the
     *  full window, maximizing for white and minimizing for black, and
     *  report the move recorded: the last root move examined, which is a
     *  legal move of GAME, and null only when GAME has no legal move (see
     *  RootMove). */
    method SearchForMove(game: Board) returns (mv: Option<Move>)
      requires game.Valid() && side == game.turn
      modifies this`foundMove
      ensures mv == foundMove
      ensures mv == Reported(Search(game.State(), ChooseDepth(), if side == WP then 1 else -1, -INFTY, INFTY, evaluate))
    {
      var work := new Board.Copy(game);
      var value: int;
      foundMove := None;
      if side == WP {
        value := FindMove(work, ChooseDepth(), true, 1, -INFTY, INFTY);
      } else {
        value := FindMove(work, ChooseDepth(), true, -1, -INFTY, INFTY);
      }
      return foundMove;
    }

    /** findMove(BOARD, DEPTH, SAVEMOVE, SENSE, ALPHA, BETA): the value of
     *  Search on the board's state, which the board is left in; when
     *  SAVEMOVE, the last move the loop examined is recorded (the record is
     *  otherwise untouched, and recursive calls never save). */
    method FindMove(board: Board, depth: nat, saveMove: bool, sense: int, alpha: int, beta: int)
      returns (value: int)
      requires board.Valid()
      modifies this`foundMove, board.cells, board`moves, board`movesMade, board`turn, board`moveLimit,
               board`winnerKnown, board`subsetsInitialized, board`whiteRegionSizes, board`blackRegionSizes
      ensures board.Valid()
      ensures var r := Search(old(board.State()), depth, sense, alpha, beta, evaluate);
        value == r.value && board.State() == r.state &&
        foundMove == if saveMove && Reported(r).Some? then Reported(r) else old(foundMove)
      decreases depth, 2
    {
      var maximizing := sense == 1;
      if depth == 0 {
        return evaluate(board.cells[..], board.turn);
      }
      var p := board.LegalMoves();
      if maximizing {
        value := MaxChildren(board, depth, saveMove, sense, alpha, beta, p);
      } else {
        value := MinChildren(board, depth, saveMove, sense, alpha, beta, p);
      }
    }

    /** findMove's loop when maximizing: search below each move of P in
     *  turn, raising the value and alpha, until the window closes. */
    method MaxChildren(board: Board, depth: nat, saveMove: bool, sense: int, alpha: int, beta: int, p: seq<Move>)
      returns (maxVal: int)
      requires board.Valid() && depth > 0 && sense == 1
      modifies this`foundMove, board.cells, board`moves, board`movesMade, board`turn, board`moveLimit,
               board`winnerKnown, board`subsetsInitialized, board`whiteRegionSizes, board`blackRegionSizes
      ensures board.Valid()
      ensures var r := Children(depth, sense, evaluate, p, Node(-INFTY, alpha, beta, old(board.State()), [], [], true));
        maxVal == r.value && board.State() == r.state &&
        foundMove == if saveMove && Reported(r).Some? then Reported(r) else old(foundMove)
      decreases depth, 1
    {
      ghost var acc := Node(-INFTY, alpha, beta, board.State(), [], [], true);
      ghost var result := Children(depth, sense, evaluate, p, acc);
      var alpha := alpha;
      maxVal := -INFTY;
      var i := 0;
      while i < |p|
        invariant board.Valid() && WellFormed(acc.state) && i == |acc.examined| <= |p|
        invariant Children(depth, sense, evaluate, p, acc) == result
        invariant board.State() == acc.state && maxVal == acc.value && alpha == acc.alpha && beta == acc.beta
        invariant foundMove == if saveMove && Reported(acc).Some? then Reported(acc) else old(foundMove)
      {
        var m := p[i];
        ExamineChild(depth, sense, evaluate, p, acc);
        ChildrenStep(depth, sense, evaluate, p, acc);
        var eval := SearchChild(board, depth, sense, alpha, beta, m);
        acc := Examine(depth, sense, evaluate, p, acc);
        maxVal := Max(maxVal, eval);
        alpha := Max(alpha, eval);
        if saveMove {
          foundMove := Some(m);
        }
        if beta <= alpha {
          break;
        }
        i := i + 1;
      }
    }

    /** findMove's loop when minimizing: search below each move of P in
     *  turn, lowering the value and beta, until the window closes. */
    method MinChildren(board: Board, depth: nat, saveMove: bool, sense: int, alpha: int, beta: int, p: seq<Move>)
      returns (minValue: int)
      requires board.Valid() && depth > 0 && sense != 1
      modifies this`foundMove, board.cells, board`moves, board`movesMade, board`turn, board`moveLimit,
               board`winnerKnown, board`subsetsInitialized, board`whiteRegionSizes, board`blackRegionSizes
      ensures board.Valid()
      ensures var r := Children(depth, sense, evaluate, p, Node(INFTY, alpha, beta, old(board.State()), [], [], true));
        minValue == r.value && board.State() == r.state &&
        foundMove == if saveMove && Reported(r).Some? then Reported(r) else old(foundMove)
      decreases depth, 1
    {
      ghost var acc := Node(INFTY, alpha, beta, board.State(), [], [], true);
      ghost var result := Children(depth, sense, evaluate, p, acc);
      var beta := beta;
      minValue := INFTY;
      var i := 0;
      while i < |p|
        invariant board.Valid() && WellFormed(acc.state) && i == |acc.examined| <= |p|
        invariant Children(depth, sense, evaluate, p, acc) == result
        invariant board.State() == acc.state && minValue == acc.value && alpha == acc.alpha && beta == acc.beta
        invariant foundMove == if saveMove && Reported(acc).Some? then Reported(acc) else old(foundMove)
      {
        var m := p[i];
        ExamineChild(depth, sense, evaluate, p, acc);
        ChildrenStep(depth, sense, evaluate, p, acc);
        var eval := SearchChild(board, depth, sense, alpha, beta, m);
        acc := Examine(depth, sense, evaluate, p, acc);
        minValue := Min(minValue, eval);
        beta := Min(beta, eval);
        if saveMove {
          foundMove := Some(m);
        }
        if beta <= alpha {
          break;
        }
        i := i + 1;
      }
    }

    /** The body of findMove's child loop for the move M: make it, search
     *  one level down with the opposite sense and no saving, retract. */
    method SearchChild(board: Board, depth: nat, sense: int, alpha: int, beta: int, m: Move)
      returns (eval: int)
      requires board.Valid() && depth > 0
      modifies this`foundMove, board.cells, board`moves, board`movesMade, board`turn, board`moveLimit,
               board`winnerKnown, board`subsetsInitialized, board`whiteRegionSizes, board`blackRegionSizes
      ensures board.Valid() && foundMove == old(foundMove)
      ensures var child := Search(Make(old(board.State()), m), depth - 1, -sense, alpha, beta, evaluate);
        eval == child.value && board.State() == Transitions.Retract(child.state)
      decreases depth, 0
    {
      ghost var before := board.State();
      board.MakeMove(m);
      ghost var made := board.State();
      eval := FindMove(board, depth - 1, false, -sense, alpha, beta);
      ghost var child := Search(made, depth - 1, -sense, alpha, beta, evaluate);
      assert made == Make(before, m) && eval == child.value && board.State() == child.state;
      board.Retract();
    }
  }
}
