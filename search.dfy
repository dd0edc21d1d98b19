/**
 * The computer opponent: a depth-limited minimax search with alpha-beta
 * pruning (`minimax`) and the move it plays (`getAIMove`). The computer is
 * PLAYER2, the maximizing side; PLAYER1 minimizes.
 *
 * AlphaBeta and Fold are the search as the game runs it, loop for loop.
 * MinimaxValue is plain minimax without pruning, written independently, and
 * the lemmas below show that pruning never changes the value at the root
 * and that the move played is the first column reaching the best value.
 */
module Search {

  import opened Wrappers
  import opened Board
  import opened Rules
  import opened Evaluator

  /** The value of a position that PLAYER2 has won (PLAYER1's win is its negation). */
  const WinScore: int := 1000000

  /**
   * JavaScript's Infinity as the search uses it: the initial window bounds
   * and the initial best value. Every value the search computes lies within
   * [-WinScore, WinScore], strictly inside (-Infinity, Infinity).
   */
  const Infinity: int := 1000000000

  /** The depth getAIMove searches to. */
  const SearchDepth: nat := 5

  function Max(x: int, y: int): (m: int) { if x >= y then x else y }
  function Min(x: int, y: int): (m: int) { if x <= y then x else y }

  /** The values strictly increase along the sequence. */
  predicate Increasing(cols: seq<int>)
  {
    forall i, j :: 0 <= i < j < |cols| ==> cols[i] < cols[j]
  }

  /** The columns below `n` that are not full, in increasing order (the `validCols` loop). */
  function ValidColumnsBelow(b: Board, n: int): (cols: seq<int>)
    requires 0 <= n <= Cols
    ensures Increasing(cols)
    ensures forall i :: 0 <= i < |cols| ==> 0 <= cols[i] < n && !IsColumnFull(b, cols[i])
    ensures forall c :: 0 <= c < n && !IsColumnFull(b, c) ==> c in cols
  {
    if n == 0 then []
    else ValidColumnsBelow(b, n - 1) + (if IsColumnFull(b, n - 1) then [] else [n - 1])
  }

  /** The playable columns of the board, left to right. */
  function ValidColumns(b: Board): (cols: seq<int>)
    ensures Increasing(cols)
    ensures forall c :: c in cols <==> 0 <= c < Cols && !IsColumnFull(b, c)
  {
    ValidColumnsBelow(b, Cols)
  }

  /** The player whose disc goes in at a node: PLAYER2 at maximizing nodes. */
  function Mover(maximizing: bool): (p: Player)
  {
    if maximizing then Player2 else Player1
  }

  /** The search stops at a board where either player has won or no column is playable. */
  predicate IsTerminal(b: Board)
  {
    FindLine(b, Player1).Some? || FindLine(b, Player2).Some? || |ValidColumns(b)| == 0
  }

  /**
   * The value of a node where the search stops: a finished game scores by
   * its outcome (PLAYER2's line is looked for first), an unfinished one by
   * scorePosition from PLAYER2's side.
   */
  function LeafValue(b: Board): (v: int)
    ensures -WinScore <= v <= WinScore
    ensures IsTerminal(b) ==> (v == WinScore <==> HasLine(b, Player2))
    ensures IsTerminal(b) && !HasLine(b, Player2) ==> (v == -WinScore <==> HasLine(b, Player1))
    ensures IsTerminal(b) && !HasLine(b, Player1) && !HasLine(b, Player2) ==> v == 0
    ensures !IsTerminal(b) ==> v == PositionScore(b, Player2)
  {
    FindLineComplete(b, Player1);
    FindLineComplete(b, Player2);
    if IsTerminal(b) then
      if FindLine(b, Player2).Some? then WinScore
      else if FindLine(b, Player1).Some? then -WinScore
      else 0
    else
      PositionScoreWithoutLine(b, Player2);
      PositionScore(b, Player2)
  }

  /** minimax's return value `[column, value]`; the column is None where the code returns null. */
  datatype SearchResult = SearchResult(column: Option<int>, value: int)

  /** The columns all accept a disc. */
  predicate Playable(b: Board, cols: seq<int>)
  {
    forall i :: 0 <= i < |cols| ==> !IsColumnFull(b, cols[i])
  }

  /**
   * minimax(board, depth, alpha, beta, maximizingPlayer) as a value: a node
   * at depth 0 or at a finished game is a leaf; otherwise it runs the loop
   * over the playable columns, starting from the worst value for its side.
   */
  function AlphaBeta(b: Board, depth: nat, alpha: int, beta: int, maximizing: bool): (r: SearchResult)
    ensures -WinScore <= r.value <= WinScore
    ensures r.column.Some? <==> depth > 0 && !IsTerminal(b)
    ensures r.column.Some? ==> 0 <= r.column.value < Cols && !IsColumnFull(b, r.column.value)
    decreases depth, 1, 0
  {
    if depth == 0 || IsTerminal(b) then SearchResult(None, LeafValue(b))
    else Fold(b, Child(depth), ValidColumns(b), alpha, beta, maximizing, if maximizing then -Infinity else Infinity, None)
  }

  /** The depth left to the children of a node searched at `depth`. */
  function Child(depth: nat): (childDepth: nat)
    requires depth > 0
  {
    depth - 1
  }

  /**
   * The loop of a maximizing (minimizing) node over the columns `cols` still
   * to try, with the current window (alpha, beta), best value and column:
   * each child is searched with the current window; a strictly better value
   * replaces the best; then alpha (beta) moves to the best value, and the
   * loop stops once beta <= alpha.
   */
  function Fold(b: Board, childDepth: nat, cols: seq<int>, alpha: int, beta: int, maximizing: bool,
                value: int, column: Option<int>): (r: SearchResult)
    requires Playable(b, cols)
    ensures maximizing ==> r.value >= value
    ensures !maximizing ==> r.value <= value
    ensures (r.column == column && r.value == value)
         || (r.column.Some? && r.column.value in cols && -WinScore <= r.value <= WinScore)
    ensures |cols| > 0 && (if maximizing then value < -WinScore else value > WinScore) ==>
              r.column.Some? && r.column.value in cols && -WinScore <= r.value <= WinScore
    decreases childDepth + 1, 0, |cols|
  {
    if cols == [] then SearchResult(column, value)
    else
      var col := cols[0];
      var score := AlphaBeta(Drop(b, col, Mover(maximizing)), childDepth, alpha, beta, !maximizing).value;
      if maximizing then
        var value', column' := if score > value then score else value, if score > value then Some(col) else column;
        var alpha' := Max(alpha, value');
        if beta <= alpha' then SearchResult(column', value')
        else Fold(b, childDepth, cols[1..], alpha', beta, maximizing, value', column')
      else
        var value', column' := if score < value then score else value, if score < value then Some(col) else column;
        var beta' := Min(beta, value');
        if beta' <= alpha then SearchResult(column', value')
        else Fold(b, childDepth, cols[1..], alpha, beta', maximizing, value', column')
  }

  // ---------------------------------------------------------------------------
  // The reference: plain minimax, without pruning.
  // ---------------------------------------------------------------------------

  /** The minimax value of a node: the leaf value, or the best child value for the side to move. */
  function MinimaxValue(b: Board, depth: nat, maximizing: bool): (v: int)
    ensures -WinScore <= v <= WinScore
    decreases depth, 1, 0
  {
    if depth == 0 || IsTerminal(b) then LeafValue(b)
    else BestChild(b, Child(depth), ValidColumns(b), maximizing)
  }

  /** The minimax value of the child reached by dropping the mover's disc into `col`. */
  function ChildValue(b: Board, childDepth: nat, col: int, maximizing: bool): (v: int)
    requires !IsColumnFull(b, col)
    ensures -WinScore <= v <= WinScore
    decreases childDepth + 1, 0, 0
  {
    MinimaxValue(Drop(b, col, Mover(maximizing)), childDepth, !maximizing)
  }

  /** The largest (smallest) child value over a non-empty list of columns. */
  function BestChild(b: Board, childDepth: nat, cols: seq<int>, maximizing: bool): (v: int)
    requires |cols| > 0 && Playable(b, cols)
    ensures -WinScore <= v <= WinScore
    decreases childDepth + 1, 0, |cols|
  {
    var here := ChildValue(b, childDepth, cols[0], maximizing);
    if |cols| == 1 then here
    else
      var rest := BestChild(b, childDepth, cols[1..], maximizing);
      if maximizing then Max(here, rest) else Min(here, rest)
  }

  /** No child value beats BestChild for the side to move. */
  lemma {:induction false} BestChildBound(b: Board, childDepth: nat, cols: seq<int>, maximizing: bool, c: int)
    requires |cols| > 0 && Playable(b, cols) && c in cols
    ensures maximizing ==> ChildValue(b, childDepth, c, maximizing) <= BestChild(b, childDepth, cols, maximizing)
    ensures !maximizing ==> ChildValue(b, childDepth, c, maximizing) >= BestChild(b, childDepth, cols, maximizing)
    decreases |cols|
  {
    if c != cols[0] {
      assert c in cols[1..];
      BestChildBound(b, childDepth, cols[1..], maximizing, c);
    }
  }

  /** Some column reaches BestChild: the one returned. */
  lemma {:induction false} BestChildAttained(b: Board, childDepth: nat, cols: seq<int>, maximizing: bool) returns (c: int)
    requires |cols| > 0 && Playable(b, cols)
    ensures c in cols && ChildValue(b, childDepth, c, maximizing) == BestChild(b, childDepth, cols, maximizing)
    decreases |cols|
  {
    if |cols| == 1 || ChildValue(b, childDepth, cols[0], maximizing) == BestChild(b, childDepth, cols, maximizing) {
      c := cols[0];
    } else {
      c := BestChildAttained(b, childDepth, cols[1..], maximizing);
    }
  }

  /** `x` cut down to the window [lo, hi]. */
  function Clamp(x: int, lo: int, hi: int): (c: int)
  {
    Min(Max(x, lo), hi)
  }

  // ---------------------------------------------------------------------------
  // Pruning is sound.
  // ---------------------------------------------------------------------------

  /**
   * Alpha-beta with window (alpha, beta) agrees with minimax up to the
   * window: a value at or below alpha means the true value is at or below
   * alpha too, one at or above beta means the true value is at or above
   * beta, and a value strictly inside is exact.
   */
  lemma AlphaBetaClamp(b: Board, depth: nat, alpha: int, beta: int, maximizing: bool)
    requires -Infinity <= alpha < beta <= Infinity
    ensures Clamp(AlphaBeta(b, depth, alpha, beta, maximizing).value, alpha, beta)
         == Clamp(MinimaxValue(b, depth, maximizing), alpha, beta)
    decreases depth, 1, 0, 0
  {
    if !(depth == 0 || IsTerminal(b)) {
      FoldClamp(b, Child(depth), ValidColumns(b), alpha, beta, maximizing, if maximizing then -Infinity else Infinity, None);
    }
  }

  /**
   * The loop of a node agrees with the best child value up to the window,
   * provided the best value so far lies outside the window on the node's
   * losing side (at or below alpha when maximizing, at or above beta when
   * minimizing); the initial -Infinity (Infinity) does.
   */
  lemma FoldClamp(b: Board, childDepth: nat, cols: seq<int>, alpha: int, beta: int, maximizing: bool,
                  value: int, column: Option<int>)
    requires |cols| > 0 && Playable(b, cols)
    requires -Infinity <= alpha < beta <= Infinity
    requires if maximizing then value <= alpha else value >= beta
    ensures Clamp(Fold(b, childDepth, cols, alpha, beta, maximizing, value, column).value, alpha, beta)
         == Clamp(BestChild(b, childDepth, cols, maximizing), alpha, beta)
    decreases childDepth + 1, 0, |cols|, 1
  {
    if maximizing {
      FoldClampMax(b, childDepth, cols, alpha, beta, value, column);
    } else {
      FoldClampMin(b, childDepth, cols, alpha, beta, value, column);
    }
  }

  /** FoldClamp at a maximizing node. */
  lemma FoldClampMax(b: Board, childDepth: nat, cols: seq<int>, alpha: int, beta: int, value: int, column: Option<int>)
    requires |cols| > 0 && Playable(b, cols)
    requires -Infinity <= alpha < beta <= Infinity
    requires value <= alpha
    ensures Clamp(Fold(b, childDepth, cols, alpha, beta, true, value, column).value, alpha, beta)
         == Clamp(BestChild(b, childDepth, cols, true), alpha, beta)
    decreases childDepth + 1, 0, |cols|, 0
  {
    var col := cols[0];
    var child := Drop(b, col, Player2);
    var score := AlphaBeta(child, childDepth, alpha, beta, false).value;
    var truth := ChildValue(b, childDepth, col, true);
    AlphaBetaClamp(child, childDepth, alpha, beta, false);
    var value' := if score > value then score else value;
    var column' := if score > value then Some(col) else column;
    var alpha' := Max(alpha, value');
    var r := Fold(b, childDepth, cols, alpha, beta, true, value, column);
    var best := BestChild(b, childDepth, cols, true);
    if beta <= alpha' {
      assert r.value == value';
      assert best >= truth;
      MaxCutoff(value, score, truth, best, alpha, beta);
    } else if |cols| == 1 {
      assert r.value == value';
      assert best == truth;
      MaxLast(value, score, truth, alpha, beta);
    } else {
      var rest := Fold(b, childDepth, cols[1..], alpha', beta, true, value', column');
      var bestRest := BestChild(b, childDepth, cols[1..], true);
      assert r == rest;
      assert best == Max(truth, bestRest);
      FoldClamp(b, childDepth, cols[1..], alpha', beta, true, value', column');
      MaxStep(value, score, truth, bestRest, rest.value, alpha, beta);
    }
  }

  /** FoldClamp at a minimizing node. */
  lemma FoldClampMin(b: Board, childDepth: nat, cols: seq<int>, alpha: int, beta: int, value: int, column: Option<int>)
    requires |cols| > 0 && Playable(b, cols)
    requires -Infinity <= alpha < beta <= Infinity
    requires value >= beta
    ensures Clamp(Fold(b, childDepth, cols, alpha, beta, false, value, column).value, alpha, beta)
         == Clamp(BestChild(b, childDepth, cols, false), alpha, beta)
    decreases childDepth + 1, 0, |cols|, 0
  {
    var col := cols[0];
    var child := Drop(b, col, Player1);
    var score := AlphaBeta(child, childDepth, alpha, beta, true).value;
    var truth := ChildValue(b, childDepth, col, false);
    AlphaBetaClamp(child, childDepth, alpha, beta, true);
    var value' := if score < value then score else value;
    var column' := if score < value then Some(col) else column;
    var beta' := Min(beta, value');
    var r := Fold(b, childDepth, cols, alpha, beta, false, value, column);
    var best := BestChild(b, childDepth, cols, false);
    if beta' <= alpha {
      assert r.value == value';
      assert best <= truth;
      MinCutoff(value, score, truth, best, alpha, beta);
    } else if |cols| == 1 {
      assert r.value == value';
      assert best == truth;
      MinLast(value, score, truth, alpha, beta);
    } else {
      var rest := Fold(b, childDepth, cols[1..], alpha, beta', false, value', column');
      var bestRest := BestChild(b, childDepth, cols[1..], false);
      assert r == rest;
      assert best == Min(truth, bestRest);
      FoldClamp(b, childDepth, cols[1..], alpha, beta', false, value', column');
      MinStep(value, score, truth, bestRest, rest.value, alpha, beta);
    }
  }

  /** A maximizing step that continues the loop: the rest of the loop, clamped to the raised window, settles the node. */
  lemma MaxStep(value: int, score: int, truth: int, best: int, result: int, alpha: int, beta: int)
    requires alpha < beta && value <= alpha
    requires Clamp(score, alpha, beta) == Clamp(truth, alpha, beta)
    requires var alpha' := Max(alpha, Max(value, score));
      && alpha' < beta
      && result >= Max(value, score)
      && Clamp(result, alpha', beta) == Clamp(best, alpha', beta)
    ensures Clamp(result, alpha, beta) == Clamp(Max(truth, best), alpha, beta)
  {
  }

  /** A maximizing step that cuts off: the child reached beta, so the node's true value does too. */
  lemma MaxCutoff(value: int, score: int, truth: int, best: int, alpha: int, beta: int)
    requires alpha < beta && value <= alpha
    requires Clamp(score, alpha, beta) == Clamp(truth, alpha, beta)
    requires beta <= Max(alpha, Max(value, score)) && best >= truth
    ensures Clamp(Max(value, score), alpha, beta) == Clamp(best, alpha, beta)
  {
  }

  /** A maximizing step on the last column: the node's value is the child's. */
  lemma MaxLast(value: int, score: int, truth: int, alpha: int, beta: int)
    requires alpha < beta && value <= alpha
    requires Clamp(score, alpha, beta) == Clamp(truth, alpha, beta)
    ensures Clamp(Max(value, score), alpha, beta) == Clamp(truth, alpha, beta)
  {
  }

  /** A minimizing step that continues the loop. */
  lemma MinStep(value: int, score: int, truth: int, best: int, result: int, alpha: int, beta: int)
    requires alpha < beta && value >= beta
    requires Clamp(score, alpha, beta) == Clamp(truth, alpha, beta)
    requires var beta' := Min(beta, Min(value, score));
      && alpha < beta'
      && result <= Min(value, score)
      && Clamp(result, alpha, beta') == Clamp(best, alpha, beta')
    ensures Clamp(result, alpha, beta) == Clamp(Min(truth, best), alpha, beta)
  {
  }

  /** A minimizing step that cuts off. */
  lemma MinCutoff(value: int, score: int, truth: int, best: int, alpha: int, beta: int)
    requires alpha < beta && value >= beta
    requires Clamp(score, alpha, beta) == Clamp(truth, alpha, beta)
    requires Min(beta, Min(value, score)) <= alpha && best <= truth
    ensures Clamp(Min(value, score), alpha, beta) == Clamp(best, alpha, beta)
  {
  }

  /** A minimizing step on the last column. */
  lemma MinLast(value: int, score: int, truth: int, alpha: int, beta: int)
    requires alpha < beta && value >= beta
    requires Clamp(score, alpha, beta) == Clamp(truth, alpha, beta)
    ensures Clamp(Min(value, score), alpha, beta) == Clamp(truth, alpha, beta)
  {
  }

  /** With the full window (-Infinity, Infinity), as getAIMove calls it, the search value is the minimax value. */
  lemma AlphaBetaExact(b: Board, depth: nat, maximizing: bool)
    ensures AlphaBeta(b, depth, -Infinity, Infinity, maximizing).value == MinimaxValue(b, depth, maximizing)
  {
    AlphaBetaClamp(b, depth, -Infinity, Infinity, maximizing);
  }

  // ---------------------------------------------------------------------------
  // The move played.
  // ---------------------------------------------------------------------------

  /**
   * The reference for the root's choice, on exact child values and without
   * pruning: scanning the columns left to right, a column replaces the best
   * one only when its value is strictly larger.
   */
  function FirstBest(b: Board, childDepth: nat, cols: seq<int>, value: int, column: Option<int>): (r: SearchResult)
    requires Playable(b, cols)
    decreases |cols|
  {
    if cols == [] then SearchResult(column, value)
    else
      var v := ChildValue(b, childDepth, cols[0], true);
      if v > value then FirstBest(b, childDepth, cols[1..], v, Some(cols[0]))
      else FirstBest(b, childDepth, cols[1..], value, column)
  }

  /**
   * FirstBest ends on the largest child value (or the starting value, if no
   * child beats it) together with the leftmost column reaching it: every
   * column to its left has a strictly smaller value.
   */
  lemma {:induction false} FirstBestSpec(b: Board, childDepth: nat, cols: seq<int>, value: int, column: Option<int>)
    requires Playable(b, cols) && Increasing(cols)
    requires column.Some? ==> forall c :: c in cols ==> column.value < c
    ensures var r := FirstBest(b, childDepth, cols, value, column);
      && r.value >= value
      && (forall c :: c in cols ==> ChildValue(b, childDepth, c, true) <= r.value)
      && (r == SearchResult(column, value)
          || (r.column.Some? && r.column.value in cols && r.value > value
              && ChildValue(b, childDepth, r.column.value, true) == r.value))
      && (r.column.Some? ==> forall c :: c in cols && c < r.column.value ==> ChildValue(b, childDepth, c, true) < r.value)
    decreases |cols|
  {
    if cols != [] {
      var v := ChildValue(b, childDepth, cols[0], true);
      var value', column' := if v > value then v else value, if v > value then Some(cols[0]) else column;
      IncreasingTail(cols);
      assert forall c :: c in cols <==> c == cols[0] || c in cols[1..];
      FirstBestSpec(b, childDepth, cols[1..], value', column');
    }
  }

  /** Dropping the head of an increasing sequence leaves an increasing sequence of larger values. */
  lemma IncreasingTail(cols: seq<int>)
    requires Increasing(cols) && |cols| > 0
    ensures Increasing(cols[1..])
    ensures forall c :: c in cols[1..] ==> cols[0] < c
  {
    forall c | c in cols[1..]
      ensures cols[0] < c
    {
      var j :| 0 <= j < |cols[1..]| && cols[1..][j] == c;
      assert cols[j + 1] == c;
    }
  }

  /** The root's arithmetic: a child value cut off below at the best value so far decides the same as the exact one. */
  lemma RootStep(value: int, score: int, truth: int)
    requires value <= WinScore && score <= WinScore && truth <= WinScore
    requires Clamp(score, value, Infinity) == Clamp(truth, value, Infinity)
    ensures score > value <==> truth > value
    ensures score > value ==> score == truth
  {
  }

  /**
   * At the root, called with beta = Infinity, the loop never cuts off and
   * alpha always equals the best value so far; so it settles on the same
   * column and value as FirstBest on the exact child values.
   */
  lemma {:induction false} RootFold(b: Board, childDepth: nat, cols: seq<int>, value: int, column: Option<int>)
    requires Playable(b, cols)
    requires -Infinity <= value <= WinScore
    ensures Fold(b, childDepth, cols, value, Infinity, true, value, column) == FirstBest(b, childDepth, cols, value, column)
    decreases |cols|
  {
    if cols != [] {
      var col := cols[0];
      var child := Drop(b, col, Player2);
      var score := AlphaBeta(child, childDepth, value, Infinity, false).value;
      var truth := ChildValue(b, childDepth, col, true);
      AlphaBetaClamp(child, childDepth, value, Infinity, false);
      RootStep(value, score, truth);
      var value', column' := if score > value then score else value, if score > value then Some(col) else column;
      RootFold(b, childDepth, cols[1..], value', column');
    }
  }

  /**
   * The move the search makes at a node where play goes on (searched to
   * depth childDepth + 1): a playable column whose child has the node's
   * minimax value, which no playable column beats, and which is the
   * leftmost column reaching it.
   */
  lemma RootChoice(b: Board, childDepth: nat)
    requires !IsTerminal(b)
    ensures var r := AlphaBeta(b, childDepth + 1, -Infinity, Infinity, true);
      && r.column.Some?
      && 0 <= r.column.value < Cols && !IsColumnFull(b, r.column.value)
      && ChildValue(b, childDepth, r.column.value, true) == MinimaxValue(b, childDepth + 1, true)
      && (forall c :: 0 <= c < Cols && !IsColumnFull(b, c) ==>
            ChildValue(b, childDepth, c, true) <= ChildValue(b, childDepth, r.column.value, true))
      && (forall c :: 0 <= c < r.column.value && !IsColumnFull(b, c) ==>
            ChildValue(b, childDepth, c, true) < ChildValue(b, childDepth, r.column.value, true))
  {
    var cols := ValidColumns(b);
    RootFold(b, childDepth, cols, -Infinity, None);
    FirstBestSpec(b, childDepth, cols, -Infinity, None);
    AlphaBetaExact(b, childDepth + 1, true);
    var r := AlphaBeta(b, childDepth + 1, -Infinity, Infinity, true);
    assert r == FirstBest(b, childDepth, cols, -Infinity, None);
  }

  /** A column that wins on the spot is worth WinScore, the most any position is worth. */
  lemma WinningColumn(b: Board, childDepth: nat, col: int)
    requires !IsColumnFull(b, col)
    requires HasLine(Drop(b, col, Player2), Player2)
    ensures ChildValue(b, childDepth, col, true) == WinScore
  {
    FindLineComplete(Drop(b, col, Player2), Player2);
  }

  /** When some column wins on the spot, the search's move is worth a win too. */
  lemma TakesWin(b: Board, childDepth: nat, col: int)
    requires !IsTerminal(b)
    requires 0 <= col < Cols && !IsColumnFull(b, col) && HasLine(Drop(b, col, Player2), Player2)
    ensures var r := AlphaBeta(b, childDepth + 1, -Infinity, Infinity, true);
      r.column.Some? && r.value == WinScore && ChildValue(b, childDepth, r.column.value, true) == WinScore
  {
    RootChoice(b, childDepth);
    WinningColumn(b, childDepth, col);
    AlphaBetaExact(b, childDepth + 1, true);
  }

  /** Every Fold started from the sentinel value replaces its column at the first child. */
  lemma FoldSentinel(b: Board, childDepth: nat, cols: seq<int>, alpha: int, beta: int, maximizing: bool, column: Option<int>)
    requires Playable(b, cols) && |cols| > 0
    ensures var sentinel := if maximizing then -Infinity else Infinity;
      Fold(b, childDepth, cols, alpha, beta, maximizing, sentinel, column) == Fold(b, childDepth, cols, alpha, beta, maximizing, sentinel, None)
  {
  }

  /** One step of a maximizing node's loop, as the loop body takes it. */
  lemma FoldMaxStep(b: Board, childDepth: nat, cols: seq<int>, alpha: int, beta: int, value: int, column: Option<int>)
    requires Playable(b, cols) && |cols| > 0
    ensures var score := AlphaBeta(Drop(b, cols[0], Player2), childDepth, alpha, beta, false).value;
      var value' := if score > value then score else value;
      var column' := if score > value then Some(cols[0]) else column;
      Fold(b, childDepth, cols, alpha, beta, true, value, column)
        == if beta <= Max(alpha, value') then SearchResult(column', value')
           else Fold(b, childDepth, cols[1..], Max(alpha, value'), beta, true, value', column')
  {
  }

  /** One step of a minimizing node's loop, as the loop body takes it. */
  lemma FoldMinStep(b: Board, childDepth: nat, cols: seq<int>, alpha: int, beta: int, value: int, column: Option<int>)
    requires Playable(b, cols) && |cols| > 0
    ensures var score := AlphaBeta(Drop(b, cols[0], Player1), childDepth, alpha, beta, true).value;
      var value' := if score < value then score else value;
      var column' := if score < value then Some(cols[0]) else column;
      Fold(b, childDepth, cols, alpha, beta, false, value, column)
        == if Min(beta, value') <= alpha then SearchResult(column', value')
           else Fold(b, childDepth, cols[1..], alpha, Min(beta, value'), false, value', column')
  {
  }

  /**
   * One pass of a loop body over `cols`: the child in column `cols[i]` has
   * value `score`, and unless the window closes the loop goes on with
   * `cols[i + 1..]`.
   */
  lemma LoopStep(b: Board, childDepth: nat, cols: seq<int>, i: nat, alpha: int, beta: int, maximizing: bool,
                 value: int, column: int, score: int)
    requires Playable(b, cols) && i < |cols|
    requires score == AlphaBeta(Drop(b, cols[i], Mover(maximizing)), childDepth, alpha, beta, !maximizing).value
    ensures var better := if maximizing then score > value else score < value;
      var value' := if better then score else value;
      var column' := if better then cols[i] else column;
      var alpha' := if maximizing then Max(alpha, value') else alpha;
      var beta' := if maximizing then beta else Min(beta, value');
      Fold(b, childDepth, cols[i..], alpha, beta, maximizing, value, Some(column))
        == if beta' <= alpha' then SearchResult(Some(column'), value')
           else Fold(b, childDepth, cols[i + 1..], alpha', beta', maximizing, value', Some(column'))
  {
    assert cols[i..][0] == cols[i] && cols[i..][1..] == cols[i + 1..];
    if maximizing {
      FoldMaxStep(b, childDepth, cols[i..], alpha, beta, value, Some(column));
    } else {
      FoldMinStep(b, childDepth, cols[i..], alpha, beta, value, Some(column));
    }
  }

  /** `x` is at least as good as `y` for the side to move. */
  predicate NoWorse(maximizing: bool, x: int, y: int)
  {
    if maximizing then x >= y else x <= y
  }

  /**
   * The values of the children a node's loop examines, in order: the i-th
   * is the value the search returned for the child in column `cols[i]`. The
   * loop stops after the child that brings beta <= alpha, so the examined
   * columns are a prefix of `cols`.
   */
  function Examined(b: Board, childDepth: nat, cols: seq<int>, alpha: int, beta: int, maximizing: bool,
                    value: int): (scores: seq<int>)
    requires Playable(b, cols)
    ensures |scores| <= |cols| && (|cols| > 0 ==> |scores| > 0)
    decreases |cols|
  {
    if cols == [] then []
    else
      var score := AlphaBeta(Drop(b, cols[0], Mover(maximizing)), childDepth, alpha, beta, !maximizing).value;
      var better := if maximizing then score > value else score < value;
      var value' := if better then score else value;
      var alpha' := if maximizing then Max(alpha, value') else alpha;
      var beta' := if maximizing then beta else Min(beta, value');
      var rest := if beta' <= alpha' then [] else Examined(b, childDepth, cols[1..], alpha', beta', maximizing, value');
      [score] + rest
  }

  /**
   * What a loop that keeps strictly better values ends on, given the values
   * `scores` of the children it examined in the columns `cols`, and its
   * starting value and column: no examined child, and not the starting
   * value, beats the result; a result equal to the starting value keeps the
   * starting column; any other result comes with the leftmost examined
   * column whose value it is.
   */
  ghost predicate KeepsFirstBest(maximizing: bool, cols: seq<int>, scores: seq<int>, r: SearchResult,
                                 value: int, column: Option<int>)
  {
    && |scores| <= |cols|
    && NoWorse(maximizing, r.value, value)
    && (forall i :: 0 <= i < |scores| ==> NoWorse(maximizing, r.value, scores[i]))
    && (r.value == value ==> r.column == column)
    && (r.value != value ==>
          && r.column.Some?
          && exists i :: 0 <= i < |scores| && cols[i] == r.column.value && scores[i] == r.value
                          && forall j :: 0 <= j < i ==> scores[j] != r.value)
  }

  /** The loop keeps the best examined value and the first column reaching it. */
  lemma {:induction false} FoldFirstBest(b: Board, childDepth: nat, cols: seq<int>, alpha: int, beta: int, maximizing: bool,
                                         value: int, column: Option<int>)
    requires Playable(b, cols)
    ensures KeepsFirstBest(maximizing, cols, Examined(b, childDepth, cols, alpha, beta, maximizing, value),
                           Fold(b, childDepth, cols, alpha, beta, maximizing, value, column), value, column)
    decreases |cols|
  {
    if cols != [] {
      var score := AlphaBeta(Drop(b, cols[0], Mover(maximizing)), childDepth, alpha, beta, !maximizing).value;
      var better := if maximizing then score > value else score < value;
      var value' := if better then score else value;
      var column' := if better then Some(cols[0]) else column;
      var alpha' := if maximizing then Max(alpha, value') else alpha;
      var beta' := if maximizing then beta else Min(beta, value');
      var r := Fold(b, childDepth, cols, alpha, beta, maximizing, value, column);
      var t := Examined(b, childDepth, cols, alpha, beta, maximizing, value);
      if maximizing {
        FoldMaxStep(b, childDepth, cols, alpha, beta, value, column);
      } else {
        FoldMinStep(b, childDepth, cols, alpha, beta, value, column);
      }
      if beta' <= alpha' {
        assert r == SearchResult(column', value');
        assert t == [score];
        FirstBestPrepend(maximizing, cols, score, value, column, [], r);
      } else {
        FoldFirstBest(b, childDepth, cols[1..], alpha', beta', maximizing, value', column');
        assert r == Fold(b, childDepth, cols[1..], alpha', beta', maximizing, value', column');
        assert t == [score] + Examined(b, childDepth, cols[1..], alpha', beta', maximizing, value');
        FirstBestPrepend(maximizing, cols, score, value, column, Examined(b, childDepth, cols[1..], alpha', beta', maximizing, value'), r);
      }
    }
  }

  /**
   * One step of such a loop: if the rest of the loop, started after the
   * child in column `cols[0]` with value `score`, keeps the first best, so
   * does the whole loop.
   */
  lemma FirstBestPrepend(maximizing: bool, cols: seq<int>, score: int, value: int, column: Option<int>,
                         rest: seq<int>, r: SearchResult)
    requires |cols| > 0
    requires var better := if maximizing then score > value else score < value;
      KeepsFirstBest(maximizing, cols[1..], rest, r, if better then score else value, if better then Some(cols[0]) else column)
    ensures KeepsFirstBest(maximizing, cols, [score] + rest, r, value, column)
  {
    var t := [score] + rest;
    var better := if maximizing then score > value else score < value;
    var value' := if better then score else value;
    assert NoWorse(maximizing, value', score) && NoWorse(maximizing, value', value);
    if r.value != value' {
      var i :| 0 <= i < |rest| && cols[1..][i] == r.column.value && rest[i] == r.value
               && forall j :: 0 <= j < i ==> rest[j] != r.value;
      assert cols[i + 1] == cols[1..][i] && t[i + 1] == rest[i];
      forall j | 0 <= j < i + 1
        ensures t[j] != r.value
      {
        if j > 0 {
          assert t[j] == rest[j - 1];
        }
      }
    } else if r.value != value {
      assert t[0] == score;
    }
  }

  /**
   * At every node where play goes on, minimax returns the leftmost examined
   * column whose child value equals the node's value, and no examined child
   * is better for the side to move. The column picked at random before the
   * loop never reaches the result.
   */
  lemma NodeChoice(b: Board, depth: nat, alpha: int, beta: int, maximizing: bool)
    requires depth > 0 && !IsTerminal(b)
    ensures var r := AlphaBeta(b, depth, alpha, beta, maximizing);
      var cols := ValidColumns(b);
      var t := Examined(b, Child(depth), cols, alpha, beta, maximizing, if maximizing then -Infinity else Infinity);
      && 0 < |t| <= |cols|
      && (forall i :: 0 <= i < |t| ==> NoWorse(maximizing, r.value, t[i]))
      && r.column.Some?
      && exists i :: 0 <= i < |t| && cols[i] == r.column.value && t[i] == r.value
                     && forall j :: 0 <= j < i ==> t[j] != r.value
  {
    var cols := ValidColumns(b);
    var sentinel := if maximizing then -Infinity else Infinity;
    var r := AlphaBeta(b, depth, alpha, beta, maximizing);
    assert |cols| > 0;
    assert r == Fold(b, Child(depth), cols, alpha, beta, maximizing, sentinel, None);
    var t := Examined(b, Child(depth), cols, alpha, beta, maximizing, sentinel);
    FoldFirstBest(b, Child(depth), cols, alpha, beta, maximizing, sentinel, None);
    assert KeepsFirstBest(maximizing, cols, t, r, sentinel, None);
    assert r.value != sentinel;
  }

  /** The `validCols` loop: the columns that are not full, left to right. */
  method PlayableColumns(b: Board) returns (validCols: seq<int>)
    ensures validCols == ValidColumns(b)
  {
    validCols := [];
    for col := 0 to Cols
      invariant validCols == ValidColumnsBelow(b, col)
    {
      if !IsColumnFull(b, col) {
        validCols := validCols + [col];
      }
    }
  }

  /** minimax's `isTerminal`: a line for PLAYER1, else a line for PLAYER2, else no playable column. */
  method TerminalTest(b: Board, validCols: seq<int>) returns (isTerminal: bool)
    requires validCols == ValidColumns(b)
    ensures isTerminal == IsTerminal(b)
  {
    var line1 := CheckWin(b, Player1);
    if line1.Some? {
      return true;
    }
    var line2 := CheckWin(b, Player2);
    return line2.Some? || |validCols| == 0;
  }

  /** The value minimax returns where it stops: by the outcome, PLAYER2 first, or by scorePosition. */
  method LeafScore(b: Board, isTerminal: bool) returns (value: int)
    requires isTerminal == IsTerminal(b)
    ensures value == LeafValue(b)
  {
    if isTerminal {
      var line2 := CheckWin(b, Player2);
      if line2.Some? {
        return WinScore;
      }
      var line1 := CheckWin(b, Player1);
      if line1.Some? {
        return -WinScore;
      }
      return 0;
    } else {
      value := ScorePosition(b, Player2);
    }
  }

  /**
   * minimax: collect the playable columns; stop at depth 0 or a finished
   * game; otherwise run the loop of the side to move.
   */
  method Minimax(b: Board, depth: nat, alpha: int, beta: int, maximizing: bool) returns (r: SearchResult)
    ensures r == AlphaBeta(b, depth, alpha, beta, maximizing)
    decreases depth, 3
  {
    var validCols := PlayableColumns(b);
    var isTerminal := TerminalTest(b, validCols);
    if depth == 0 || isTerminal {
      var value := LeafScore(b, isTerminal);
      return SearchResult(None, value);
    }
    r := Expand(b, depth, validCols, alpha, beta, maximizing);
  }

  /** A node where play goes on: the maximizing or the minimizing loop over the playable columns. */
  method Expand(b: Board, depth: nat, validCols: seq<int>, alpha: int, beta: int, maximizing: bool) returns (r: SearchResult)
    requires depth > 0 && !IsTerminal(b) && validCols == ValidColumns(b)
    ensures r == AlphaBeta(b, depth, alpha, beta, maximizing)
    decreases depth, 2
  {
    var childDepth := Child(depth);
    if maximizing {
      r := Maximize(b, childDepth, validCols, alpha, beta);
    } else {
      r := Minimize(b, childDepth, validCols, alpha, beta);
    }
  }

  /**
   * The maximizing branch of minimax: PLAYER2 tries each column in turn; a
   * strictly better child value replaces the best, alpha rises to it, and
   * the loop stops once beta <= alpha. The column picked at random before
   * the loop is always replaced by the first child, whose value beats the
   * initial -Infinity.
   */
  method Maximize(b: Board, childDepth: nat, validCols: seq<int>, alpha: int, beta: int) returns (r: SearchResult)
    requires Playable(b, validCols) && |validCols| > 0
    ensures r == Fold(b, childDepth, validCols, alpha, beta, true, -Infinity, None)
    decreases childDepth + 1, 1
  {
    var value := -Infinity;
    var k :| 0 <= k < |validCols|;
    var column := validCols[k];
    FoldSentinel(b, childDepth, validCols, alpha, beta, true, Some(column));
    var a := alpha;
    assert validCols[0..] == validCols;
    for i := 0 to |validCols|
      invariant Fold(b, childDepth, validCols[i..], a, beta, true, value, Some(column))
             == Fold(b, childDepth, validCols, alpha, beta, true, -Infinity, None)
    {
      var col := validCols[i];
      var newScore := SearchChild(b, childDepth, col, a, beta, true);
      LoopStep(b, childDepth, validCols, i, a, beta, true, value, column, newScore);
      if newScore > value {
        value := newScore;
        column := col;
      }
      a := Max(a, value);
      if beta <= a {
        break;
      }
    }
    return SearchResult(Some(column), value);
  }

  /**
   * One child of a node's loop, as both loops build it: the row getNextRow
   * finds in `col`, a copy of the board with the disc of the side to move
   * placed there, and minimax on that copy for the other side with the
   * loop's current window; the result is the child's value.
   */
  method SearchChild(b: Board, childDepth: nat, col: int, alpha: int, beta: int, maximizing: bool) returns (score: int)
    requires !IsColumnFull(b, col)
    ensures score == AlphaBeta(Drop(b, col, Mover(maximizing)), childDepth, alpha, beta, !maximizing).value
    decreases childDepth + 1, 0
  {
    var row := GetNextRow(b, col);
    assert IsEmptyAt(b, 0, col);
    var newBoard := CopyBoard(b);
    newBoard := Place(newBoard, row, col, Mover(maximizing));
    var child := Minimax(newBoard, childDepth, alpha, beta, !maximizing);
    score := child.value;
  }

  /** The minimizing branch of minimax: the same loop for PLAYER1, lowering beta. */
  method Minimize(b: Board, childDepth: nat, validCols: seq<int>, alpha: int, beta: int) returns (r: SearchResult)
    requires Playable(b, validCols) && |validCols| > 0
    ensures r == Fold(b, childDepth, validCols, alpha, beta, false, Infinity, None)
    decreases childDepth + 1, 1
  {
    var value := Infinity;
    var k :| 0 <= k < |validCols|;
    var column := validCols[k];
    FoldSentinel(b, childDepth, validCols, alpha, beta, false, Some(column));
    var bt := beta;
    assert validCols[0..] == validCols;
    for i := 0 to |validCols|
      invariant Fold(b, childDepth, validCols[i..], alpha, bt, false, value, Some(column))
             == Fold(b, childDepth, validCols, alpha, beta, false, Infinity, None)
    {
      var col := validCols[i];
      var newScore := SearchChild(b, childDepth, col, alpha, bt, false);
      LoopStep(b, childDepth, validCols, i, alpha, bt, false, value, column, newScore);
      if newScore < value {
        value := newScore;
        column := col;
      }
      bt := Min(bt, value);
      if bt <= alpha {
        break;
      }
    }
    return SearchResult(Some(column), value);
  }

  /**
   * getAIMove: the column of a depth-5 search from the full window; None
   * (null) exactly when the game is over. The column is playable, its child
   * carries the position's minimax value, and no column to its left does
   * as well.
   */
  method GetAIMove(b: Board) returns (col: Option<int>)
    ensures col == AlphaBeta(b, SearchDepth, -Infinity, Infinity, true).column
    ensures col.None? <==> IsTerminal(b)
    ensures col.Some? ==> 0 <= col.value < Cols && !IsColumnFull(b, col.value)
    ensures col.Some? ==> ChildValue(b, SearchDepth - 1, col.value, true) == MinimaxValue(b, SearchDepth, true)
    ensures col.Some? ==> forall c :: 0 <= c < Cols && !IsColumnFull(b, c) ==>
              ChildValue(b, SearchDepth - 1, c, true) <= ChildValue(b, SearchDepth - 1, col.value, true)
    ensures col.Some? ==> forall c :: 0 <= c < col.value && !IsColumnFull(b, c) ==>
              ChildValue(b, SearchDepth - 1, c, true) < ChildValue(b, SearchDepth - 1, col.value, true)
  {
    var result := Minimax(b, SearchDepth, -Infinity, Infinity, true);
    col := result.column;
    if !IsTerminal(b) {
      RootChoice(b, SearchDepth - 1);
    }
  }
}
