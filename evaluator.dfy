/**
 * The position evaluator (`evaluateWindow`, `scorePosition`): a signed score
 * of a board from one player's point of view, used where the search stops.
 * It is a bonus for discs in the centre column plus a fixed table score for
 * each of the 69 runs of four cells on the board.
 */
module Evaluator {

  import opened Board
  import Rules

  /** Math.floor(COLS / 2). */
  const CenterCol: int := 3

  /** The number of cells of `w` holding `x` (`filter(...).length`). */
  function Count(w: seq<Cell>, x: Cell): (n: nat)
    ensures n <= |w|
  {
    if w == [] then 0 else (if w[0] == x then 1 else 0) + Count(w[1..], x)
  }

  /** Every cell is EMPTY or holds one of the two players' discs. */
  lemma {:induction false} CountsAddUp(w: seq<Cell>)
    ensures Count(w, Empty) + Count(w, Player1) + Count(w, Player2) == |w|
  {
    if w != [] {
      CountsAddUp(w[1..]);
    }
  }

  /** The count is 0 exactly when no cell holds `x`. */
  lemma {:induction false} CountZero(w: seq<Cell>, x: Cell)
    ensures Count(w, x) == 0 <==> x !in w
  {
    if w != [] {
      CountZero(w[1..], x);
      assert w == [w[0]] + w[1..];
    }
  }

  /** A count equal to the length means every cell holds `x`. */
  lemma {:induction false} CountAll(w: seq<Cell>, x: Cell)
    requires Count(w, x) == |w|
    ensures forall i :: 0 <= i < |w| ==> w[i] == x
  {
    if w != [] {
      CountAll(w[1..], x);
      assert forall i :: 1 <= i < |w| ==> w[i] == w[1..][i - 1];
    }
  }

  /**
   * evaluateWindow: the score of one window for `p`, from the counts of
   * `p`'s discs, EMPTY cells and the opponent's discs. The gain for `p` and
   * the penalty for the opponent are two separate chains of tests.
   */
  function EvaluateWindow(window: seq<Cell>, p: Player): (score: int)
    ensures -80 <= score <= 100000
  {
    var opponent := Opponent(p);
    var playerCount := Count(window, p);
    var emptyCount := Count(window, Empty);
    var opponentCount := Count(window, opponent);
    var gain :=
      if playerCount == 4 then 100000
      else if playerCount == 3 && emptyCount == 1 then 50
      else if playerCount == 2 && emptyCount == 2 then 10
      else if playerCount == 1 && emptyCount == 3 then 1
      else 0;
    var penalty :=
      if opponentCount == 3 && emptyCount == 1 then 80
      else if opponentCount == 2 && emptyCount == 2 then 5
      else 0;
    gain - penalty
  }

  /**
   * The score table of a four-cell window, with p, o and e the counts of
   * `p`'s discs, the opponent's discs and EMPTY cells: each listed case
   * gives its score and no other window gives it; every other window, in
   * particular every window holding discs of both players, scores 0.
   */
  lemma WindowTable(window: seq<Cell>, p: Player)
    requires |window| == 4
    ensures var s, pc, oc, ec := EvaluateWindow(window, p), Count(window, p), Count(window, Opponent(p)), Count(window, Empty);
      && (s == 100000 <==> pc == 4)
      && (s == 50 <==> pc == 3 && ec == 1)
      && (s == 10 <==> pc == 2 && ec == 2)
      && (s == 1 <==> pc == 1 && ec == 3)
      && (s == -80 <==> oc == 3 && ec == 1)
      && (s == -5 <==> oc == 2 && ec == 2)
      && (pc > 0 && oc > 0 ==> s == 0)
      && (s == 0 || s == 100000 || s == 50 || s == 10 || s == 1 || s == -80 || s == -5)
  {
    CountsAddUp(window);
  }

  /** The cells of a run that lies on the board, in order. */
  function Window(b: Board, r: Run): (w: seq<Cell>)
    requires OnBoard(r)
  {
    seq(4, k requires 0 <= k < 4 => b[Along(r.start, r.dir, k).row][Along(r.start, r.dir, k).col])
  }

  /** The number of windows scorePosition visits: 24 horizontal, 21 vertical and 12 along each diagonal. */
  const WindowCount: int := 69

  /**
   * The `i`-th window scorePosition visits: the four passes one after the
   * other (horizontal, vertical, down-right, up-right), each pass in the
   * order of its nested loops.
   */
  function WindowAt(i: int): (r: Run)
    requires 0 <= i < WindowCount
    ensures OnBoard(r) && RunIndex(r) == i
  {
    if i < 24 then Run(Coord(i / 4, i % 4), 0)
    else if i < 45 then Run(Coord((i - 24) % 3, (i - 24) / 3), 1)
    else if i < 57 then Run(Coord((i - 45) / 4, (i - 45) % 4), 2)
    else Run(Coord(3 + (i - 57) / 4, (i - 57) % 4), 3)
  }

  /** Where a run sits in scorePosition's visiting order. */
  function RunIndex(r: Run): (i: int)
  {
    if r.dir == 0 then 4 * r.start.row + r.start.col
    else if r.dir == 1 then 24 + 3 * r.start.col + r.start.row
    else if r.dir == 2 then 45 + 4 * r.start.row + r.start.col
    else 57 + 4 * (r.start.row - 3) + r.start.col
  }

  /** The division facts the window order rests on. */
  lemma DivMod(q: int, r: int, n: int)
    requires 0 <= q && 0 <= r < n && (n == 3 || n == 4)
    ensures (n * q + r) / n == q && (n * q + r) % n == r
  {
    if n == 3 {
      assert 3 * q + r == 3 * q + r;
    }
  }

  /** Every run of four on the board is visited, at the position RunIndex gives. */
  lemma RunAt(r: Run)
    requires OnBoard(r)
    ensures 0 <= RunIndex(r) < WindowCount && WindowAt(RunIndex(r)) == r
  {
    var a, z := Along(r.start, r.dir, 0), Along(r.start, r.dir, 3);
    assert InRange(a.row, a.col) && InRange(z.row, z.col);
    if r.dir == 0 {
      DivMod(r.start.row, r.start.col, 4);
    } else if r.dir == 1 {
      DivMod(r.start.col, r.start.row, 3);
    } else if r.dir == 2 {
      DivMod(r.start.row, r.start.col, 4);
    } else {
      DivMod(r.start.row - 3, r.start.col, 4);
    }
  }

  /**
   * The windows are exactly the runs of four on the board: each lies on the
   * board, no run is visited twice, and every run on the board is visited.
   */
  lemma WindowsExact()
    ensures forall i :: 0 <= i < WindowCount ==> OnBoard(WindowAt(i))
    ensures forall i, j :: 0 <= i < j < WindowCount ==> WindowAt(i) != WindowAt(j)
    ensures forall r: Run :: OnBoard(r) ==> exists i :: 0 <= i < WindowCount && WindowAt(i) == r
  {
    forall i, j | 0 <= i < j < WindowCount
      ensures WindowAt(i) != WindowAt(j)
    {
      assert RunIndex(WindowAt(i)) != RunIndex(WindowAt(j));
    }
    forall r: Run | OnBoard(r)
      ensures exists i :: 0 <= i < WindowCount && WindowAt(i) == r
    {
      RunAt(r);
    }
  }

  /** The sum of evaluateWindow over the first `n` windows scorePosition visits. */
  function WindowsSum(b: Board, p: Player, n: int): (sum: int)
    requires 0 <= n <= WindowCount
  {
    if n == 0 then 0
    else WindowsSum(b, p, n - 1) + EvaluateWindow(Window(b, WindowAt(n - 1)), p)
  }

  /** The centre column, top to bottom (`board.map(row => row[centerCol])`). */
  function CenterColumn(b: Board): (column: seq<Cell>)
  {
    seq(Rows, r requires 0 <= r < Rows => b[r][CenterCol])
  }

  /** The largest magnitude scorePosition can reach: 6 * 6 + 69 * 100000. */
  const MaxPositionScore: int := 6 * Rows + 69 * 100000

  /**
   * scorePosition as a value: 6 per disc of `p` in the centre column plus
   * the sum over all 69 windows. It lies within
   * [-69 * 80, 6 * 6 + 69 * 100000].
   */
  function PositionScore(b: Board, p: Player): (score: int)
    ensures -69 * 80 <= score <= MaxPositionScore
  {
    WindowsSumBounds(b, p, WindowCount);
    Count(CenterColumn(b), p) * 6 + WindowsSum(b, p, WindowCount)
  }

  /**
   * scorePosition: the centre bonus, then four passes of nested loops over
   * the horizontal, vertical, down-right and up-right windows.
   */
  method ScorePosition(b: Board, p: Player) returns (score: int)
    ensures score == PositionScore(b, p)
  {
    score := 0;
    var centerArray := seq(Rows, r requires 0 <= r < Rows => b[r][CenterCol]);
    assert centerArray == CenterColumn(b);
    score := score + Count(centerArray, p) * 6;
    score := HorizontalPass(b, p, score);
    score := VerticalPass(b, p, score);
    score := DownRightPass(b, p, score);
    score := UpRightPass(b, p, score);
  }

  /** The first pass of scorePosition: every row, windows starting in columns 0 to 3. */
  method HorizontalPass(b: Board, p: Player, score0: int) returns (score: int)
    ensures score == score0 + WindowsSum(b, p, 24)
  {
    score := score0;
    for row := 0 to Rows
      invariant score == score0 + WindowsSum(b, p, 4 * row)
    {
      score := HorizontalRow(b, p, row, score);
    }
  }

  /** One row of the horizontal pass: the windows starting in columns 0 to 3 of `row`. */
  method HorizontalRow(b: Board, p: Player, row: int, score0: int) returns (score: int)
    requires 0 <= row < Rows
    ensures score == score0 + (WindowsSum(b, p, 4 * row + 4) - WindowsSum(b, p, 4 * row))
  {
    score := score0;
    for col := 0 to Cols - 3
      invariant score == score0 + (WindowsSum(b, p, 4 * row + col) - WindowsSum(b, p, 4 * row))
    {
      var window := b[row][col..col + 4];
      HorizontalStep(b, p, row, col, window);
      score := score + EvaluateWindow(window, p);
    }
  }

  /** The second pass of scorePosition: every column, windows starting in rows 0 to 2. */
  method VerticalPass(b: Board, p: Player, score0: int) returns (score: int)
    ensures score == score0 + (WindowsSum(b, p, 45) - WindowsSum(b, p, 24))
  {
    score := score0;
    for col := 0 to Cols
      invariant score == score0 + (WindowsSum(b, p, 24 + 3 * col) - WindowsSum(b, p, 24))
    {
      for row := 0 to Rows - 3
        invariant score == score0 + (WindowsSum(b, p, 24 + 3 * col + row) - WindowsSum(b, p, 24))
      {
        var window := [b[row][col], b[row + 1][col], b[row + 2][col], b[row + 3][col]];
        VerticalStep(b, p, row, col);
        score := score + EvaluateWindow(window, p);
      }
    }
  }

  /** The third pass of scorePosition: diagonals going down to the right. */
  method DownRightPass(b: Board, p: Player, score0: int) returns (score: int)
    ensures score == score0 + (WindowsSum(b, p, 57) - WindowsSum(b, p, 45))
  {
    score := score0;
    for row := 0 to Rows - 3
      invariant score == score0 + (WindowsSum(b, p, 45 + 4 * row) - WindowsSum(b, p, 45))
    {
      for col := 0 to Cols - 3
        invariant score == score0 + (WindowsSum(b, p, 45 + 4 * row + col) - WindowsSum(b, p, 45))
      {
        var window := [b[row][col], b[row + 1][col + 1], b[row + 2][col + 2], b[row + 3][col + 3]];
        DownRightStep(b, p, row, col);
        score := score + EvaluateWindow(window, p);
      }
    }
  }

  /** The fourth pass of scorePosition: diagonals going up to the right. */
  method UpRightPass(b: Board, p: Player, score0: int) returns (score: int)
    ensures score == score0 + (WindowsSum(b, p, WindowCount) - WindowsSum(b, p, 57))
  {
    score := score0;
    for row := 3 to Rows
      invariant score == score0 + (WindowsSum(b, p, 57 + 4 * (row - 3)) - WindowsSum(b, p, 57))
    {
      for col := 0 to Cols - 3
        invariant score == score0 + (WindowsSum(b, p, 57 + 4 * (row - 3) + col) - WindowsSum(b, p, 57))
      {
        var window := [b[row][col], b[row - 1][col + 1], b[row - 2][col + 2], b[row - 3][col + 3]];
        UpRightStep(b, p, row, col);
        score := score + EvaluateWindow(window, p);
      }
    }
  }

  /** One loop step of scorePosition adds the score of the next window in the visiting order. */
  lemma WindowStep(b: Board, p: Player, r: Run, window: seq<Cell>)
    requires OnBoard(r)
    requires |window| == 4
    requires forall k :: 0 <= k < 4 ==> window[k] == b[Along(r.start, r.dir, k).row][Along(r.start, r.dir, k).col]
    ensures 0 <= RunIndex(r) < WindowCount
    ensures WindowsSum(b, p, RunIndex(r) + 1) == WindowsSum(b, p, RunIndex(r)) + EvaluateWindow(window, p)
  {
    RunAt(r);
    assert window == Window(b, r);
  }

  /** The step of the horizontal pass at (row, col). */
  lemma HorizontalStep(b: Board, p: Player, row: int, col: int, window: seq<Cell>)
    requires 0 <= row < Rows && 0 <= col < Cols - 3
    requires window == b[row][col..col + 4]
    ensures WindowsSum(b, p, 4 * row + col + 1) == WindowsSum(b, p, 4 * row + col) + EvaluateWindow(window, p)
  {
    WindowStep(b, p, Run(Coord(row, col), 0), window);
  }

  /** The step of the vertical pass at (row, col). */
  lemma VerticalStep(b: Board, p: Player, row: int, col: int)
    requires 0 <= row < Rows - 3 && 0 <= col < Cols
    ensures WindowsSum(b, p, 24 + 3 * col + row + 1)
         == WindowsSum(b, p, 24 + 3 * col + row) + EvaluateWindow([b[row][col], b[row + 1][col], b[row + 2][col], b[row + 3][col]], p)
  {
    WindowStep(b, p, Run(Coord(row, col), 1), [b[row][col], b[row + 1][col], b[row + 2][col], b[row + 3][col]]);
  }

  /** The step of the down-right pass at (row, col). */
  lemma DownRightStep(b: Board, p: Player, row: int, col: int)
    requires 0 <= row < Rows - 3 && 0 <= col < Cols - 3
    ensures WindowsSum(b, p, 45 + 4 * row + col + 1)
         == WindowsSum(b, p, 45 + 4 * row + col) + EvaluateWindow([b[row][col], b[row + 1][col + 1], b[row + 2][col + 2], b[row + 3][col + 3]], p)
  {
    WindowStep(b, p, Run(Coord(row, col), 2), [b[row][col], b[row + 1][col + 1], b[row + 2][col + 2], b[row + 3][col + 3]]);
  }

  /** The step of the up-right pass at (row, col). */
  lemma UpRightStep(b: Board, p: Player, row: int, col: int)
    requires 3 <= row < Rows && 0 <= col < Cols - 3
    ensures WindowsSum(b, p, 57 + 4 * (row - 3) + col + 1)
         == WindowsSum(b, p, 57 + 4 * (row - 3) + col) + EvaluateWindow([b[row][col], b[row - 1][col + 1], b[row - 2][col + 2], b[row - 3][col + 3]], p)
  {
    WindowStep(b, p, Run(Coord(row, col), 3), [b[row][col], b[row - 1][col + 1], b[row - 2][col + 2], b[row - 3][col + 3]]);
  }

  /** Each window scores between -80 and 100000. */
  lemma {:induction false} WindowsSumBounds(b: Board, p: Player, n: int)
    requires 0 <= n <= WindowCount
    ensures -80 * n <= WindowsSum(b, p, n) <= 100000 * n
  {
    if n > 0 {
      WindowsSumBounds(b, p, n - 1);
    }
  }

  /** A window holds four of `p`'s discs exactly when its run is a line of `p`. */
  lemma FullWindowIsLine(b: Board, p: Player, r: Run)
    requires OnBoard(r)
    ensures Count(Window(b, r), p) == 4 <==> Rules.LineAt(b, p, r.start, r.dir)
  {
    var w := Window(b, r);
    if Count(w, p) == 4 {
      CountAll(w, p);
      forall k | 0 <= k < 4
        ensures Rules.Holds(b, p, Along(r.start, r.dir, k))
      {
        assert w[k] == p;
      }
    }
    if Rules.LineAt(b, p, r.start, r.dir) {
      forall k | 0 <= k < 4
        ensures w[k] == p
      {
        assert Rules.Holds(b, p, Along(r.start, r.dir, k));
      }
      assert Count(w[3..], p) == 1 by { assert w[3..][1..] == []; }
      assert Count(w[2..], p) == 2 by { assert w[2..][1..] == w[3..]; }
      assert Count(w[1..], p) == 3 by { assert w[1..][1..] == w[2..]; }
      assert Count(w, p) == 4;
    }
  }

  /** Without a line of `p` on the board, no window scores more than 50. */
  lemma {:induction false} WindowsSumWithoutLine(b: Board, p: Player, n: int)
    requires 0 <= n <= WindowCount
    requires !Rules.HasLine(b, p)
    ensures WindowsSum(b, p, n) <= 50 * n
  {
    if n > 0 {
      var r := WindowAt(n - 1);
      WindowsSumWithoutLine(b, p, n - 1);
      if Count(Window(b, r), p) == 4 {
        FullWindowIsLine(b, p, r);
      }
    }
  }

  /**
   * Without a line of `p` on the board, scorePosition stays far below a win
   * (at most 6 * 6 + 69 * 50), so the search's win value outranks it.
   */
  lemma PositionScoreWithoutLine(b: Board, p: Player)
    requires !Rules.HasLine(b, p)
    ensures PositionScore(b, p) <= 6 * Rows + 69 * 50
  {
    WindowsSumWithoutLine(b, p, WindowCount);
  }
}
