/**
 * The rules engine: finding a line of four discs of one player (`checkWin`).
 *
 * A line is four cells, each on the board and holding the player's disc,
 * that follow one another along one of the four forward directions. The
 * scan visits the cells in row-major order and, at each cell holding the
 * player's disc, tries the directions in table order; it reports the first
 * line it meets.
 */
module Rules {

  import opened Wrappers
  import opened Board

  /** checkWin's direction table: for each direction, the offsets (dr, dc) of the three cells after the first. */
  const Directions: seq<seq<(int, int)>> := [
    [(0, 1), (0, 2), (0, 3)],
    [(1, 0), (2, 0), (3, 0)],
    [(1, 1), (2, 2), (3, 3)],
    [(-1, 1), (-2, 2), (-3, 3)]
  ]

  /** The table lists, for each direction, the cells 1, 2 and 3 steps away. */
  lemma DirectionTable(start: Coord, d: nat, i: nat)
    requires d < DirectionCount && i < 3
    ensures |Directions| == DirectionCount && |Directions[d]| == 3
    ensures Coord(start.row + Directions[d][i].0, start.col + Directions[d][i].1) == Along(start, d, i + 1)
  {
  }

  /** The cell exists on the board and holds `p`'s disc. */
  predicate Holds(b: Board, p: Player, c: Coord)
  {
    InRange(c.row, c.col) && b[c.row][c.col] == p
  }

  /** Four discs of `p` starting at `start` in direction `d`. */
  predicate LineAt(b: Board, p: Player, start: Coord, d: nat)
    requires d < DirectionCount
  {
    forall k :: 0 <= k < 4 ==> Holds(b, p, Along(start, d, k))
  }

  /** `p` has four in a row somewhere on the board. */
  ghost predicate HasLine(b: Board, p: Player)
  {
    exists start: Coord, d: nat :: d < DirectionCount && LineAt(b, p, start, d)
  }

  /** The four cells of the run starting at `start` in direction `d`, in order. */
  function LineCells(start: Coord, d: nat): (cells: seq<Coord>)
    requires d < DirectionCount
    ensures |cells| == 4 && forall k :: 0 <= k < 4 ==> cells[k] == Along(start, d, k)
  {
    [Along(start, d, 0), Along(start, d, 1), Along(start, d, 2), Along(start, d, 3)]
  }

  /** `cells` follow one another, one step at a time, in direction `d`. */
  ghost predicate Consecutive(cells: seq<Coord>, d: nat)
    requires d < DirectionCount && |cells| > 0
  {
    forall k :: 0 <= k < |cells| ==> cells[k] == Along(cells[0], d, k)
  }

  /** What a reported line must be: 4 consecutive cells, all on the board and all `p`'s. */
  ghost predicate IsLine(b: Board, p: Player, cells: seq<Coord>)
  {
    && |cells| == 4
    && (exists d: nat :: d < DirectionCount && Consecutive(cells, d))
    && forall k :: 0 <= k < 4 ==> Holds(b, p, cells[k])
  }

  /** The position of a line start in the scan order: row-major, then direction. */
  function Rank(s: Run): (rank: int)
  {
    28 * s.start.row + 4 * s.start.col + s.dir
  }

  /** The first direction, from `d` on, in which a line of `p` starts at `start`. */
  function FirstDirection(b: Board, p: Player, start: Coord, d: nat): (r: Option<nat>)
    requires d <= DirectionCount
    ensures r.Some? ==> d <= r.value < DirectionCount && LineAt(b, p, start, r.value)
    ensures forall d' :: d <= d' < DirectionCount && (r.None? || d' < r.value) ==> !LineAt(b, p, start, d')
    decreases DirectionCount - d
  {
    if d == DirectionCount then None
    else if LineAt(b, p, start, d) then Some(d)
    else FirstDirection(b, p, start, d + 1)
  }

  /**
   * The scan of checkWin from cell (row, col) on: the first line start in
   * scan order at or after that cell.
   */
  function ScanFrom(b: Board, p: Player, row: int, col: int): (r: Option<Run>)
    requires 0 <= row <= Rows && 0 <= col <= Cols
    ensures r.Some? ==> r.value.dir < DirectionCount && LineAt(b, p, r.value.start, r.value.dir)
    ensures r.Some? ==> Rank(r.value) >= 28 * row + 4 * col
    decreases Rows - row, Cols - col
  {
    if row == Rows then None
    else if col == Cols then ScanFrom(b, p, row + 1, 0)
    else
      var found := FirstDirection(b, p, Coord(row, col), 0);
      if b[row][col] == p && found.Some? then Some(Run(Coord(row, col), found.value))
      else ScanFrom(b, p, row, col + 1)
  }

  /** The start of the line checkWin reports, if any. */
  function FirstLine(b: Board, p: Player): (r: Option<Run>)
  {
    ScanFrom(b, p, 0, 0)
  }

  /**
   * checkWin as a value: the cells of the first line of `p`, or None
   * (`null`). A reported line is four cells on the board holding `p`'s disc.
   */
  function FindLine(b: Board, p: Player): (cells: Option<seq<Coord>>)
    ensures cells.Some? ==> |cells.value| == 4 && forall k :: 0 <= k < 4 ==> Holds(b, p, cells.value[k])
  {
    match FirstLine(b, p)
    case None => None
    case Some(s) => Some(LineCells(s.start, s.dir))
  }

  /**
   * One direction of checkWin at `start`: extend the run from `start` with
   * the cells at the table's offsets, stopping at the first one that is off
   * the board or not `p`'s.
   */
  method CheckDirection(b: Board, p: Player, start: Coord, d: nat) returns (line: seq<Coord>, valid: bool)
    requires d < DirectionCount && Holds(b, p, start)
    ensures valid <==> LineAt(b, p, start, d)
    ensures valid ==> line == LineCells(start, d)
  {
    DirectionTable(start, d, 0);
    var direction := Directions[d];
    line := [start];
    valid := true;
    for i := 0 to |direction|
      invariant line == LineCells(start, d)[..i + 1]
      invariant forall k :: 0 <= k <= i ==> Holds(b, p, Along(start, d, k))
    {
      DirectionTable(start, d, i);
      var newRow := start.row + direction[i].0;
      var newCol := start.col + direction[i].1;
      if 0 <= newRow < Rows && 0 <= newCol < Cols && b[newRow][newCol] == p {
        line := line + [Coord(newRow, newCol)];
      } else {
        assert !Holds(b, p, Along(start, d, i + 1));
        valid := false;
        break;
      }
    }
  }

  /**
   * checkWin: for every cell holding `p`, in row-major order, try each
   * direction of the table in turn and return the first complete run.
   */
  method CheckWin(b: Board, p: Player) returns (cells: Option<seq<Coord>>)
    ensures cells == FindLine(b, p)
  {
    for row := 0 to Rows
      invariant ScanFrom(b, p, row, 0) == FirstLine(b, p)
    {
      var found := CheckRow(b, p, row);
      if found.Some? {
        return found;
      }
    }
    return None;
  }

  /** One row of checkWin: the first line starting in this row, or, if there is none, the scan goes on with the next row. */
  method CheckRow(b: Board, p: Player, row: int) returns (found: Option<seq<Coord>>)
    requires 0 <= row < Rows
    ensures found.None? ==> ScanFrom(b, p, row, 0) == ScanFrom(b, p, row + 1, 0)
    ensures found.Some? ==>
              && ScanFrom(b, p, row, 0).Some?
              && found.value == LineCells(ScanFrom(b, p, row, 0).value.start, ScanFrom(b, p, row, 0).value.dir)
  {
    for col := 0 to Cols
      invariant ScanFrom(b, p, row, col) == ScanFrom(b, p, row, 0)
    {
      if b[row][col] == p {
        found := CheckCell(b, p, Coord(row, col));
        if found.Some? {
          return;
        }
      }
      assert ScanFrom(b, p, row, col) == ScanFrom(b, p, row, col + 1);
    }
    assert ScanFrom(b, p, row, Cols) == ScanFrom(b, p, row + 1, 0);
    return None;
  }

  /** The directions of checkWin at one cell holding `p`: the cells of the first line starting there, if any. */
  method CheckCell(b: Board, p: Player, start: Coord) returns (found: Option<seq<Coord>>)
    requires Holds(b, p, start)
    ensures found.None? <==> FirstDirection(b, p, start, 0).None?
    ensures found.Some? ==> found.value == LineCells(start, FirstDirection(b, p, start, 0).value)
  {
    for d := 0 to |Directions|
      invariant FirstDirection(b, p, start, d) == FirstDirection(b, p, start, 0)
    {
      var line, valid := CheckDirection(b, p, start, d);
      if valid {
        return Some(line);
      }
    }
    return None;
  }

  /** The scan from (row, col) finds a line whenever one starts at or after that cell, and none later than it. */
  lemma {:induction false} ScanFromComplete(b: Board, p: Player, row: int, col: int, s: Run)
    requires 0 <= row <= Rows && 0 <= col <= Cols
    requires s.dir < DirectionCount && LineAt(b, p, s.start, s.dir)
    requires Rank(s) >= 28 * row + 4 * col
    ensures ScanFrom(b, p, row, col).Some? && Rank(ScanFrom(b, p, row, col).value) <= Rank(s)
    decreases Rows - row, Cols - col
  {
    assert Holds(b, p, Along(s.start, s.dir, 0));
    if row == Rows {
      assert false;
    } else if col == Cols {
      ScanFromComplete(b, p, row + 1, 0, s);
    } else if s.start == Coord(row, col) {
      assert FirstDirection(b, p, Coord(row, col), 0).Some?;
    } else {
      var found := FirstDirection(b, p, Coord(row, col), 0);
      if !(b[row][col] == p && found.Some?) {
        ScanFromComplete(b, p, row, col + 1, s);
      }
    }
  }

  /**
   * checkWin reports only genuine lines: four cells, on the board, all
   * holding `p`'s disc, each one step after the previous one in one of the
   * four directions.
   */
  lemma FindLineSound(b: Board, p: Player)
    requires FindLine(b, p).Some?
    ensures IsLine(b, p, FindLine(b, p).value)
  {
    var s := FirstLine(b, p).value;
    var cells := FindLine(b, p).value;
    assert Consecutive(cells, s.dir);
  }

  /** checkWin returns null exactly when `p` has no four in a row anywhere. */
  lemma FindLineComplete(b: Board, p: Player)
    ensures FindLine(b, p).None? <==> !HasLine(b, p)
  {
    if HasLine(b, p) {
      var start: Coord, d: nat :| d < DirectionCount && LineAt(b, p, start, d);
      assert Holds(b, p, Along(start, d, 0));
      ScanFromComplete(b, p, 0, 0, Run(start, d));
    }
  }

  /** The reported line is the first in scan order: no line of `p` starts earlier. */
  lemma FirstLineEarliest(b: Board, p: Player, start: Coord, d: nat)
    requires d < DirectionCount && LineAt(b, p, start, d)
    ensures FirstLine(b, p).Some?
    ensures Rank(FirstLine(b, p).value) <= Rank(Run(start, d))
  {
    assert Holds(b, p, Along(start, d, 0));
    ScanFromComplete(b, p, 0, 0, Run(start, d));
  }

  /** Placing a disc of `p` never creates a line for anyone else. */
  lemma PlaceKeepsOtherLines(b: Board, row: int, col: int, p: Player, q: Player)
    requires InRange(row, col) && q != p
    ensures HasLine(Place(b, row, col, p), q) ==> HasLine(b, q)
  {
    if HasLine(Place(b, row, col, p), q) {
      var start: Coord, d: nat :| d < DirectionCount && LineAt(Place(b, row, col, p), q, start, d);
      forall k | 0 <= k < 4
        ensures Holds(b, q, Along(start, d, k))
      {
        assert Holds(Place(b, row, col, p), q, Along(start, d, k));
      }
      assert LineAt(b, q, start, d);
    }
  }

  /** An empty board holds no line. */
  lemma NewBoardHasNoLine(p: Player)
    ensures !HasLine(NewBoard(), p)
  {
    forall start: Coord, d: nat | d < DirectionCount
      ensures !LineAt(NewBoard(), p, start, d)
    {
      assert !Holds(NewBoard(), p, Along(start, d, 0));
    }
  }
}
