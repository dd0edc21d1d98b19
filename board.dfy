/**
 * The board model: a 6 x 7 grid of cells, row 0 at the top, and the
 * structural queries the game asks of it (is a column full, which row a
 * dropped disc lands on, is the whole board full).
 *
 * Boards are values. The game never writes into a board it shares: every
 * write goes into a fresh copy (`copyBoard`), so a write is modelled as a
 * functional update of the copy.
 */
module Board {

  const Rows: int := 6
  const Cols: int := 7

  /** EMPTY = 0, PLAYER1 = 1, PLAYER2 = 2; no other value ever sits in a cell. */
  datatype Cell = Empty | Player1 | Player2

  type Player = c: Cell | c != Empty witness Player1

  function Opponent(p: Player): (q: Player)
    ensures q != p
  {
    if p == Player1 then Player2 else Player1
  }

  ghost predicate IsGrid(b: seq<seq<Cell>>)
  {
    |b| == Rows && forall r :: 0 <= r < |b| ==> |b[r]| == Cols
  }

  type Board = b: seq<seq<Cell>> | IsGrid(b) witness seq(6, _ => seq(7, _ => Empty))

  predicate InRange(row: int, col: int)
  {
    0 <= row < Rows && 0 <= col < Cols
  }

  /** A (row, col) position; it need not lie on the board. */
  datatype Coord = Coord(row: int, col: int)

  /**
   * The four forward directions in which the game looks for lines, in the
   * order it tries them: 0 horizontal (0, +1), 1 vertical (+1, 0),
   * 2 diagonal (+1, +1) and 3 diagonal (-1, +1).
   */
  const DirectionCount: nat := 4

  /** The cell `k` steps from `start` in direction `d`. */
  function Along(start: Coord, d: nat, k: int): (c: Coord)
    requires d < DirectionCount
  {
    if d == 0 then Coord(start.row, start.col + k)
    else if d == 1 then Coord(start.row + k, start.col)
    else if d == 2 then Coord(start.row + k, start.col + k)
    else Coord(start.row - k, start.col + k)
  }

  /** A run of four cells: its first cell and its direction. */
  datatype Run = Run(start: Coord, dir: nat)

  /** All four cells of the run lie on the board. */
  predicate OnBoard(r: Run)
  {
    r.dir < DirectionCount && forall k :: 0 <= k < 4 ==> InRange(Along(r.start, r.dir, k).row, Along(r.start, r.dir, k).col)
  }

  /** The board a new game starts from. */
  function NewBoard(): (b: Board)
    ensures forall r, c :: InRange(r, c) ==> b[r][c] == Empty
  {
    seq(Rows, _ => seq(Cols, _ => Empty))
  }

  /** copyBoard: a row-by-row copy; as a value it has the same cells as the original. */
  function CopyBoard(b: Board): (copy: Board)
    ensures copy == b
  {
    var rows := seq(Rows, r requires 0 <= r < Rows => b[r][..]);
    assert forall r :: 0 <= r < Rows ==> rows[r] == b[r];
    rows
  }

  /**
   * isColumnFull: the top cell of the column is not EMPTY. A column index
   * outside the board reads `undefined`, which is not EMPTY either, so such a
   * column counts as full.
   */
  predicate IsColumnFull(b: Board, col: int)
    ensures !(0 <= col < Cols) ==> IsColumnFull(b, col)
    ensures Gravity(b) && 0 <= col < Cols ==> (IsColumnFull(b, col) <==> forall r :: 0 <= r < Rows ==> b[r][col] != Empty)
  {
    !(0 <= col < Cols) || b[0][col] != Empty
  }

  /** A cell that exists on the board and holds EMPTY. */
  predicate IsEmptyAt(b: Board, row: int, col: int)
  {
    InRange(row, col) && b[row][col] == Empty
  }

  /** The first EMPTY cell met scanning up from `row` to the top row, or -1. */
  function FirstEmptyUpFrom(b: Board, col: int, row: int): (r: int)
    requires -1 <= row < Rows
    ensures -1 <= r <= row
    ensures r >= 0 ==> IsEmptyAt(b, r, col)
    ensures forall r' :: r < r' <= row ==> !IsEmptyAt(b, r', col)
    decreases row + 1
  {
    if row < 0 then -1
    else if IsEmptyAt(b, row, col) then row
    else FirstEmptyUpFrom(b, col, row - 1)
  }

  /**
   * getNextRow as a value: the largest row whose cell in `col` is EMPTY
   * (the row a dropped disc lands on), or -1 when the column has none.
   */
  function NextRow(b: Board, col: int): (r: int)
    ensures -1 <= r < Rows
    ensures r >= 0 ==> IsEmptyAt(b, r, col)
    ensures forall r' :: r < r' < Rows ==> !IsEmptyAt(b, r', col)
    ensures r == -1 <==> forall r' :: 0 <= r' < Rows ==> !IsEmptyAt(b, r', col)
  {
    FirstEmptyUpFrom(b, col, Rows - 1)
  }

  /** getNextRow: scans from the bottom row upward and stops at the first EMPTY cell. */
  method GetNextRow(b: Board, col: int) returns (r: int)
    ensures r == NextRow(b, col)
  {
    var row := Rows - 1;
    while row >= 0
      invariant -1 <= row < Rows
      invariant FirstEmptyUpFrom(b, col, row) == NextRow(b, col)
    {
      if 0 <= col < Cols && b[row][col] == Empty {
        return row;
      }
      row := row - 1;
    }
    return -1;
  }

  /** isBoardFull: every cell of the top row is taken. */
  predicate IsBoardFull(b: Board)
    ensures IsBoardFull(b) <==> forall c :: 0 <= c < Cols ==> IsColumnFull(b, c)
  {
    assert forall c :: 0 <= c < Cols ==> (IsColumnFull(b, c) <==> b[0][c] != Empty);
    forall c :: 0 <= c < Cols ==> b[0][c] != Empty
  }

  /**
   * The gravity invariant: a disc never floats, i.e. in every column every
   * cell below an occupied cell is occupied too.
   */
  ghost predicate Gravity(b: Board)
  {
    forall r, r', c :: 0 <= r < r' < Rows && 0 <= c < Cols && b[r][c] != Empty ==> b[r'][c] != Empty
  }

  /** Writing `p` into one cell of a copy: exactly that cell changes. */
  function Place(b: Board, row: int, col: int, p: Player): (b': Board)
    requires InRange(row, col)
    ensures forall r, c :: InRange(r, c) ==> b'[r][c] == if r == row && c == col then p else b[r][c]
  {
    b[row := b[row][col := p]]
  }

  /**
   * A disc of `p` dropped into a column that is not full: it lands on the
   * column's lowest EMPTY cell, and no other cell changes.
   */
  function Drop(b: Board, col: int, p: Player): (b': Board)
    requires !IsColumnFull(b, col)
    ensures 0 <= NextRow(b, col) && b[NextRow(b, col)][col] == Empty
    ensures forall r, c :: InRange(r, c) ==> b'[r][c] == if r == NextRow(b, col) && c == col then p else b[r][c]
  {
    assert IsEmptyAt(b, 0, col);
    Place(CopyBoard(b), NextRow(b, col), col, p)
  }

  /**
   * Under gravity the two column queries agree on an in-range column:
   * getNextRow returns -1 exactly when isColumnFull holds, and otherwise the
   * landing row has only EMPTY cells above it.
   */
  lemma NextRowFull(b: Board, col: int)
    requires Gravity(b)
    requires 0 <= col < Cols
    ensures NextRow(b, col) == -1 <==> IsColumnFull(b, col)
    ensures forall r :: 0 <= r <= NextRow(b, col) ==> b[r][col] == Empty
  {
    var n := NextRow(b, col);
    if IsColumnFull(b, col) {
      forall r | 0 <= r < Rows
        ensures !IsEmptyAt(b, r, col)
      {
        assert b[0][col] != Empty;
      }
    } else {
      assert IsEmptyAt(b, 0, col);
    }
    forall r | 0 <= r < n
      ensures b[r][col] == Empty
    {
      assert b[n][col] == Empty;
    }
  }

  /**
   * Dropping a disc keeps the gravity invariant; the landing cell rests on
   * an occupied cell or on the floor.
   */
  lemma DropPreservesGravity(b: Board, col: int, p: Player)
    requires Gravity(b)
    requires !IsColumnFull(b, col)
    ensures NextRow(b, col) + 1 < Rows ==> b[NextRow(b, col) + 1][col] != Empty
    ensures Gravity(Drop(b, col, p))
  {
    var row := NextRow(b, col);
    NextRowFull(b, col);
    var b' := Drop(b, col, p);
    forall r, r', c | 0 <= r < r' < Rows && 0 <= c < Cols && b'[r][c] != Empty
      ensures b'[r'][c] != Empty
    {
      if c == col && r == row {
        assert !IsEmptyAt(b, r', c);
      } else if c != col || r' != row {
        assert b[r][c] != Empty;
      }
    }
  }

  /**
   * Under gravity, the top row being full (isBoardFull) means that all 42
   * cells are taken.
   */
  lemma FullBoardHasNoEmptyCell(b: Board)
    requires Gravity(b)
    ensures IsBoardFull(b) <==> forall r, c :: InRange(r, c) ==> b[r][c] != Empty
  {
    if IsBoardFull(b) {
      forall r, c | InRange(r, c)
        ensures b[r][c] != Empty
      {
        assert b[0][c] != Empty;
      }
    }
  }

  /** A new board satisfies the gravity invariant and has every column open. */
  lemma NewBoardOpen()
    ensures Gravity(NewBoard())
    ensures forall c :: 0 <= c < Cols ==> !IsColumnFull(NewBoard(), c) && NextRow(NewBoard(), c) == Rows - 1
    ensures !IsBoardFull(NewBoard())
  {
    assert !IsColumnFull(NewBoard(), 0);
  }
}
