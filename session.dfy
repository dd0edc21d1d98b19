/**
 * The game session: the turn-taking state the game component keeps around
 * the rules engine (the board, whose turn it is, whether the game is over
 * and who won, the move history and the score tally) and the transitions
 * that change it: a move (`makeMove`'s guard, the disc write done when the
 * drop animation ends, and `finalizeMoveAfterAnimation`), a new game
 * (`resetGame`) and the score reset.
 *
 * The drop animation only delays the write and the finalization, so here a
 * move is applied in one step.
 */
module Session {

  import opened Wrappers
  import opened Board
  import opened Rules
  import Search

  /** One entry of the game history: where a disc went and whose it was. */
  datatype Move = Move(col: int, row: int, player: Player)

  /** The score tally: games won by each player, and draws. */
  datatype Scores = Scores(player1: nat, player2: nat, draws: nat)

  /** The tally after a game won by `p`: one more win for `p`, the rest unchanged. */
  function Won(s: Scores, p: Player): Scores
  {
    if p == Player1 then s.(player1 := s.player1 + 1) else s.(player2 := s.player2 + 1)
  }

  /** PLAYER1 makes the first move of a game and the players alternate. */
  function TurnOf(n: nat): (p: Player)
  {
    if n % 2 == 0 then Player1 else Player2
  }

  /**
   * The board a history leads to when every move in it is legal (a disc
   * dropped into a column that is not full, landing on the row getNextRow
   * gives), or None.
   */
  function Replay(moves: seq<Move>): (r: Option<Board>)
    decreases |moves|
  {
    if moves == [] then Some(NewBoard())
    else
      var last := moves[|moves| - 1];
      match Replay(moves[..|moves| - 1])
      case None => None
      case Some(b) =>
        if !IsColumnFull(b, last.col) && last.row == NextRow(b, last.col) then Some(Drop(b, last.col, last.player))
        else None
  }

  /** Every board a legal history leads to keeps the gravity invariant. */
  lemma {:induction false} ReplayGravity(moves: seq<Move>)
    requires Replay(moves).Some?
    ensures Gravity(Replay(moves).value)
    decreases |moves|
  {
    if moves == [] {
      NewBoardOpen();
    } else {
      var last := moves[|moves| - 1];
      var b := Replay(moves[..|moves| - 1]).value;
      ReplayGravity(moves[..|moves| - 1]);
      DropPreservesGravity(b, last.col, last.player);
    }
  }

  /**
   * A game still in progress is not a terminal position for the search:
   * nobody has a line and some column is open; so getAIMove, asked for a
   * move there, returns a playable column.
   */
  lemma RunningGameNotTerminal(b: Board)
    requires !HasLine(b, Player1) && !HasLine(b, Player2) && !IsBoardFull(b)
    ensures !Search.IsTerminal(b)
  {
    FindLineComplete(b, Player1);
    FindLineComplete(b, Player2);
    var c :| 0 <= c < Cols && b[0][c] == Empty;
    assert c in Search.ValidColumns(b);
  }

  /** Every move of the history was made by the player whose turn it was. */
  ghost predicate Alternates(history: seq<Move>)
  {
    forall i :: 0 <= i < |history| ==> history[i].player == TurnOf(i)
  }

  /**
   * The session invariant, on the values of the session's fields: the board
   * is what the history leads to; the players alternate; while the game
   * runs nobody has a line, the board is not full and the player to move is
   * the one whose turn it is; a finished game was ended by its last move,
   * either with a line of the winner (and none of the loser), which is what
   * the winning cells hold, or with a full board and no line at all.
   */
  ghost predicate Consistent(board: Board, history: seq<Move>, currentPlayer: Player, gameOver: bool,
                             winner: Option<Player>, winningCells: seq<Coord>)
  {
    && Replay(history) == Some(board)
    && Gravity(board)
    && Alternates(history)
    && (!gameOver ==>
          && currentPlayer == TurnOf(|history|)
          && winner.None? && winningCells == []
          && !HasLine(board, Player1) && !HasLine(board, Player2) && !IsBoardFull(board))
    && (gameOver ==> |history| > 0 && currentPlayer == history[|history| - 1].player)
    && (gameOver && winner.Some? ==>
          && winner.value == currentPlayer
          && IsLine(board, currentPlayer, winningCells)
          && !HasLine(board, Opponent(currentPlayer)))
    && (gameOver && winner.None? ==>
          && IsBoardFull(board) && winningCells == []
          && !HasLine(board, Player1) && !HasLine(board, Player2))
  }

  /**
   * The values right after a move by `player` has been written (the disc on
   * the board and the move at the end of the history), before the outcome
   * is decided: only `player` can have a line.
   */
  ghost predicate Placed(board: Board, history: seq<Move>, player: Player)
  {
    && Replay(history) == Some(board)
    && Gravity(board)
    && |history| > 0 && history[|history| - 1].player == player
    && Alternates(history)
    && !HasLine(board, Opponent(player))
  }

  /** A new game: the empty board, no history, PLAYER1 to move. */
  lemma NewGameConsistent()
    ensures Consistent(NewBoard(), [], Player1, false, None, [])
  {
    NewBoardOpen();
    NewBoardHasNoLine(Player1);
    NewBoardHasNoLine(Player2);
  }

  /**
   * A move by the player to move, into a column that is not full, of a game
   * still running: the new board is what the longer history leads to, the
   * players still alternate, and the opponent still has no line.
   */
  lemma MovePlaced(board: Board, history: seq<Move>, player: Player, col: int)
    requires Consistent(board, history, player, false, None, [])
    requires !IsColumnFull(board, col)
    ensures Placed(Drop(board, col, player), history + [Move(col, NextRow(board, col), player)], player)
  {
    var history' := history + [Move(col, NextRow(board, col), player)];
    assert history'[..|history'| - 1] == history;
    DropPreservesGravity(board, col, player);
    PlaceKeepsOtherLines(board, NextRow(board, col), col, player, Opponent(player));
  }

  /** A line of the mover ends the game with the mover as winner. */
  lemma WinConsistent(board: Board, history: seq<Move>, player: Player, cells: seq<Coord>)
    requires Placed(board, history, player) && IsLine(board, player, cells)
    ensures Consistent(board, history, player, true, Some(player), cells)
  {
  }

  /** No line of the mover and a full board end the game as a draw. */
  lemma DrawConsistent(board: Board, history: seq<Move>, player: Player)
    requires Placed(board, history, player) && !HasLine(board, player) && IsBoardFull(board)
    ensures Consistent(board, history, player, true, None, [])
  {
    if player == Player1 {
      assert Opponent(player) == Player2;
    }
  }

  /** No line of the mover and an open column: the game goes on, with the other player to move. */
  lemma PassConsistent(board: Board, history: seq<Move>, player: Player)
    requires Placed(board, history, player) && !HasLine(board, player) && !IsBoardFull(board)
    ensures Consistent(board, history, Opponent(player), false, None, [])
  {
    var n := |history|;
    assert player == TurnOf(n - 1);
    assert TurnOf(n) == Opponent(player) by {
      if (n - 1) % 2 == 0 {
        assert n % 2 == 1;
      } else {
        assert n % 2 == 0;
      }
    }
  }

  class GameSession {
    var board: Board
    var currentPlayer: Player
    var gameOver: bool
    var winner: Option<Player>
    var winningCells: seq<Coord>
    var history: seq<Move>
    var scores: Scores

    /** The session invariant (see `Consistent`) on the current fields. */
    ghost predicate Valid()
      reads this
    {
      Consistent(board, history, currentPlayer, gameOver, winner, winningCells)
    }

    /** The component's initial state: an empty board, PLAYER1 to move, no history, no scores. */
    constructor ()
      ensures Valid()
      ensures board == NewBoard() && currentPlayer == Player1 && !gameOver
      ensures winner == None && winningCells == [] && history == []
      ensures scores == Scores(0, 0, 0)
    {
      board := NewBoard();
      currentPlayer := Player1;
      gameOver := false;
      winner := None;
      winningCells := [];
      history := [];
      scores := Scores(0, 0, 0);
      NewGameConsistent();
    }

    /**
     * A move by the player to move into column `col`. It is refused, and
     * nothing changes, when the game is over or the column is full (which
     * includes a column off the board). Otherwise the disc lands on the
     * row getNextRow gives, the move is appended to the history, and the
     * game is won (the winner and the winning cells checkWin reports are
     * recorded and only the winner's score goes up), drawn (a full board:
     * only the draws go up) or goes on with the other player to move.
     */
    method ApplyMove(col: int) returns (accepted: bool)
      requires Valid()
      modifies this
      ensures Valid()
      ensures accepted <==> !old(gameOver) && !IsColumnFull(old(board), col)
      ensures !accepted ==>
                && board == old(board) && currentPlayer == old(currentPlayer) && gameOver == old(gameOver)
                && winner == old(winner) && winningCells == old(winningCells)
                && history == old(history) && scores == old(scores)
      ensures accepted ==>
                && board == Drop(old(board), col, old(currentPlayer))
                && history == old(history) + [Move(col, NextRow(old(board), col), old(currentPlayer))]
      ensures accepted && FindLine(board, old(currentPlayer)).Some? ==>
                && gameOver && winner == Some(old(currentPlayer)) && currentPlayer == old(currentPlayer)
                && Some(winningCells) == FindLine(board, old(currentPlayer))
                && scores == Won(old(scores), old(currentPlayer))
      ensures accepted && FindLine(board, old(currentPlayer)).None? && IsBoardFull(board) ==>
                && gameOver && winner == None && currentPlayer == old(currentPlayer)
                && scores == old(scores).(draws := old(scores).draws + 1)
      ensures accepted && FindLine(board, old(currentPlayer)).None? && !IsBoardFull(board) ==>
                && !gameOver && winner == None && currentPlayer == Opponent(old(currentPlayer))
                && scores == old(scores)
    {
      if gameOver || IsColumnFull(board, col) {
        return false;
      }
      Play(col);
      return true;
    }

    /** An accepted move: the disc is written into a copy of the board, the move is logged, and the outcome decided. */
    method Play(col: int)
      requires Valid() && !gameOver && !IsColumnFull(board, col)
      modifies this
      ensures Valid()
      ensures board == Drop(old(board), col, old(currentPlayer))
      ensures history == old(history) + [Move(col, NextRow(old(board), col), old(currentPlayer))]
      ensures FindLine(board, old(currentPlayer)).Some? ==>
                && gameOver && winner == Some(old(currentPlayer)) && currentPlayer == old(currentPlayer)
                && Some(winningCells) == FindLine(board, old(currentPlayer))
                && scores == Won(old(scores), old(currentPlayer))
      ensures FindLine(board, old(currentPlayer)).None? && IsBoardFull(board) ==>
                && gameOver && winner == None && currentPlayer == old(currentPlayer)
                && scores == old(scores).(draws := old(scores).draws + 1)
      ensures FindLine(board, old(currentPlayer)).None? && !IsBoardFull(board) ==>
                && !gameOver && winner == None && currentPlayer == Opponent(old(currentPlayer))
                && scores == old(scores)
    {
      var row := GetNextRow(board, col);
      // makeMove also refuses a row of -1, but a column whose top cell is
      // EMPTY always has an EMPTY cell, so that check never fires.
      assert IsEmptyAt(board, 0, col);
      var player := currentPlayer;
      var newBoard := CopyBoard(board);
      newBoard := Place(newBoard, row, col, player);
      assert newBoard == Drop(board, col, player);
      MovePlaced(board, history, player, col);
      board := newBoard;
      history := history + [Move(col, row, player)];
      Finalize(player);
    }

    /**
     * finalizeMoveAfterAnimation once the disc and the history entry are in:
     * a line of `player` (checkWin) ends the game with `player` as winner, the
     * reported cells as winning cells and one more win for `player`;
     * otherwise a full board ends it as a draw, with one more draw;
     * otherwise the other player is to move.
     */
    method Finalize(player: Player)
      requires Placed(board, history, player)
      requires player == currentPlayer && !gameOver && winner.None? && winningCells == []
      modifies this
      ensures Valid()
      ensures board == old(board) && history == old(history)
      ensures FindLine(board, player).Some? ==>
                && gameOver && winner == Some(player) && currentPlayer == player
                && Some(winningCells) == FindLine(board, player)
                && scores == Won(old(scores), player)
      ensures FindLine(board, player).None? && IsBoardFull(board) ==>
                && gameOver && winner == None && currentPlayer == player
                && scores == old(scores).(draws := old(scores).draws + 1)
      ensures FindLine(board, player).None? && !IsBoardFull(board) ==>
                && !gameOver && winner == None && currentPlayer == Opponent(player)
                && scores == old(scores)
    {
      var winCells := CheckWin(board, player);
      if winCells.Some? {
        FindLineSound(board, player);
        RecordWin(player, winCells.value);
      } else {
        FindLineComplete(board, player);
        if IsBoardFull(board) {
          DrawConsistent(board, history, player);
          gameOver := true;
          scores := scores.(draws := scores.draws + 1);
        } else {
          PassConsistent(board, history, player);
          currentPlayer := Opponent(player);
        }
      }
    }

    /** A line of `player`: the game is over, `player` wins and only their score goes up. */
    method RecordWin(player: Player, cells: seq<Coord>)
      requires Placed(board, history, player) && IsLine(board, player, cells)
      requires player == currentPlayer
      modifies this
      ensures Valid()
      ensures board == old(board) && history == old(history)
      ensures gameOver && winner == Some(player) && currentPlayer == player && winningCells == cells
      ensures scores == Won(old(scores), player)
    {
      WinConsistent(board, history, player, cells);
      winner := Some(player);
      winningCells := cells;
      gameOver := true;
      if player == Player1 {
        scores := scores.(player1 := scores.player1 + 1);
      } else {
        scores := scores.(player2 := scores.player2 + 1);
      }
    }

    /** resetGame: a fresh empty board, PLAYER1 to move, no winner and no history; the scores stay. */
    method ResetGame()
      modifies this
      ensures Valid()
      ensures board == NewBoard() && currentPlayer == Player1 && !gameOver
      ensures winner == None && winningCells == [] && history == []
      ensures scores == old(scores)
    {
      board := NewBoard();
      currentPlayer := Player1;
      gameOver := false;
      winner := None;
      winningCells := [];
      history := [];
      NewGameConsistent();
    }

    /** The score reset: all three counters back to zero, the game itself untouched. */
    method ResetScores()
      requires Valid()
      modifies this
      ensures Valid()
      ensures scores == Scores(0, 0, 0)
      ensures board == old(board) && currentPlayer == old(currentPlayer) && gameOver == old(gameOver)
      ensures winner == old(winner) && winningCells == old(winningCells) && history == old(history)
    {
      scores := Scores(0, 0, 0);
    }
  }
}
