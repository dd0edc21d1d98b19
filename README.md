# Connect Four: rules engine, evaluator, search and game session

This project models the game core of a single-component Connect Four game
(`src/App.js`) in Dafny and proves properties of the model. It covers four
parts.

- **Board** (`board.dfy`, module `Board`). A 6 x 7 grid of EMPTY / PLAYER1 /
  PLAYER2 cells, with row 0 at the top.
  - `copyBoard`, `isColumnFull`, `getNextRow` and `isBoardFull`.
  - The gravity invariant: in every column, no EMPTY cell lies below a disc.
- **Rules** (`rules.dfy`, module `Rules`). `checkWin`, written as the nested
  loops of the code: cells in row-major order, the four directions of its
  table, and `valid` / `break`. It is specified by `FindLine`, which gives
  the first line in scan order.
- **Evaluator** (`evaluator.dfy`, module `Evaluator`). `evaluateWindow`, the
  score table of one four-cell window, and `scorePosition`: a centre-column
  bonus plus the sum over all 69 windows, computed in four nested-loop passes.
- **Search** (`search.dfy`, module `Search`). `minimax` with alpha-beta
  pruning, and `getAIMove`, which searches to depth 5 as PLAYER2 with the
  window (-Infinity, Infinity).
  - The model of the code is the function `AlphaBeta` / `Fold` and the
    methods `Minimax`, `Maximize` and `Minimize`.
  - Plain minimax without pruning (`MinimaxValue`) is written separately as
    the reference.
  - The lemmas show that pruning never changes the root value. They also show
    that the column played is the leftmost playable column reaching the best
    value.
- **Session** (`session.dfy`, module `Session`). The state the component
  keeps, as the class `GameSession`: board, player to move, game over,
  winner, winning cells, move history and score tally.
  - Its transitions are `makeMove`'s guard, the disc write when the drop
    animation ends, `finalizeMoveAfterAnimation`, `resetGame` and the score
    reset.
  - The invariant `Valid` says the following:
    - The board is what the history of legal moves leads to.
    - The players alternate.
    - A running game has no line and a free column.
    - A finished game was ended by its last move, with a line of the winner
      or with a full board.

`wrappers.dfy` holds the `Option` type. It stands for the code's `null` /
value results.

Some of the code's longer functions are split into helper methods; each
helper is one loop or one branch of the original:
- `checkWin` into `CheckWin`, `CheckRow`, `CheckCell` and `CheckDirection`;
- `scorePosition` into one method per pass, with the horizontal pass's inner loop in `HorizontalRow`;
- `minimax` into `Minimax`, `Expand`, `Maximize` and `Minimize`, with the child built and searched in `SearchChild`, which both loops share;
- the move into `ApplyMove`, `Play`, `Finalize` and `RecordWin`.

Each of these methods is proved equal to the specification function of its
part: `CheckWin` returns `FindLine`, `ScorePosition` returns `PositionScore`,
and `Minimax` returns `AlphaBeta`.

## Model

| member | source | states |
|---|---|---|
| Board.IsColumnFull | src/App.js:69 | a column off the board counts as full; on a board whose discs obey gravity, a column on the board is full exactly when all six of its cells are taken |
| Board.IsBoardFull | src/App.js:113 | the board is full exactly when every column on it is full |
| Board.CopyBoard | src/App.js:68 | the row-by-row copy has exactly the cells of the original, so writing into it leaves the original board as it was |
| Board.NextRow | src/App.js:70-75 | the largest row whose cell in the column is EMPTY (the landing row); -1 exactly when the column has no EMPTY cell, which includes a column off the board |
| Board.GetNextRow | src/App.js:70-75 | the bottom-up loop with its early return yields NextRow |
| Board.Place | src/App.js:330 | writing a disc into one cell of a copy changes that cell and no other |
| Board.Drop | src/App.js:329-330 | a disc dropped into a column that is not full lands on the row getNextRow gives, which was EMPTY; that cell becomes the mover's and no other cell changes |
| Board.NextRowFull | src/App.js:69-75 | under gravity, for a column on the board, getNextRow returns -1 exactly when isColumnFull holds; every cell above the landing row is EMPTY |
| Board.DropPreservesGravity | src/App.js:329-330 | dropping a disc into a column that is not full keeps the gravity invariant; the landing cell rests on a disc or on the floor |
| Board.FullBoardHasNoEmptyCell | src/App.js:113 | under gravity, isBoardFull (a full top row) holds exactly when all 42 cells are taken |
| Board.NewBoardOpen | src/App.js:10-12 | the initial board obeys gravity; every column is open and lands on the bottom row; it is not full |
| Rules.DirectionTable | src/App.js:78-83 | the table's offsets for each direction are the cells 1, 2 and 3 steps along horizontal, vertical, down-right and up-right |
| Rules.CheckDirection | src/App.js:89-105 | one direction at a cell of the player: valid exactly when four of the player's discs run from that cell in that direction, and then the collected cells are those four in order |
| Rules.CheckCell | src/App.js:88-106 | the directions tried in table order at one cell: the cells of the first direction holding a line, or none when no direction does |
| Rules.CheckRow | src/App.js:86-107 | one row of the scan: the first line starting in that row, or else the scan goes on with the next row |
| Rules.CheckWin | src/App.js:77-111 | checkWin returns FindLine: the cells of the first line of the player in row-major then direction order, or null |
| Rules.FirstDirection | src/App.js:88-106 | the first direction, from a given one on, in which a line starts at the cell; none of the directions before it holds a line |
| Rules.ScanFrom | src/App.js:85-109 | the scan from a cell on reports only a genuine line, and never one starting before that cell |
| Rules.ScanFromComplete | src/App.js:85-110 | whenever a line starts at or after the cell, the scan from that cell finds one, and no later in scan order |
| Rules.FindLine | src/App.js:77-111 | checkWin as a value: a reported line is four cells, each on the board and holding the player's disc |
| Rules.FindLineSound | src/App.js:77-111 | a non-null result is four in-range cells all holding the player's disc, each one step after the other along one of the four directions |
| Rules.FindLineComplete | src/App.js:77-111 | checkWin returns null if and only if the player has no four in a row anywhere on the board |
| Rules.FirstLineEarliest | src/App.js:85-106 | no line of the player starts earlier in scan order than the reported one |
| Rules.PlaceKeepsOtherLines | src/App.js:264-265 | placing a disc of one player never creates a line for the other, which is why finalize checks only the mover |
| Rules.NewBoardHasNoLine | src/App.js:10-12 | the empty board holds no line for either player |
| Evaluator.Count | src/App.js:120-122 | `filter(...).length`: the number of cells holding a value is never more than the window's length |
| Evaluator.CountZero | src/App.js:120-122 | a count is 0 exactly when no cell of the window holds that value |
| Evaluator.CountsAddUp | src/App.js:120-122 | the counts of EMPTY cells, PLAYER1 discs and PLAYER2 discs in a window add up to its length |
| Evaluator.CountAll | src/App.js:124 | a count equal to the window's length means every cell holds that value |
| Evaluator.EvaluateWindow | src/App.js:116-133 | a window scores between -80 and 100000 |
| Evaluator.WindowTable | src/App.js:116-133 | the table, case by case and in both directions: 100000 iff four of p; 50 iff three of p and one EMPTY; 10 iff two and two; 1 iff one and three; -80 iff three of the opponent and one EMPTY; -5 iff two and two; any window holding both players' discs, and every other window, scores 0 |
| Evaluator.WindowAt | src/App.js:143-170 | the i-th window visited is a run on the board, and RunIndex is its inverse |
| Evaluator.RunAt | src/App.js:143-170 | every run of four on the board is visited, at the position RunIndex gives |
| Evaluator.WindowsExact | src/App.js:143-170 | the 69 windows are exactly the runs of four on the board: all on the board, none visited twice, none missed |
| Evaluator.PositionScore | src/App.js:135-173 | scorePosition as a value, written with the definitions Window (the four cells of a run, in order) and CenterColumn (the six cells of column 3): 6 per disc of the player in column 3 plus the sum of evaluateWindow over the 69 windows; it lies within [-69 * 80, 6 * 6 + 69 * 100000], strictly inside the search's ±Infinity |
| Evaluator.ScorePosition | src/App.js:135-173 | scorePosition returns PositionScore: 6 per disc of the player in column 3 plus the sum of evaluateWindow over the 69 windows in visiting order |
| Evaluator.HorizontalPass | src/App.js:144-149 | the horizontal pass adds the scores of windows 0 to 23 |
| Evaluator.HorizontalRow | src/App.js:145-148 | one row of the horizontal pass adds the scores of that row's four windows, in visiting order |
| Evaluator.VerticalPass | src/App.js:151-156 | the vertical pass adds the scores of windows 24 to 44 |
| Evaluator.DownRightPass | src/App.js:158-163 | the down-right pass adds the scores of windows 45 to 56 |
| Evaluator.UpRightPass | src/App.js:165-170 | the up-right pass adds the scores of windows 57 to 68 |
| Evaluator.WindowStep | src/App.js:146-147 | one loop step adds the score of the next window in visiting order |
| Evaluator.WindowsSumBounds | src/App.js:143-170 | the sum over n windows lies between -80n and 100000n |
| Evaluator.FullWindowIsLine | src/App.js:124 | a window holds four of the player's discs exactly when its run is a line of that player |
| Evaluator.WindowsSumWithoutLine | src/App.js:124-125 | without a line of the player, no window scores more than 50 |
| Evaluator.PositionScoreWithoutLine | src/App.js:189 | without a line of PLAYER2, the depth-0 leaf value is at most 6 * 6 + 69 * 50, far below the win value 1000000 |
| Search.ValidColumnsBelow | src/App.js:176-179 | the columns below n that are not full, increasing, and all of them |
| Search.ValidColumns | src/App.js:176-179 | validCols is increasing and holds a column exactly when it is on the board and not full |
| Search.PlayableColumns | src/App.js:176-179 | the validCols loop collects ValidColumns |
| Search.TerminalTest | src/App.js:181 | isTerminal is true exactly when PLAYER1 has a line, PLAYER2 has a line, or no column is playable |
| Search.LeafValue | src/App.js:183-191 | a terminal board scores 1000000 iff PLAYER2 has a line, otherwise -1000000 iff PLAYER1 has one, otherwise 0; a depth-0 board that is not terminal scores scorePosition for PLAYER2; every leaf lies within ±1000000 |
| Search.LeafScore | src/App.js:183-191 | the leaf branch of minimax, PLAYER2's line tested first, returns LeafValue |
| Search.AlphaBeta | src/App.js:175-230 | a node's value lies within ±1000000; a column is returned exactly at a node that is neither at depth 0 nor terminal, and that column is on the board and not full |
| Search.Fold | src/App.js:193-229 | the loop only improves the best value for its side, and it ends with either the starting best or a column from the list whose value lies within ±1000000 |
| Search.Minimax | src/App.js:175-230 | minimax returns AlphaBeta |
| Search.Expand | src/App.js:193-229 | a node where play goes on runs the loop of the side to move |
| Search.Maximize | src/App.js:193-210 | the maximizing loop, started from -Infinity and a random column, returns Fold from -Infinity; the random column never survives |
| Search.Minimize | src/App.js:211-229 | the minimizing loop, started from Infinity and a random column, returns Fold from Infinity |
| Search.SearchChild | src/App.js:198-201 | one child of either loop (getNextRow, copyBoard, the disc of the side to move, minimax for the other side with the current window) yields the value AlphaBeta gives the board after that drop |
| Search.FoldSentinel | src/App.js:194-195 | a loop started from the ∓Infinity sentinel ends the same whatever column it starts with |
| Search.Examined | src/App.js:197-228 | the values of the children a node's loop examines, in order, one for each column of a prefix of the playable columns, and at least one when there is a playable column |
| Search.FirstBestPrepend | src/App.js:203-206 | a loop step that replaces the best only on a strictly better child keeps the first best: nothing examined beats the result, and the result's column is the leftmost examined one with that value |
| Search.FoldFirstBest | src/App.js:193-229 | a node's loop ends on a value no examined child beats; it keeps the starting column only if no child beat the starting value, and otherwise returns the leftmost examined column whose child has the result's value |
| Search.NodeChoice | src/App.js:193-229 | at every node where play goes on, whatever the window, minimax returns the leftmost examined column whose child value equals the node's value, no examined child is better for the side to move, and the randomly picked column never survives |
| Search.MinimaxValue | src/App.js:175-230 | the reference minimax value without pruning lies within ±1000000 |
| Search.ChildValue | src/App.js:198-201 | the reference value of the child reached by the mover's disc lies within ±1000000 |
| Search.BestChild | src/App.js:197-209 | the best child value for the side to move lies within ±1000000 |
| Search.BestChildBound | src/App.js:203-205 | no playable child beats BestChild for the side to move |
| Search.BestChildAttained | src/App.js:203-205 | some playable child reaches BestChild |
| Search.AlphaBetaClamp | src/App.js:175-230 | alpha-beta agrees with plain minimax up to the window: a value at or below alpha means the true value is at or below alpha, one at or above beta means it is at or above beta, one strictly inside is exact |
| Search.FoldClamp | src/App.js:193-229 | a node's loop agrees with the best child value up to the window when the best so far lies outside the window on the losing side |
| Search.FoldClampMax | src/App.js:193-210 | FoldClamp at a maximizing node |
| Search.FoldClampMin | src/App.js:211-229 | FoldClamp at a minimizing node |
| Search.MaxStep | src/App.js:203-208 | proof step: a maximizing step that goes on keeps the clamped value equal to the clamped best child |
| Search.MaxCutoff | src/App.js:207-208 | proof step: a maximizing cutoff happens only once the true value has reached beta |
| Search.MaxLast | src/App.js:203-207 | proof step: at the last maximizing column the node's clamped value is the child's |
| Search.MinStep | src/App.js:221-226 | proof step: a minimizing step that goes on keeps the clamped value equal to the clamped best child |
| Search.MinCutoff | src/App.js:225-226 | proof step: a minimizing cutoff happens only once the true value has reached alpha |
| Search.MinLast | src/App.js:221-225 | proof step: at the last minimizing column the node's clamped value is the child's |
| Search.AlphaBetaExact | src/App.js:234 | called with (-Infinity, Infinity), as getAIMove calls it, the search returns the exact unpruned minimax value |
| Search.FirstBestSpec | src/App.js:197-206 | scanning the columns left to right and keeping strictly better values ends on the largest child value and on the leftmost column reaching it |
| Search.RootStep | src/App.js:203-207 | proof step: a child value cut off below at the best so far decides the comparison the same way as the exact value |
| Search.RootFold | src/App.js:193-210 | with beta = Infinity the maximizing loop never cuts off and settles on the same column and value as the scan over exact child values |
| Search.RootChoice | src/App.js:193-210 | at a position where play goes on, the column returned is playable; its child has the node's minimax value; no playable column beats it; and every playable column to its left is strictly worse |
| Search.WinningColumn | src/App.js:185 | a column that wins on the spot is worth 1000000, the most any position is worth |
| Search.TakesWin | src/App.js:232-235 | when some column wins on the spot, the search is worth a win and the column getAIMove returns leads to a child worth a forced win within the search depth |
| Search.GetAIMove | src/App.js:232-235 | getAIMove returns minimax's column at depth 5: null exactly when the game is over, otherwise a playable column whose child has the position's minimax value, which no column beats and no column to its left equals |
| Session.ReplayGravity | src/App.js:329-330 | every board a history of legal moves leads to obeys gravity |
| Session.RunningGameNotTerminal | src/App.js:366-383 | a game still running (no line, a free column) is not terminal for the search, so getAIMove gives a column there |
| Session.NewGameConsistent | src/App.js:462-471 | the fresh game (empty board, no history, PLAYER1 to move) satisfies the session invariant |
| Session.MovePlaced | src/App.js:329-331 | a move by the player to move into a free column of a running game leads to a board that the extended history explains, with turns still alternating and no line for the opponent |
| Session.WinConsistent | src/App.js:265-277 | a line of the mover ends the game consistently with the mover as winner and the line as winning cells |
| Session.DrawConsistent | src/App.js:280-284 | no line and a full board end the game consistently as a draw |
| Session.PassConsistent | src/App.js:287-288 | no line and a free column leave a running game with the other player to move |
| Session.GameSession.constructor | src/App.js:10-23 | the initial state: empty board, PLAYER1 to move, not over, no winner, no winning cells, no history, all scores 0; the invariant holds |
| Session.GameSession.ApplyMove | src/App.js:338-345 | a move when the game is over or into a full column (or a column off the board) is refused and changes nothing; an accepted move drops the disc on getNextRow's row, appends {col, row, player} to the history, and then either records a win (winner, checkWin's cells, one more win for that player only), a draw (only draws go up), or passes the turn; the invariant is kept |
| Session.GameSession.Play | src/App.js:329-331 | the accepted move: the disc is written into a copy of the board, and the outcome is decided as in finalize |
| Session.GameSession.Finalize | src/App.js:257-289 | finalizeMoveAfterAnimation: a line of the mover (checkWin) makes the mover winner with the reported cells and one more win; otherwise a full board is a draw with one more draw; otherwise the other player moves; board and history stay as placed; the invariant is restored |
| Session.GameSession.RecordWin | src/App.js:266-276 | a win sets the winner, the winning cells and game over, and increments only the winner's score |
| Session.GameSession.ResetGame | src/App.js:444-472 | resetGame empties the board, puts PLAYER1 to move, clears game over, winner, winning cells and history, and keeps the scores |
| Session.GameSession.ResetScores | src/App.js:725 | the score reset sets all three counters to 0 and leaves the game itself untouched |

## Left out

- Sound (`playSound`, src/App.js:31-66) is a call into the Web Audio API. It is not modelled.
- The drop animation and its easing curves (src/App.js:247-255, 291-336) use floating point, `requestAnimationFrame` and `Date.now`. Only their effect is modelled: the disc is written and the move finalized. So `makeMove`'s refusal while a disc is still dropping (`droppingDisc`, src/App.js:341) is not modelled. In the model no disc is ever in flight.
- `makeMove`'s `row === -1` test (src/App.js:345) is not a separate branch. A column whose top cell is EMPTY always has an EMPTY cell, so the test never fires. `GameSession.Play` asserts this at that point.
- `makeMove`'s optional board snapshot (src/App.js:338-339) is only passed by the computer-move effect, with the current board. The model always plays on the session's board.
- The computer-move effect (src/App.js:364-427) is left out: its `setTimeout`, `isAIThinking`, its column check and its fallback scan. The cleanup effects (src/App.js:430-442) are left out too. These are timer and asynchrony plumbing. `Session.RunningGameNotTerminal` and `Search.GetAIMove` show that the column check always passes in a running game, so the fallback is never taken.
- The `try`/`catch` fallback of `getAIMove` (src/App.js:236-243) is left out. It runs only if the search throws, which the model shows it cannot do.
- `Math.random` (src/App.js:195, 213) is modelled as an arbitrary index into the playable columns. `Search.FoldSentinel` shows that the pick never reaches the result.
- JavaScript's `Infinity` (src/App.js:194, 212, 234) is modelled as the integer 1000000000. It lies strictly outside every value the search computes, which stay within ±1000000. All other numbers in the core are small integers, so JavaScript's floating-point numbers are modelled as unbounded integers.
- Boards are modelled as values. The code writes only into a fresh `copyBoard` copy (src/App.js:199-200, 217-218, 329-330), and a write is modelled as a functional update of that copy. Aliasing between boards is therefore not modelled: the code never writes into a board it shares.
- React state setters are modelled as direct field writes, in the order the code issues them. The batching of updates and re-rendering are not modelled.
- The game mode toggle (`isAIMode`), hover and preview state, `isWinningCell`, `getDiscStyle`, all JSX (src/App.js:474-748) and `console.log` are not modelled. They are user interface only.
- Session.Consistent: the invariant says the winning cells form a line of the winner (`IsLine`). It does not say they are the line checkWin reports. `ApplyMove` and `Finalize` state that stronger fact in their own postconditions.
- Search.TakesWin: does not promise that getAIMove plays a column that wins on the spot. The code does not promise that either. Terminal values get no depth discount, and the loop keeps the leftmost column with the best value. So a column further left that forces a win a few moves later is chosen before a column that wins at once. One such position, with PLAYER2 to move: PLAYER1 holds (5,0) (4,0) (5,2) (4,2) (4,4) (4,5) (4,6), and PLAYER2 holds (5,1) (4,1) (3,1) (5,4) (5,5) (5,6). Columns 1 and 3 win at once. Column 0 leaves two threats that PLAYER1 cannot both block, so its value is also 1000000, and the search returns column 0.
