# Gomoku game state machine

This project models the game logic of a browser Gomoku (five in a row) game
and proves properties of it. The game keeps three pieces of state:

- a 15x15 board whose cells are empty or hold a black or white stone;
- the player to move;
- a game-over flag.

A move on a cell is declined if the game is over, the cell is off the board or
the cell is taken. Otherwise the mover's stone is placed. The move then checks
for a win, then for a draw. The turn passes to the other player only when
neither happened. A win is a run of five or more stones through the placed
stone along one of four axes: horizontal, vertical and the two diagonals. Runs
of six or more also win. A draw is a full board.

The project has two modules:

- `GomokuRules` (`rules.dfy`) states the rules on values. A board is a
  `seq<seq<Cell>>`. It defines the run counting (`RunFrom`, `CountLine`,
  `CountDirection`), the win and draw checks, and one move as a transition
  `Move` on `GameState` values. It also defines `Play`, a sequence of moves.
  Lemmas relate these to independent reference definitions:
  - the run counters against the cells they walk over;
  - `CheckWin` against "five in a row through the placed stone";
  - `CheckDraw` against stone counts;
  - turn order against the number of stones of each colour.
- `GomokuEngine` (`game.dfy`) is the class `GomokuGame`. It keeps the board as
  an `array2<Cell>` that moves update in place, plus the two scalar fields. A
  ghost field `cells` mirrors the array as a board value. Each method is proved
  against the `GomokuRules` definitions. `CountLine` is the source's `while`
  loop. `CheckWin` is the short-circuiting walk over the four axes.

## Model

| member | source | states |
|---|---|---|
| GomokuRules.EmptyBoard | game.js:44-48 | the new board is 15x15 and every cell is empty |
| GomokuRules.Initial | game.js:13-18 | the starting state has an all-empty 15x15 board, Black to move and the game not over |
| GomokuRules.Opponent | game.js:230-231 | the turn always passes to the other colour |
| GomokuRules.RunFrom | game.js:211-221 | the walk from a cell never counts more cells than remain on the board in its direction of travel, so it stops |
| GomokuRules.CountLine | game.js:206-224 | the run counted from a cell on the board is at most `boardSize - 1` |
| GomokuRules.CountDirection | game.js:194-204 | the result is 0 exactly when the cell is empty, and never exceeds `boardSize` |
| GomokuRules.RunAtLeast | game.js:206-224 | the walk counts at least `m` exactly when the first `m` cells of the walk hold the player's stone |
| GomokuRules.CountLineCellsHold | game.js:206-224 | every cell that `countLine` counts lies on the board and holds the player's stone |
| GomokuRules.CountLineAtLeast | game.js:206-224 | `countLine` is at least `m` exactly when the `m` cells after the start, in the direction walked, hold the player's stone |
| GomokuRules.CountLineIsRunLength | game.js:206-224 | `countLine` is the length of the contiguous run: the first `n` cells hold the stone and cell `n + 1` is off the board or holds something else |
| GomokuRules.RunCellHolds | game.js:194-204 | every cell between the backward and the forward run ends around a stone holds that stone |
| GomokuRules.AxisRunGivesWindow | game.js:189-201 | a counted run of 5 or more on an axis contains five consecutive stones through the placed cell |
| GomokuRules.WindowGivesAxisRun | game.js:189-201 | five consecutive stones through the placed cell on an axis make the counted run 5 or more |
| GomokuRules.AxisWinIffWindow | game.js:189-201 | on one axis, `countDirection >= 5` holds exactly when a window of five stones passes through the cell |
| GomokuRules.WinIffFiveInRow | game.js:181-192 | `checkWin` holds exactly when the stone at the cell is one of five in a row along one of the four axes |
| GomokuRules.OverlineWins | game.js:189-191 | any run of five or more along an axis through the cell, however long, makes `checkWin` true |
| GomokuRules.CountCellsZero | game.js:226-228 | a colour or emptiness is counted zero times exactly when no cell holds it |
| GomokuRules.CellsPartition | game.js:226-228 | the empty, black and white cell counts add up to the number of cells |
| GomokuRules.DrawIffAllCellsTaken | game.js:226-228 | `checkDraw` holds exactly when black and white stones together fill all 225 cells |
| GomokuRules.CountCellsUpdate | game.js:166 | writing one cell moves it from its old value's count to its new value's count and changes no other count |
| GomokuRules.PlaceStone | game.js:166 | the target cell gets the mover's stone and every other cell is unchanged |
| GomokuRules.Move | game.js:150-178 | A move is declined exactly when the game is over or the cell is off the board or taken, and a declined move changes nothing. An accepted move places only that stone. It wins exactly when `checkWin` holds. It draws exactly when there is no win and `checkDraw` holds. The game ends exactly when the placed stone wins or the board is full, and then the turn stays with the mover. Otherwise the turn passes to the opponent. |
| GomokuRules.Play | game.js:150-178 | any sequence of move attempts keeps a 15x15 board |
| GomokuRules.FinishedGameIsFrozen | game.js:150 | once the game is over, every further move attempt leaves the state unchanged |
| GomokuRules.StonesStay | game.js:159-166 | no sequence of moves empties or recolours an occupied cell |
| GomokuRules.InitialTurnConsistent | game.js:13-18 | the initial state agrees with the turn-order invariant |
| GomokuRules.MoveKeepsTurnConsistent | game.js:166-177 | every move attempt keeps the stone counts in step with the player to move |
| GomokuRules.PlayKeepsTurnConsistent | game.js:166-177 | any sequence of move attempts keeps the stone counts in step with the player to move |
| GomokuRules.ReachableStatesAlternate | game.js:175-176 | From the initial state, Black has as many stones as White or one more. While the game runs, Black is to move exactly when the counts are equal. So players alternate. |
| GomokuEngine.GomokuGame.constructor | game.js:2-21 | a new game has the initial state: empty board, Black to move, not over |
| GomokuEngine.GomokuGame.InitBoard | game.js:44-48 | installs a fresh 15x15 array whose cells are all empty |
| GomokuEngine.GomokuGame.Reset | game.js:251-257 | whatever the previous state, afterwards the state is the initial one |
| GomokuEngine.GomokuGame.SwitchPlayer | game.js:230-231 | the player to move becomes the opponent and nothing else changes |
| GomokuEngine.GomokuGame.CountLine | game.js:206-224 | the loop reads only cells on the board, terminates and returns the run length `GomokuRules.CountLine`, at most `boardSize - 1` |
| GomokuEngine.GomokuGame.CountDirection | game.js:194-204 | returns `GomokuRules.CountDirection` on the array's contents |
| GomokuEngine.GomokuGame.CheckWin | game.js:181-192 | the short-circuiting walk over the four axes returns `GomokuRules.CheckWin` on the array's contents |
| GomokuEngine.GomokuGame.CheckDraw | game.js:226-228 | is `GomokuRules.CheckDraw` on the array's contents |
| GomokuEngine.GomokuGame.ApplyMove | game.js:150-178 | updates the array and the fields in place to the state, and returns the outcome, given by `GomokuRules.Move` on the state before |

## Left out

- Canvas rendering is not modelled: `resizeCanvas`, `drawBoard`, `drawPieces` and `drawPiece` (game.js:23-147). It is floating-point geometry and drawing.
- The pixel-to-cell mapping in `handleClick` (game.js:152-157) is not modelled. It uses floating-point `Math.round` over the canvas rectangle. `ApplyMove` takes integer (row, col) directly and keeps the source's bounds check.
- Indicator and status text are not modelled: `updatePlayerIndicator`, `showWinner`, `showDraw`, and the status lines of `reset` (game.js:235-249, 255-256). They are DOM side effects. The `Outcome` value (`Continue`, `Win`, `Draw`, `Declined`) stands in for them.
- The constructor's failed-`getContext` error (game.js:7-11) is left out. So are the DOM lookups, event listeners and debounced resize timer (game.js:270-298). These are host I/O and timers.
- `handleResize` (game.js:262-267) is left out. It only re-renders and leaves the game state alone.
- GomokuEngine.GomokuGame.CountLine: requires a unit step, with `dr` and `dc` in -1..1 and not both 0. These are the only steps the source passes. With a zero step the loop would not terminate.
- The model uses an enumerated `Player` instead of the strings `'black'` and `'white'`. An empty cell is `Empty` instead of `null`.
