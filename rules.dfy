/** The rules of the 15x15 Gomoku game kept by `GomokuGame`, stated on board
    values: the cells, the run counting behind the win check, the draw check,
    and the transition one move makes. The class in `game.dfy` applies the
    same transition in place and is proved against these definitions. */
module GomokuRules {

  /** Number of rows and of columns (`boardSize`). */
  const BoardSize: int := 15
  /** A run through the placed stone this long or longer wins (`>= 5`). */
  const WinLength: int := 5

  datatype Player = Black | White

  /** A board cell: empty (`null`) or holding one player's stone. */
  datatype Cell = Empty | Stone(player: Player)

  type Board = seq<seq<Cell>>

  /** What one move attempt reports: nothing happened, the game goes on with
      `next` to play, `winner` completed a run, or the board filled up. */
  datatype Outcome = Declined | Continue(next: Player) | Win(winner: Player) | Draw

  /** The three fields the game updates: `board`, `currentPlayer`, `gameOver`. */
  datatype GameState = GameState(board: Board, currentPlayer: Player, gameOver: bool)

  predicate WellFormed(b: Board) {
    |b| == BoardSize && forall i | 0 <= i < |b| :: |b[i]| == BoardSize
  }

  predicate InBounds(r: int, c: int) {
    0 <= r < BoardSize && 0 <= c < BoardSize
  }

  function EmptyBoard(): (b: Board)
    ensures WellFormed(b)
    ensures forall i, j | InBounds(i, j) :: b[i][j] == Empty
  {
    seq(BoardSize, _ => seq(BoardSize, _ => Empty))
  }

  /** The state after construction and after every reset. */
  function Initial(): (s: GameState)
    ensures WellFormed(s.board) && s.currentPlayer == Black && !s.gameOver
    ensures forall i, j | InBounds(i, j) :: s.board[i][j] == Empty
  {
    GameState(EmptyBoard(), Black, false)
  }

  /** The player who moves after `p` (`switchPlayer`). */
  function Opponent(p: Player): (q: Player)
    ensures q != p
  {
    if p == Black then White else Black
  }

  /* ---------------------------------------------------------------------
     Run counting (`countLine`, `countDirection`, `checkWin`)
     --------------------------------------------------------------------- */

  /** A step of one cell in one of the eight directions. */
  predicate UnitStep(dr: int, dc: int) {
    -1 <= dr <= 1 && -1 <= dc <= 1 && (dr != 0 || dc != 0)
  }

  type Step = d: (int, int) | UnitStep(d.0, d.1) witness (0, 1)

  /** The four axes the win check examines: horizontal, vertical, and the two
      diagonals; each is walked forward and backward. */
  const Axes: seq<Step> := [(0, 1), (1, 0), (1, 1), (1, -1)]

  /** The cell (r, c) is on the board and holds `p`'s stone. */
  predicate HoldsStone(b: Board, r: int, c: int, p: Player)
    requires WellFormed(b)
  {
    InBounds(r, c) && b[r][c] == Stone(p)
  }

  /** The coordinate `j` steps of `d` in {-1, 0, 1} away from `x`, that is
      `x + j * d`, written without multiplication. */
  function Offset(x: int, d: int, j: int): int {
    if d > 0 then x + j else if d < 0 then x - j else x
  }

  /** The cell `j` unit steps of (dr, dc) away from (r, c) holds `p`'s stone. */
  predicate Along(b: Board, r: int, c: int, dr: int, dc: int, p: Player, j: int)
    requires WellFormed(b)
  {
    HoldsStone(b, Offset(r, dr, j), Offset(c, dc, j), p)
  }

  /** How many cells from coordinate `x` onward, stepping by `d`, stay on the
      board; 0 when `d` is 0, since that coordinate then bounds nothing. */
  function StepsLeft(x: int, d: int): nat {
    if d > 0 then (if 0 <= x < BoardSize then BoardSize - x else 0)
    else if d < 0 then (if 0 <= x < BoardSize then x + 1 else 0)
    else 0
  }

  /** The number of consecutive cells holding `p`, starting AT (r, c) and
      stepping by (dr, dc); the walk stops at the edge or the first other cell. */
  function RunFrom(b: Board, r: int, c: int, dr: int, dc: int, p: Player): (n: nat)
    requires WellFormed(b) && UnitStep(dr, dc)
    ensures dr != 0 ==> n <= StepsLeft(r, dr)
    ensures dc != 0 ==> n <= StepsLeft(c, dc)
    decreases StepsLeft(r, dr) + StepsLeft(c, dc)
  {
    if HoldsStone(b, r, c, p) then 1 + RunFrom(b, r + dr, c + dc, dr, dc, p) else 0
  }

  /** `countLine`: the run of `p`'s stones that starts one step away from
      (row, col); from a cell on the board it never exceeds `BoardSize - 1`. */
  function CountLine(b: Board, row: int, col: int, dr: int, dc: int, p: Player): (n: nat)
    requires WellFormed(b) && UnitStep(dr, dc)
    ensures InBounds(row, col) ==> n <= BoardSize - 1
  {
    RunFrom(b, row + dr, col + dc, dr, dc, p)
  }

  /** `countDirection`: 0 on an empty cell, otherwise the length of the whole
      run through (row, col) along the axis, which fits on the board. */
  function CountDirection(b: Board, row: int, col: int, dr: int, dc: int): (n: nat)
    requires WellFormed(b) && InBounds(row, col) && UnitStep(dr, dc)
    ensures n == 0 <==> b[row][col] == Empty
    ensures n <= BoardSize
  {
    match b[row][col]
    case Empty => 0
    case Stone(p) => 1 + CountLine(b, row, col, dr, dc, p) + CountLine(b, row, col, -dr, -dc, p)
  }

  /** `checkWin`: some axis carries a run of at least `WinLength` through
      (row, col). */
  predicate CheckWin(b: Board, row: int, col: int)
    requires WellFormed(b) && InBounds(row, col)
  {
    exists a | 0 <= a < |Axes| :: CountDirection(b, row, col, Axes[a].0, Axes[a].1) >= WinLength
  }

  /** `checkDraw`: no cell is empty. */
  predicate CheckDraw(b: Board)
    requires WellFormed(b)
  {
    forall i, j | 0 <= i < BoardSize && 0 <= j < BoardSize :: b[i][j] != Empty
  }

  /* ---------------------------------------------------------------------
     Run counting against the cells it counts
     --------------------------------------------------------------------- */

  lemma AlongShift(b: Board, r: int, c: int, dr: int, dc: int, p: Player, j: int)
    requires WellFormed(b) && UnitStep(dr, dc)
    ensures Along(b, r + dr, c + dc, dr, dc, p, j) == Along(b, r, c, dr, dc, p, j + 1)
  {
  }

  lemma AlongReversed(b: Board, r: int, c: int, dr: int, dc: int, p: Player, j: int)
    requires WellFormed(b)
    ensures Along(b, r, c, -dr, -dc, p, j) == Along(b, r, c, dr, dc, p, -j)
  {
  }

  /** Every cell the run from (r, c) covers holds `p`. */
  lemma {:induction false} RunCellsHold(b: Board, r: int, c: int, dr: int, dc: int, p: Player, j: nat)
    requires WellFormed(b) && UnitStep(dr, dc) && j < RunFrom(b, r, c, dr, dc, p)
    ensures Along(b, r, c, dr, dc, p, j)
    decreases j
  {
    if j > 0 {
      RunCellsHold(b, r + dr, c + dc, dr, dc, p, j - 1);
      AlongShift(b, r, c, dr, dc, p, j - 1);
    }
  }

  /** When the first `m` cells of the walk from (r, c) hold `p`, the run
      from (r, c) is at least `m` long. */
  lemma {:induction false} RunReaches(b: Board, r: int, c: int, dr: int, dc: int, p: Player, m: nat)
    requires WellFormed(b) && UnitStep(dr, dc)
    requires forall j | 0 <= j < m :: Along(b, r, c, dr, dc, p, j)
    ensures RunFrom(b, r, c, dr, dc, p) >= m
    decreases m
  {
    if m > 0 {
      assert Along(b, r, c, dr, dc, p, 0);
      var (r', c') := (r + dr, c + dc);
      forall j | 0 <= j < m - 1 ensures Along(b, r', c', dr, dc, p, j) {
        AlongShift(b, r, c, dr, dc, p, j);
      }
      RunReaches(b, r', c', dr, dc, p, m - 1);
    }
  }

  /** The run from (r, c) is at least `m` long exactly when the first `m`
      cells of the walk all hold `p`. */
  lemma RunAtLeast(b: Board, r: int, c: int, dr: int, dc: int, p: Player, m: nat)
    requires WellFormed(b) && UnitStep(dr, dc)
    ensures RunFrom(b, r, c, dr, dc, p) >= m <==> forall j | 0 <= j < m :: Along(b, r, c, dr, dc, p, j)
  {
    if RunFrom(b, r, c, dr, dc, p) >= m {
      forall j | 0 <= j < m ensures Along(b, r, c, dr, dc, p, j) {
        RunCellsHold(b, r, c, dr, dc, p, j);
      }
    } else if forall j | 0 <= j < m :: Along(b, r, c, dr, dc, p, j) {
      RunReaches(b, r, c, dr, dc, p, m);
    }
  }

  /** Each of the cells `countLine` counts holds `p`. */
  lemma CountLineCellsHold(b: Board, row: int, col: int, dr: int, dc: int, p: Player, j: int)
    requires WellFormed(b) && UnitStep(dr, dc) && 1 <= j <= CountLine(b, row, col, dr, dc, p)
    ensures Along(b, row, col, dr, dc, p, j)
  {
    RunCellsHold(b, row + dr, col + dc, dr, dc, p, j - 1);
    AlongShift(b, row, col, dr, dc, p, j - 1);
  }

  /** `countLine` counts at least `m` exactly when the `m` cells after
      (row, col) in direction (dr, dc) all hold `p`. */
  lemma CountLineAtLeast(b: Board, row: int, col: int, dr: int, dc: int, p: Player, m: nat)
    requires WellFormed(b) && UnitStep(dr, dc)
    ensures CountLine(b, row, col, dr, dc, p) >= m <==> forall j | 1 <= j <= m :: Along(b, row, col, dr, dc, p, j)
  {
    var (r', c') := (row + dr, col + dc);
    RunAtLeast(b, r', c', dr, dc, p, m);
    if CountLine(b, row, col, dr, dc, p) >= m {
      forall j | 1 <= j <= m ensures Along(b, row, col, dr, dc, p, j) {
        CountLineCellsHold(b, row, col, dr, dc, p, j);
      }
    } else {
      var j :| 0 <= j < m && !Along(b, r', c', dr, dc, p, j);
      AlongShift(b, row, col, dr, dc, p, j);
    }
  }

  /** `countLine` returns the length of the run that starts one step from
      (row, col): every one of the first `n` cells holds `p` and the next
      does not (it is off the board or holds something else). */
  lemma CountLineIsRunLength(b: Board, row: int, col: int, dr: int, dc: int, p: Player)
    requires WellFormed(b) && UnitStep(dr, dc)
    ensures var n := CountLine(b, row, col, dr, dc, p);
      (forall j | 1 <= j <= n :: Along(b, row, col, dr, dc, p, j)) && !Along(b, row, col, dr, dc, p, n + 1)
  {
    var n := CountLine(b, row, col, dr, dc, p);
    CountLineAtLeast(b, row, col, dr, dc, p, n);
    CountLineAtLeast(b, row, col, dr, dc, p, n + 1);
  }

  /** Five consecutive cells along direction `d` hold `p`, the placed cell
      (row, col) being the `k`-th of them (counting from 0). */
  ghost predicate Window(b: Board, row: int, col: int, d: Step, k: int, p: Player)
    requires WellFormed(b)
  {
    forall j | -k <= j < WinLength - k :: Along(b, row, col, d.0, d.1, p, j)
  }

  /** Reference definition of a win: the stone at (row, col) is one of five
      in a row of its colour along one of the four axes. */
  ghost predicate FiveInRowThrough(b: Board, row: int, col: int)
    requires WellFormed(b) && InBounds(row, col)
  {
    b[row][col].Stone? &&
    exists a, k | 0 <= a < |Axes| && 0 <= k < WinLength :: Window(b, row, col, Axes[a], k, b[row][col].player)
  }

  /** Every cell from `g` steps back to `f` steps forward of a stone at
      (row, col) holds it, where `f` and `g` are the runs `countLine` counts
      in the two directions. */
  lemma RunCellHolds(b: Board, row: int, col: int, dr: int, dc: int, p: Player, j: int)
    requires WellFormed(b) && InBounds(row, col) && b[row][col] == Stone(p) && UnitStep(dr, dc)
    requires 0 <= j + CountLine(b, row, col, -dr, -dc, p) && j <= CountLine(b, row, col, dr, dc, p)
    ensures Along(b, row, col, dr, dc, p, j)
  {
    if j < 0 {
      CountLineCellsHold(b, row, col, -dr, -dc, p, -j);
      AlongReversed(b, row, col, dr, dc, p, -j);
    } else if j > 0 {
      CountLineCellsHold(b, row, col, dr, dc, p, j);
    }
  }

  /** A counted run of `WinLength` or more through (row, col) contains a
      window of five cells through it. */
  lemma AxisRunGivesWindow(b: Board, row: int, col: int, d: Step, p: Player)
    requires WellFormed(b) && InBounds(row, col) && b[row][col] == Stone(p)
    requires CountDirection(b, row, col, d.0, d.1) >= WinLength
    ensures exists k | 0 <= k < WinLength :: Window(b, row, col, d, k, p)
  {
    var (dr, dc) := d;
    var g := CountLine(b, row, col, -dr, -dc, p);
    var k := if g < WinLength - 1 then g else WinLength - 1;
    forall j | -k <= j < WinLength - k ensures Along(b, row, col, dr, dc, p, j) {
      RunCellHolds(b, row, col, dr, dc, p, j);
    }
    assert Window(b, row, col, d, k, p);
  }

  /** A window of five cells through (row, col) makes the counted run at
      least `WinLength` long. */
  lemma WindowGivesAxisRun(b: Board, row: int, col: int, d: Step, p: Player, k: int)
    requires WellFormed(b) && InBounds(row, col) && b[row][col] == Stone(p)
    requires 0 <= k < WinLength && Window(b, row, col, d, k, p)
    ensures CountDirection(b, row, col, d.0, d.1) >= WinLength
  {
    var (dr, dc) := d;
    var (br, bc) := (-dr, -dc);
    CountLineAtLeast(b, row, col, dr, dc, p, WinLength - 1 - k);
    forall j | 1 <= j <= k ensures Along(b, row, col, br, bc, p, j) {
      assert Along(b, row, col, dr, dc, p, -j);
      AlongReversed(b, row, col, dr, dc, p, j);
    }
    CountLineAtLeast(b, row, col, br, bc, p, k);
  }

  /** On one axis: the counted run reaches `WinLength` exactly when some
      window of five cells through (row, col) is all `p`. */
  lemma AxisWinIffWindow(b: Board, row: int, col: int, d: Step, p: Player)
    requires WellFormed(b) && InBounds(row, col) && b[row][col] == Stone(p)
    ensures CountDirection(b, row, col, d.0, d.1) >= WinLength
        <==> exists k | 0 <= k < WinLength :: Window(b, row, col, d, k, p)
  {
    if CountDirection(b, row, col, d.0, d.1) >= WinLength {
      AxisRunGivesWindow(b, row, col, d, p);
    }
    if exists k | 0 <= k < WinLength :: Window(b, row, col, d, k, p) {
      var k :| 0 <= k < WinLength && Window(b, row, col, d, k, p);
      WindowGivesAxisRun(b, row, col, d, p, k);
    }
  }

  /** The counting win check agrees with the geometric definition: the move
      at (row, col) wins exactly when its stone is one of five in a row. */
  lemma WinIffFiveInRow(b: Board, row: int, col: int)
    requires WellFormed(b) && InBounds(row, col)
    ensures CheckWin(b, row, col) <==> FiveInRowThrough(b, row, col)
  {
    if b[row][col].Stone? {
      var p := b[row][col].player;
      forall a | 0 <= a < |Axes|
        ensures CountDirection(b, row, col, Axes[a].0, Axes[a].1) >= WinLength
            <==> exists k | 0 <= k < WinLength :: Window(b, row, col, Axes[a], k, p)
      {
        AxisWinIffWindow(b, row, col, Axes[a], p);
      }
    }
  }

  /** Overlines win: any run of `WinLength` or more stones of `p` along an
      axis through (row, col), however long, makes `checkWin` true. */
  lemma OverlineWins(b: Board, row: int, col: int, a: int, p: Player, lo: int, hi: int)
    requires WellFormed(b) && InBounds(row, col) && 0 <= a < |Axes|
    requires lo <= 0 <= hi && hi - lo + 1 >= WinLength
    requires forall j | lo <= j <= hi :: Along(b, row, col, Axes[a].0, Axes[a].1, p, j)
    ensures CheckWin(b, row, col)
  {
    assert Along(b, row, col, Axes[a].0, Axes[a].1, p, 0);
    var k := if -lo < WinLength - 1 then -lo else WinLength - 1;
    assert Window(b, row, col, Axes[a], k, p);
    WinIffFiveInRow(b, row, col);
  }

  /* ---------------------------------------------------------------------
     Counting cells (the draw check and the turn order)
     --------------------------------------------------------------------- */

  function CountInRow(row: seq<Cell>, x: Cell): (n: nat)
    ensures n <= |row|
  {
    if row == [] then 0 else (if row[0] == x then 1 else 0) + CountInRow(row[1..], x)
  }

  /** The number of cells of `b` equal to `x`. */
  function CountCells(b: Board, x: Cell): nat {
    if b == [] then 0 else CountInRow(b[0], x) + CountCells(b[1..], x)
  }

  lemma {:induction false} CountInRowZero(row: seq<Cell>, x: Cell)
    ensures CountInRow(row, x) == 0 <==> forall j | 0 <= j < |row| :: row[j] != x
  {
    if row != [] {
      CountInRowZero(row[1..], x);
      assert forall j | 1 <= j < |row| :: row[j] == row[1..][j - 1];
    }
  }

  /** No cell equals `x` exactly when `x` is counted zero times. */
  lemma {:induction false} CountCellsZero(b: Board, x: Cell)
    ensures CountCells(b, x) == 0 <==> forall i, j | 0 <= i < |b| && 0 <= j < |b[i]| :: b[i][j] != x
  {
    if b != [] {
      CountInRowZero(b[0], x);
      CountCellsZero(b[1..], x);
      assert forall i | 1 <= i < |b| :: b[i] == b[1..][i - 1];
    }
  }

  lemma {:induction false} RowPartition(row: seq<Cell>)
    ensures CountInRow(row, Empty) + CountInRow(row, Stone(Black)) + CountInRow(row, Stone(White)) == |row|
  {
    if row != [] {
      RowPartition(row[1..]);
      match row[0]
      case Empty =>
      case Stone(p) => assert p == Black || p == White;
    }
  }

  /** Every cell of a board of rows of `BoardSize` cells is empty, black or white. */
  lemma {:induction false} CellsPartition(b: Board)
    requires forall i | 0 <= i < |b| :: |b[i]| == BoardSize
    ensures CountCells(b, Empty) + CountCells(b, Stone(Black)) + CountCells(b, Stone(White)) == |b| * BoardSize
  {
    if b != [] {
      RowPartition(b[0]);
      CellsPartition(b[1..]);
    }
  }

  /** The draw check holds exactly when all 225 cells carry a stone. */
  lemma DrawIffAllCellsTaken(b: Board)
    requires WellFormed(b)
    ensures CheckDraw(b) <==> CountCells(b, Stone(Black)) + CountCells(b, Stone(White)) == BoardSize * BoardSize
  {
    CellsPartition(b);
    CountCellsZero(b, Empty);
  }

  lemma {:induction false} CountInRowUpdate(row: seq<Cell>, j: int, v: Cell, x: Cell)
    requires 0 <= j < |row|
    ensures CountInRow(row[j := v], x)
         == CountInRow(row, x) - (if row[j] == x then 1 else 0) + (if v == x then 1 else 0)
  {
    if j == 0 {
      assert row[j := v][1..] == row[1..];
    } else {
      assert row[j := v][1..] == row[1..][j - 1 := v];
      CountInRowUpdate(row[1..], j - 1, v, x);
    }
  }

  /** Writing `v` into one cell moves that cell from its old value's count to
      `v`'s count and leaves every other count alone. */
  lemma {:induction false} CountCellsUpdate(b: Board, i: int, j: int, v: Cell, x: Cell)
    requires 0 <= i < |b| && 0 <= j < |b[i]|
    ensures CountCells(b[i := b[i][j := v]], x)
         == CountCells(b, x) - (if b[i][j] == x then 1 else 0) + (if v == x then 1 else 0)
  {
    var b' := b[i := b[i][j := v]];
    if i == 0 {
      assert b'[1..] == b[1..];
      CountInRowUpdate(b[0], j, v, x);
    } else {
      assert b'[1..] == b[1..][i - 1 := b[1..][i - 1][j := v]];
      CountCellsUpdate(b[1..], i - 1, j, v, x);
    }
  }

  /* ---------------------------------------------------------------------
     One move (the cell-level part of `handleClick`)
     --------------------------------------------------------------------- */

  /** The move is taken: the game is running, the cell is on the board and
      it is empty. */
  predicate Accepts(s: GameState, row: int, col: int)
    requires WellFormed(s.board)
  {
    !s.gameOver && InBounds(row, col) && s.board[row][col] == Empty
  }

  /** The board with `p`'s stone written into (row, col) and no other change. */
  function PlaceStone(b: Board, row: int, col: int, p: Player): (b': Board)
    requires WellFormed(b) && InBounds(row, col)
    ensures WellFormed(b')
    ensures b'[row][col] == Stone(p)
    ensures forall i, j | InBounds(i, j) && (i != row || j != col) :: b'[i][j] == b[i][j]
  {
    b[row := b[row][col := Stone(p)]]
  }

  /** One move attempt: declined without any change when the game is over or
      the cell is off the board or taken; otherwise the mover's stone is
      placed, then a win is checked first, a draw second, and the turn passes
      only when neither happened. */
  function Move(s: GameState, row: int, col: int): (res: (GameState, Outcome))
    requires WellFormed(s.board)
    ensures WellFormed(res.0.board)
    ensures res.1 == Declined <==> !Accepts(s, row, col)
    ensures res.1 == Declined ==> res.0 == s
    ensures Accepts(s, row, col) ==>
      var placed := PlaceStone(s.board, row, col, s.currentPlayer);
      && res.0.board == placed
      && (res.1 == Win(s.currentPlayer) <==> CheckWin(placed, row, col))
      && (res.1 == Draw <==> !CheckWin(placed, row, col) && CheckDraw(placed))
      && (res.0.gameOver <==> CheckWin(placed, row, col) || CheckDraw(placed))
      && (res.1.Win? || res.1.Draw? <==> res.0.gameOver)
      && (res.0.gameOver ==> res.0.currentPlayer == s.currentPlayer)
      && (!res.0.gameOver ==> res.1 == Continue(Opponent(s.currentPlayer)) && res.0.currentPlayer == Opponent(s.currentPlayer))
  {
    if s.gameOver then
      (s, Declined)
    else if !(InBounds(row, col) && s.board[row][col] == Empty) then
      (s, Declined)
    else
      var p := s.currentPlayer;
      var placed := PlaceStone(s.board, row, col, p);
      if CheckWin(placed, row, col) then
        (GameState(placed, p, true), Win(p))
      else if CheckDraw(placed) then
        (GameState(placed, p, true), Draw)
      else
        (GameState(placed, Opponent(p), false), Continue(Opponent(p)))
  }

  /** The state after a sequence of move attempts. */
  function Play(s: GameState, moves: seq<(int, int)>): (t: GameState)
    requires WellFormed(s.board)
    ensures WellFormed(t.board)
    decreases |moves|
  {
    if moves == [] then s else Play(Move(s, moves[0].0, moves[0].1).0, moves[1..])
  }

  /** A finished game accepts nothing more: every later attempt is declined
      and the state stays as it is until a reset. */
  lemma {:induction false} FinishedGameIsFrozen(s: GameState, moves: seq<(int, int)>)
    requires WellFormed(s.board) && s.gameOver
    ensures Play(s, moves) == s
    decreases |moves|
  {
    if moves != [] {
      FinishedGameIsFrozen(Move(s, moves[0].0, moves[0].1).0, moves[1..]);
    }
  }

  /** A stone, once placed, stays: no sequence of moves empties or recolours
      an occupied cell (only a reset clears the board). */
  lemma {:induction false} StonesStay(s: GameState, moves: seq<(int, int)>, i: int, j: int)
    requires WellFormed(s.board) && InBounds(i, j) && s.board[i][j] != Empty
    ensures Play(s, moves).board[i][j] == s.board[i][j]
    decreases |moves|
  {
    if moves != [] {
      StonesStay(Move(s, moves[0].0, moves[0].1).0, moves[1..], i, j);
    }
  }

  /** The stone counts agree with the turn: the player who moved last (the
      opponent of `currentPlayer` while the game runs, `currentPlayer` itself
      once it is over, since a final move does not switch turns) has one stone
      more when that is Black, and as many as Black when that is White. */
  ghost predicate TurnConsistent(s: GameState) {
    var blacks := CountCells(s.board, Stone(Black));
    var whites := CountCells(s.board, Stone(White));
    var lastMover := if s.gameOver then s.currentPlayer else Opponent(s.currentPlayer);
    if lastMover == Black then blacks == whites + 1 else blacks == whites
  }

  lemma InitialTurnConsistent()
    ensures TurnConsistent(Initial())
  {
    CountCellsZero(Initial().board, Stone(Black));
    CountCellsZero(Initial().board, Stone(White));
  }

  /** Every move attempt keeps the stone counts in step with the turn. */
  lemma MoveKeepsTurnConsistent(s: GameState, row: int, col: int)
    requires WellFormed(s.board) && TurnConsistent(s)
    ensures TurnConsistent(Move(s, row, col).0)
  {
    if Accepts(s, row, col) {
      var p := Stone(s.currentPlayer);
      CountCellsUpdate(s.board, row, col, p, Stone(Black));
      CountCellsUpdate(s.board, row, col, p, Stone(White));
    }
  }

  /** Any sequence of move attempts keeps the stone counts in step with the turn. */
  lemma {:induction false} PlayKeepsTurnConsistent(s: GameState, moves: seq<(int, int)>)
    requires WellFormed(s.board) && TurnConsistent(s)
    ensures TurnConsistent(Play(s, moves))
    decreases |moves|
  {
    if moves != [] {
      MoveKeepsTurnConsistent(s, moves[0].0, moves[0].1);
      PlayKeepsTurnConsistent(Move(s, moves[0].0, moves[0].1).0, moves[1..]);
    }
  }

  /** Players alternate: in every state reachable from the initial one, Black
      has as many stones as White or exactly one more, and while the game runs
      `currentPlayer` matches those counts. */
  lemma ReachableStatesAlternate(moves: seq<(int, int)>)
    ensures var t := Play(Initial(), moves);
      var blacks := CountCells(t.board, Stone(Black));
      var whites := CountCells(t.board, Stone(White));
      (blacks == whites || blacks == whites + 1)
      && (!t.gameOver ==> (t.currentPlayer == Black <==> blacks == whites))
  {
    InitialTurnConsistent();
    PlayKeepsTurnConsistent(Initial(), moves);
  }
}
