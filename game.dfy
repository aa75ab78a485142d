/** The game object: the board as a 15x15 array updated in place, the player
    to move and the game-over flag. Every method is proved against the rules
    in `GomokuRules`: the board value `cells` and the state value `State()`
    are what those rules talk about. */
module GomokuEngine {
  import opened GomokuRules

  class GomokuGame {
    var board: array2<Cell>
    var currentPlayer: Player
    var gameOver: bool

    /** The board as a value, kept equal to the array's contents. */
    ghost var cells: Board

    ghost predicate Valid()
      reads this`board, this`cells, board
    {
      && board.Length0 == BoardSize && board.Length1 == BoardSize
      && WellFormed(cells)
      && forall i, j | InBounds(i, j) :: cells[i][j] == board[i, j]
    }

    ghost function State(): GameState
      reads this
    {
      GameState(cells, currentPlayer, gameOver)
    }

    /** A new game: empty board, Black to move, not over. */
    constructor ()
      ensures Valid() && fresh(board)
      ensures State() == Initial()
    {
      board := new Cell[0, 0];
      cells := [];
      currentPlayer := Black;
      gameOver := false;
      new;
      InitBoard();
    }

    /** `initBoard`: a fresh board with every cell empty. */
    method InitBoard()
      modifies this`board, this`cells
      ensures Valid() && fresh(board)
      ensures cells == EmptyBoard()
    {
      board := new Cell[BoardSize, BoardSize]((i, j) => Empty);
      cells := EmptyBoard();
    }

    /** `reset`: back to the initial state, whatever the state before. */
    method Reset()
      modifies this`board, this`cells, this`currentPlayer, this`gameOver
      ensures Valid() && fresh(board)
      ensures State() == Initial()
    {
      board := new Cell[0, 0];
      cells := [];
      currentPlayer := Black;
      gameOver := false;
      InitBoard();
    }

    /** `switchPlayer`: the turn passes to the other colour. */
    method SwitchPlayer()
      modifies this`currentPlayer
      ensures currentPlayer == Opponent(old(currentPlayer))
    {
      currentPlayer := if currentPlayer == Black then White else Black;
    }

    /** `countLine`: walks from one step past (row, col) in direction
        (dr, dc) while the cells are on the board and hold `player`, reading
        only cells on the board, and returns how many it passed. */
    method CountLine(row: int, col: int, dr: int, dc: int, player: Player) returns (count: nat)
      requires Valid() && UnitStep(dr, dc)
      ensures count == GomokuRules.CountLine(cells, row, col, dr, dc, player)
      ensures InBounds(row, col) ==> count <= BoardSize - 1
    {
      ghost var g := cells;
      ghost var total := RunFrom(g, row + dr, col + dc, dr, dc, player);
      count := 0;
      var r := row + dr;
      var c := col + dc;
      while 0 <= r < BoardSize && 0 <= c < BoardSize && board[r, c] == Stone(player)
        invariant count + RunFrom(g, r, c, dr, dc, player) == total
        decreases total - count
      {
        assert HoldsStone(g, r, c, player);
        count := count + 1;
        r := r + dr;
        c := c + dc;
      }
    }

    /** `countDirection`: 0 on an empty cell, otherwise the placed stone plus
        the runs walked forward and backward along the axis. */
    method CountDirection(row: int, col: int, dr: int, dc: int) returns (count: nat)
      requires Valid() && InBounds(row, col) && UnitStep(dr, dc)
      ensures count == GomokuRules.CountDirection(cells, row, col, dr, dc)
    {
      var player := board[row, col];
      if player == Empty {
        return 0;
      }
      count := 1;
      var forward := CountLine(row, col, dr, dc, player.player);
      count := count + forward;
      var backward := CountLine(row, col, -dr, -dc, player.player);
      count := count + backward;
    }

    /** `checkWin`: tries the four axes in order and stops at the first one
        whose run through (row, col) is `WinLength` or longer. */
    method CheckWin(row: int, col: int) returns (win: bool)
      requires Valid() && InBounds(row, col)
      ensures win == GomokuRules.CheckWin(cells, row, col)
    {
      win := false;
      var a := 0;
      while a < |Axes| && !win
        invariant 0 <= a <= |Axes|
        invariant win <==> exists k | 0 <= k < a ::
          GomokuRules.CountDirection(cells, row, col, Axes[k].0, Axes[k].1) >= WinLength
      {
        var count := CountDirection(row, col, Axes[a].0, Axes[a].1);
        win := count >= WinLength;
        a := a + 1;
      }
    }

    /** `checkDraw`: every cell holds a stone. */
    predicate CheckDraw()
      reads this`board, this`cells, board
      requires Valid()
      ensures CheckDraw() == GomokuRules.CheckDraw(cells)
    {
      forall i, j | 0 <= i < BoardSize && 0 <= j < BoardSize :: board[i, j] != Empty
    }

    /** The cell-level part of `handleClick`: a move on (row, col) by the
        player to move. The new state and the outcome are those of
        `GomokuRules.Move` on the state before. */
    method ApplyMove(row: int, col: int) returns (outcome: Outcome)
      requires Valid()
      modifies this`currentPlayer, this`gameOver, this`cells, board
      ensures Valid()
      ensures (State(), outcome) == Move(old(State()), row, col)
    {
      if gameOver {
        return Declined;
      }
      if 0 <= row < BoardSize && 0 <= col < BoardSize && board[row, col] == Empty {
        board[row, col] := Stone(currentPlayer);
        cells := PlaceStone(cells, row, col, currentPlayer);
        var win := CheckWin(row, col);
        if win {
          gameOver := true;
          outcome := Win(currentPlayer);
        } else if CheckDraw() {
          gameOver := true;
          outcome := Draw;
        } else {
          SwitchPlayer();
          outcome := Continue(currentPlayer);
        }
      } else {
        outcome := Declined;
      }
    }
  }
}
