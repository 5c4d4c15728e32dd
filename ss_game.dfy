/** `Game` of sssoduku: a 9x9 board and its level. The board array is the
    game's state; `setCellValue` is the one operation that changes it. */
module SsGame {
  import opened Base
  import opened Rules
  import Scans

  /** `DifficultyEnum`: the three levels and the in-progress game. */
  datatype Difficulty = EASY | MEDIUM | HARD | INCOMPLETE

  class Game {
    const board: array2<int>
    const difficulty: Difficulty

    /** The copy constructor: a fresh board with the same values, the same level. */
    constructor Copy(other: Game)
      requires Is9x9(other.board)
      ensures fresh(board) && Is9x9(board) && Cells(board) == Cells(other.board)
      ensures difficulty == other.difficulty
    {
      difficulty := other.difficulty;
      var b := CopyBoard(other.board);
      board := b;
    }

    /** Wraps the given array itself: the game and the caller share it. */
    constructor (board: array2<int>, difficulty: Difficulty)
      ensures this.board == board && this.difficulty == difficulty
    {
      this.board := board;
      this.difficulty := difficulty;
    }

    /** `getCellValue`. */
    function GetCellValue(row: int, col: int): (v: int)
      requires Is9x9(board) && InBoard(row, col)
      reads board
      ensures v == Cells(board)[row][col]
    {
      board[row, col]
    }

    /** `setCellValue`: writes one cell and returns what it held, the value an
        undo writes back. */
    method SetCellValue(row: int, col: int, value: int) returns (previous: int)
      requires Is9x9(board) && InBoard(row, col)
      modifies board
      ensures previous == old(board[row, col])
      ensures Cells(board) == Put(old(Cells(board)), row, col, value)
      ensures Put(Cells(board), row, col, previous) == old(Cells(board))
    {
      previous := board[row, col];
      Write(board, row, col, value);
      PutRestore(old(Cells(board)), row, col, value);
    }

    /** `isCompleted`: no cell holds 0. It says nothing about repeats. */
    method IsCompleted() returns (b: bool)
      requires Is9x9(board)
      ensures b <==> ZeroCount(Cells(board)) == 0
      ensures b <==> !HasZero(Cells(board))
    {
      ZeroCountNone(Cells(board));
      var i := 0;
      while i < 9
        invariant 0 <= i <= 9
        invariant forall r, c :: 0 <= r < i && 0 <= c < 9 ==> board[r, c] != 0
      {
        var j := 0;
        while j < 9
          invariant 0 <= j <= 9
          invariant forall r, c :: 0 <= r < i && 0 <= c < 9 ==> board[r, c] != 0
          invariant forall c :: 0 <= c < j ==> board[i, c] != 0
        {
          if board[i, j] == 0 {
            assert Cells(board)[i][j] == 0;
            return false;
          }
          j := j + 1;
        }
        i := i + 1;
      }
      return true;
    }

    /** `countEmptyCells`: the number of 0 cells. */
    method CountEmptyCells() returns (n: int)
      requires Is9x9(board)
      ensures n == ZeroCount(Cells(board))
    {
      n := Scans.CountEmpty(board);
    }
  }
}
