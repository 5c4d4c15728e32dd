/** `FlyweightBoard` of JavaApplication31: the puzzle and its list of empty
    cells, shared by reference, and a candidate's validity judged through the
    overlay without writing the puzzle. */
module JaFlyweight {
  import opened Base
  import opened Rules
  import Scans

  class FlyweightBoard {
    const originalBoard: array2<int>
    const emptyCells: seq<Pos>

    /** Keeps the board and the list it is given, not copies. */
    constructor (board: array2<int>, emptyCells: seq<Pos>)
      ensures originalBoard == board && this.emptyCells == emptyCells
    {
      originalBoard := board;
      this.emptyCells := emptyCells;
    }

    /** `getValue`: the candidate's entry for the first listed cell at
        (row, col), else the puzzle's own value there. */
    method GetValue(row: int, col: int, permutation: seq<int>) returns (v: int)
      requires Is9x9(originalBoard) && InBoard(row, col) && |emptyCells| <= |permutation|
      ensures v == Overlay(Cells(originalBoard), emptyCells, permutation)[row][col]
      ensures (exists i :: 0 <= i < |emptyCells| && emptyCells[i] == Pos(row, col)) || v == originalBoard[row, col]
    {
      v := Scans.ValueAt(originalBoard, emptyCells, permutation, row, col);
      if Pos(row, col) !in emptyCells {
        VirtualAtMissing(Cells(originalBoard), emptyCells, permutation, row, col);
      }
    }

    /** `isValid`: the rows, the columns and the boxes of the overlaid board
        hold no value outside 0..9 and no repeated nonzero value. */
    method IsValid(permutation: seq<int>) returns (b: bool)
      requires Is9x9(originalBoard) && |emptyCells| <= |permutation|
      ensures b == ConflictFree(Overlay(Cells(originalBoard), emptyCells, permutation))
    {
      var hasZero;
      b, hasZero := Scans.ThreePass(originalBoard, emptyCells, permutation);
    }

    /** `getOriginalBoard`: the shared reference itself. */
    function OriginalBoard(): (b: array2<int>)
      ensures b == originalBoard
    {
      originalBoard
    }

    /** `getEmptyCells`: the shared list itself. */
    function EmptyCellList(): (cells: seq<Pos>)
      ensures cells == emptyCells
    {
      emptyCells
    }
  }

  /** `isValid` accepts exactly the overlays that `verifyState` would not call
      INVALID: an incomplete overlay can pass. */
  lemma IsValidNotInvalid(h: Grid)
    requires IsGrid(h)
    ensures ConflictFree(h) <==> Classify(h) != INVALID
    ensures ConflictFree(h) && !HasZero(h) <==> Classify(h) == VALID
  {
  }
}
