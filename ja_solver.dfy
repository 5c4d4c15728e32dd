/** `SudokuSolver` of JavaApplication31: for a board with exactly five empty
    cells, the first reading of the odometer that `isValidWithPermutation`
    accepts, returned as it came from the iterator. The board is only read. */
module JaSudokuSolver {
  import opened Base
  import opened Rules
  import opened Odometer
  import JaVerifier
  import JaIterator
  import Scans

  /** The k-th reading, overlaid on the empty cells, passes
      `isValidWithPermutation`. */
  ghost predicate Passes(g: Grid, k: nat)
    requires IsGrid(g) && ZeroCount(g) <= 5
  {
    EmptyCellsOnBoard(g);
    JaVerifier.PermOk(g, EmptyCells(g), Combo(k))
  }

  /** k is the first index of the enumeration whose reading passes. */
  ghost predicate FirstPass(g: Grid, k: nat)
    requires IsGrid(g) && ZeroCount(g) <= 5
  {
    k < Total && Passes(g, k) && forall j :: 0 <= j < k ==> !Passes(g, j)
  }

  /** `solve`: "only works with 5 empty cells" unless there are exactly five;
      otherwise the first passing reading in lexicographic order, or "No
      solution found." when none of the 9^5 passes. */
  method Solve(board: array2<int>) returns (r: Result<array<int>>, ghost k: nat)
    requires Is9x9(board)
    ensures ZeroCount(Cells(board)) != 5 <==> r == Err(UnsupportedCellCount)
    ensures r.Ok? ==> ZeroCount(Cells(board)) == 5 && FirstPass(Cells(board), k) && r.value[..] == Combo(k)
    ensures r.Err? && ZeroCount(Cells(board)) == 5 ==>
      r == Err(NoSolution) && forall j :: 0 <= j < Total ==> !Passes(Cells(board), j)
  {
    k := 0;
    var cells := Scans.CollectEmpty(board);
    if |cells| != 5 {
      return Err(UnsupportedCellCount), 0;
    }
    EmptyCellsOnBoard(Cells(board));
    var iter := new JaIterator.PermutationIterator();
    while iter.hasNext
      invariant fresh(iter) && fresh(iter.current) && iter.Valid()
      invariant iter.calls <= Total
      invariant forall j :: 0 <= j < iter.calls ==> !Passes(Cells(board), j)
      decreases Total - iter.calls
    {
      ghost var n := iter.calls;
      assert n % Total == n;
      var combo := iter.Next();
      var ok := JaVerifier.IsValidWithPermutation(board, cells, combo[..]);
      if ok {
        return Ok(combo), n;
      }
    }
    return Err(NoSolution), 0;
  }

  /** On a board whose givens are conflict-free, a reading passes exactly when
      it completes the board to a VALID one: the solver's answer solves the
      puzzle, and "No solution found." means no assignment of digits does. */
  lemma PassesIffSolved(g: Grid, k: nat)
    requires IsGrid(g) && ZeroCount(g) == 5 && ConflictFree(g) && k < Total
    ensures Passes(g, k) <==> Classify(Overlay(g, EmptyCells(g), Combo(k))) == VALID
  {
    ComboSpec(k);
    JaVerifier.PermOkFull(g, Combo(k));
  }

  /** Every assignment of digits 1..9 to the five cells is some reading, so
      "No solution found." on conflict-free givens means no completion is VALID. */
  lemma NoneSolves(g: Grid, vals: seq<int>)
    requires IsGrid(g) && ZeroCount(g) == 5 && ConflictFree(g)
    requires |vals| == 5 && Digits(vals)
    requires forall j :: 0 <= j < Total ==> !Passes(g, j)
    ensures Classify(Overlay(g, EmptyCells(g), vals)) != VALID
  {
    ComboOfVal(vals);
    PassesIffSolved(g, Val(vals));
  }
}
