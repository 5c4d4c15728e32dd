/** `GameSolver` of sssoduku: for a game with exactly five empty cells, the
    first reading of the odometer whose five values, written into a copy of
    the board, make `verify` answer VALID; and the `{row, col, value}` rows
    handed to the view. The game's board is only read. */
module SsGameSolver {
  import opened Base
  import opened Rules
  import opened Odometer
  import SsGame
  import SsIterator
  import SsVerifier
  import Scans

  /** The k-th reading on the empty cells makes the board VALID for
      sssoduku's `verify`. */
  ghost predicate Passes(g: Grid, k: nat)
    requires IsGrid(g) && ZeroCount(g) <= 5
  {
    SsClassify(Overlay(g, EmptyCells(g), Combo(k))) == VALID
  }

  /** k is the first index of the enumeration whose reading passes. */
  ghost predicate FirstPass(g: Grid, k: nat)
    requires IsGrid(g) && ZeroCount(g) <= 5
  {
    k < Total && Passes(g, k) && forall j :: 0 <= j < k ==> !Passes(g, j)
  }

  /** `solve`: an `InvalidGameException` unless exactly five cells are 0;
      otherwise the first passing reading in lexicographic order, or "No
      solution found" once all 9^5 readings have failed. */
  method Solve(game: SsGame.Game) returns (r: Result<array<int>>, ghost k: nat)
    requires Is9x9(game.board)
    ensures ZeroCount(Cells(game.board)) != 5 <==> r == Err(UnsupportedCellCount)
    ensures r.Ok? ==> ZeroCount(Cells(game.board)) == 5 && FirstPass(Cells(game.board), k) && r.value[..] == Combo(k)
    ensures r.Err? && ZeroCount(Cells(game.board)) == 5 ==>
      r == Err(NoSolution) && forall j :: 0 <= j < Total ==> !Passes(Cells(game.board), j)
  {
    k := 0;
    var count := game.CountEmptyCells();
    if count != 5 {
      return Err(UnsupportedCellCount), 0;
    }
    var cells := Scans.CollectEmpty(game.board);
    var iter := new SsIterator.PermutationIterator();
    while iter.hasNext
      invariant fresh(iter) && fresh(iter.currentCombination) && iter.Valid()
      invariant forall j :: 0 <= j < iter.calls ==> !Passes(Cells(game.board), j)
      decreases Total - iter.calls
    {
      ghost var n := iter.calls;
      var next := iter.Next();
      var permutation := next.value;
      var ok := Check(game.board, cells, permutation[..], n);
      if ok {
        return Ok(permutation), n;
      }
    }
    return Err(NoSolution), 0;
  }

  /** One round of the loop: `isValidWithPermutation` on the n-th reading. */
  method Check(board: array2<int>, cells: seq<Pos>, permutation: seq<int>, ghost n: nat) returns (ok: bool)
    requires Is9x9(board) && ZeroCount(Cells(board)) == 5 && cells == EmptyCells(Cells(board))
    requires n < Total && permutation == Combo(n)
    ensures ok <==> Passes(Cells(board), n)
  {
    ComboSpec(n);
    EmptyCellsOnBoard(Cells(board));
    assert cells[..5] == cells;
    ok := SsVerifier.IsValidWithPermutation(board, cells, permutation);
    SsVerifier.PermutationOnEmpty(Cells(board), permutation);
  }

  /** A passing reading fills every empty cell and keeps every given: the
      answer completes the puzzle to a board sssoduku calls VALID. */
  lemma PassesFills(g: Grid, k: nat)
    requires IsGrid(g) && ZeroCount(g) == 5 && Passes(g, k)
    ensures var h := Overlay(g, EmptyCells(g), Combo(k));
      !HasZero(h) && !HasClash(h) && forall r, c :: InBoard(r, c) && g[r][c] != 0 ==> h[r][c] == g[r][c]
  {
    var e := EmptyCells(g);
    EmptyCellsSpec(g);
    forall r, c | InBoard(r, c) && g[r][c] != 0
      ensures Overlay(g, e, Combo(k))[r][c] == g[r][c]
    {
      VirtualAtMissing(g, e, Combo(k), r, c);
    }
  }

  /** Every way of filling the five cells with digits is some reading, so "No
      solution found" means no such filling is VALID; on givens in 0..9 the
      verdict is also JavaApplication31's. */
  lemma NoneSolves(g: Grid, vals: seq<int>)
    requires IsGrid(g) && ZeroCount(g) == 5
    requires |vals| == 5 && Digits(vals)
    requires forall j :: 0 <= j < Total ==> !Passes(g, j)
    ensures SsClassify(Overlay(g, EmptyCells(g), vals)) != VALID
    ensures !HasOutOfRange(g) ==> Classify(Overlay(g, EmptyCells(g), vals)) != VALID
  {
    ComboOfVal(vals);
    assert !Passes(g, Val(vals));
    SsVerifier.PermutationOnEmpty(g, vals);
  }

  /** The rows `formatSolutionForView` fills: `{r, c, solution[i]}` for the
      i-th empty cell, `{0, 0, 0}` past the last one. */
  ghost function ViewRows(g: Grid, solution: seq<int>): (rows: seq<seq<int>>)
    requires IsGrid(g) && ZeroCount(g) <= 5 && ZeroCount(g) <= |solution|
    ensures |rows| == 5 && forall i :: 0 <= i < 5 ==> |rows[i]| == 3
  {
    var e := EmptyCells(g);
    seq(5, i requires 0 <= i < 5 => if i < |e| then [e[i].r, e[i].c, solution[i]] else [0, 0, 0])
  }

  /** `formatSolutionForView`: a `new int[5][3]`, and for each empty cell in
      row-major order the row `{r, c, solution[idx]}`. A sixth empty cell, or
      a solution shorter than the list of empty cells, indexes out of bounds. */
  method FormatSolutionForView(game: SsGame.Game, solution: array<int>) returns (r: Result<array2<int>>)
    requires Is9x9(game.board)
    ensures r.Ok? <==> ZeroCount(Cells(game.board)) <= 5 && ZeroCount(Cells(game.board)) <= solution.Length
    ensures r.Err? ==> r.error == OutOfBounds
    ensures r.Ok? ==> fresh(r.value) && r.value.Length0 == 5 && r.value.Length1 == 3
    ensures r.Ok? ==> forall i, j :: 0 <= i < 5 && 0 <= j < 3 ==>
      r.value[i, j] == ViewRows(Cells(game.board), solution[..])[i][j]
  {
    ghost var g := Cells(game.board);
    ghost var m := ZeroMask(g);
    var result := new int[5, 3]((i, j) => 0);
    var idx := 0;
    ZerosStart(g);
    var row := 0;
    while row < 9
      invariant 0 <= row <= 9
      invariant Filled(result, solution[..], ZerosBefore(g, row, 0), idx)
    {
      var col := 0;
      while col < 9
        invariant 0 <= col <= 9
        invariant Filled(result, solution[..], ZerosBefore(g, row, col), idx)
      {
        ZerosStep(g, row, col);
        if game.board[row, col] == 0 {
          if idx >= 5 || idx >= solution.Length {
            ListedPrefix(m, row, col + 1, 9, 0);
            return Err(OutOfBounds);
          }
          PutRow(result, solution[..], ZerosBefore(g, row, col), idx, Pos(row, col), solution[idx]);
          idx := idx + 1;
        }
        col := col + 1;
      }
      ZerosWrap(g, row);
      row := row + 1;
    }
    r := Ok(result);
  }

  /** The first `idx` rows hold the listed cells with their values, the rest
      are still `{0, 0, 0}`. */
  ghost predicate Filled(result: array2<int>, solution: seq<int>, listed: seq<Pos>, idx: int)
    reads result
  {
    result.Length0 == 5 && result.Length1 == 3 && idx == |listed| && idx <= 5 && idx <= |solution|
      && (forall i :: 0 <= i < idx ==>
            result[i, 0] == listed[i].r && result[i, 1] == listed[i].c && result[i, 2] == solution[i])
      && (forall i, j :: idx <= i < 5 && 0 <= j < 3 ==> result[i, j] == 0)
  }

  /** `result[idx] = new int[]{r, c, solution[idx]}`. */
  method PutRow(result: array2<int>, ghost solution: seq<int>, ghost listed: seq<Pos>, idx: int, p: Pos, v: int)
    requires Filled(result, solution, listed, idx) && idx < 5 && idx < |solution| && v == solution[idx]
    modifies result
    ensures Filled(result, solution, listed + [p], idx + 1)
  {
    result[idx, 0] := p.r;
    result[idx, 1] := p.c;
    result[idx, 2] := v;
  }
}
