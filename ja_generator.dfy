/** `GameGenerator` of JavaApplication31: from a VALID solved board, one
    puzzle per level, each a copy of the board with the cells of one list of
    pairs set to 0, handed to the game store in the order Easy, Medium,
    Hard. `RandomPairs`, which is not part of this model, becomes the three
    lists of pairs it would hand out; `GameStorage` becomes the list of
    saved boards. */
module JaGameGenerator {
  import opened Base
  import opened Rules
  import JaVerifier

  /** `DifficultyEnum`: the three levels and the in-progress game. */
  datatype DifficultyEnum = EASY | MEDIUM | HARD | INCOMPLETE

  /** The removal count of each level. */
  function CellsToRemove(level: DifficultyEnum): (n: int)
    ensures level != DifficultyEnum.INCOMPLETE ==> 10 <= n <= 25
  {
    match level
    case EASY => 10
    case MEDIUM => 20
    case HARD => 25
    case INCOMPLETE => 0
  }

  /** One `storage.saveGame(level, board)`. */
  datatype Stored = Stored(level: DifficultyEnum, board: Grid)

  /** `createDifficultyBoard(solvedBoard, n)` on the list `positions` that
      `generateDistinctPairs(n)` returns: a deep copy with every listed cell
      set to 0, in list order. A pair off the board throws
      ArrayIndexOutOfBoundsException. The solved board is only read. */
  method CreateDifficultyBoard(solvedBoard: array2<int>, positions: seq<Pos>) returns (r: Result<array2<int>>)
    requires Is9x9(solvedBoard)
    ensures r.Ok? <==> AllInBoard(positions)
    ensures r.Err? ==> r.error == OutOfBounds
    ensures r.Ok? ==> fresh(r.value) && Is9x9(r.value) && Cells(r.value) == Zeroed(Cells(solvedBoard), positions)
  {
    var board := CopyBoard(solvedBoard);
    ghost var g := Cells(solvedBoard);
    ZeroedNone(g);
    var i := 0;
    while i < |positions|
      invariant 0 <= i <= |positions| && AllInBoard(positions[..i])
      invariant Cells(board) == Zeroed(g, positions[..i])
    {
      var pos := positions[i];
      if !InBoard(pos.r, pos.c) {
        return Err(OutOfBounds);
      }
      ZeroedSnoc(g, positions[..i], pos);
      Write(board, pos.r, pos.c, 0);
      TakeSnoc(positions, i + 1);
      i := i + 1;
    }
    assert positions[..i] == positions;
    r := Ok(board);
  }

  /** The lists `generateDistinctPairs(n)` hands out: n distinct cells of the
      board. */
  predicate Pairs(ps: seq<Pos>, n: int) {
    |ps| == n && AllInBoard(ps) && Distinct(ps)
  }

  /** Blanking distinct cells of a board without zeros leaves exactly as many
      zeros as cells listed: each level has exactly its removal count of
      blanks. */
  lemma ExactRemovals(g: Grid, ps: seq<Pos>)
    requires IsGrid(g) && !HasZero(g) && AllInBoard(ps) && Distinct(ps)
    ensures ZeroCount(Zeroed(g, ps)) == |ps|
  {
    assert forall k :: 0 <= k < |ps| ==> g[ps[k].r][ps[k].c] != 0;
    ZeroedCount(g, ps);
    var h := Zeroed(g, ps);
    assert ZeroMask(h) == BlankedMask(g, h) by {
      forall r | 0 <= r < 9
        ensures ZeroMask(h)[r] == BlankedMask(g, h)[r]
      {
      }
    }
  }

  class GameGenerator {
    /** The boards handed to `GameStorage.saveGame`, oldest first. */
    var saved: seq<Stored>

    constructor ()
      ensures saved == []
    {
      saved := [];
    }

    /** `generateFromSolved`: throws before saving anything unless
        `verifyState` calls the board VALID; otherwise saves the Easy, the
        Medium and the Hard puzzle, in that order, each cut from the board
        by its own list of pairs. */
    method GenerateFromSolved(solvedBoard: array2<int>, easyPairs: seq<Pos>, mediumPairs: seq<Pos>, hardPairs: seq<Pos>)
        returns (r: Result<()>)
      requires Is9x9(solvedBoard)
      requires Pairs(easyPairs, CellsToRemove(EASY)) && Pairs(mediumPairs, CellsToRemove(MEDIUM))
      requires Pairs(hardPairs, CellsToRemove(HARD))
      modifies this
      ensures r.Ok? <==> Classify(Cells(solvedBoard)) == VALID
      ensures r.Err? ==> r.error == SourceInvalid && saved == old(saved)
      ensures r.Ok? ==> saved == old(saved) + [Stored(EASY, Zeroed(Cells(solvedBoard), easyPairs)),
        Stored(MEDIUM, Zeroed(Cells(solvedBoard), mediumPairs)), Stored(HARD, Zeroed(Cells(solvedBoard), hardPairs))]
    {
      var state := JaVerifier.VerifyState(solvedBoard);
      if state != VALID {
        return Err(SourceInvalid);
      }
      var easyBoard := CreateDifficultyBoard(solvedBoard, easyPairs);
      saved := saved + [Stored(EASY, Cells(easyBoard.value))];
      var mediumBoard := CreateDifficultyBoard(solvedBoard, mediumPairs);
      saved := saved + [Stored(MEDIUM, Cells(mediumBoard.value))];
      var hardBoard := CreateDifficultyBoard(solvedBoard, hardPairs);
      saved := saved + [Stored(HARD, Cells(hardBoard.value))];
      r := Ok(());
    }
  }

  /** Every saved puzzle of a VALID board keeps the board's other cells,
      and has exactly its level's removal count of blanks. */
  lemma LevelsExact(g: Grid, level: DifficultyEnum, ps: seq<Pos>)
    requires IsGrid(g) && Classify(g) == VALID && level != DifficultyEnum.INCOMPLETE && Pairs(ps, CellsToRemove(level))
    ensures ZeroCount(Zeroed(g, ps)) == CellsToRemove(level)
    ensures forall r, c :: InBoard(r, c) && Pos(r, c) !in ps ==> Zeroed(g, ps)[r][c] == g[r][c]
  {
    ExactRemovals(g, ps);
  }
}
