/** `ControllerFacade` of JavaApplication31: the board in play and its mask
    of givens, kept over a `GameStorage`, with a `GameGenerator`, the
    string `Verifier` and the permutation strategy behind it. The store
    becomes a map from level to the board `loadGame` finds for it (the
    current game under INCOMPLETE). */
module JaFacade {
  import opened Base
  import opened Rules
  import opened Text
  import Scans
  import JaVerifier
  import JaStrategy
  import JaController
  import JaControllerText
  import JaGameGenerator
  import Odometer

  type DifficultyEnum = JaGameGenerator.DifficultyEnum

  /** The `switch` of `getGame(char)`: only the four lower-case letters. */
  function LevelOf(ch: char): (r: Result<DifficultyEnum>)
    ensures r.Ok? <==> ch == 'e' || ch == 'm' || ch == 'h' || ch == 'i'
    ensures r.Err? ==> r.error == InvalidDifficulty
    ensures r.Ok? ==> (r.value.INCOMPLETE? <==> ch == 'i') && (r.value.EASY? <==> ch == 'e')
    ensures r.Ok? ==> (r.value.MEDIUM? <==> ch == 'm') && (r.value.HARD? <==> ch == 'h')
  {
    match ch
    case 'e' => Ok(JaGameGenerator.EASY)
    case 'm' => Ok(JaGameGenerator.MEDIUM)
    case 'h' => Ok(JaGameGenerator.HARD)
    case 'i' => Ok(JaGameGenerator.INCOMPLETE)
    case _ => Err(InvalidDifficulty)
  }

  /** The facade is stricter than `Controller.difficultyFolder`: both take
      'e', 'm' and 'h', but only the controller takes the upper-case
      letters, and only the facade takes 'i'. */
  lemma LevelsComparedWithController(ch: char)
    ensures LevelOf(ch).Ok? && ch != 'i' ==> JaController.IsLevelChar(ch)
    ensures JaController.IsLevelChar(ch) && !LevelOf(ch).Ok? ==> ch == 'E' || ch == 'M' || ch == 'H'
    ensures LevelOf('i').Ok? && !JaController.IsLevelChar('i')
  {
  }

  // ----- extractSolution -----

  /** The cells `extractSolution` reports: empty in the puzzle and filled
      in the answer. */
  function FilledMask(original: Grid, solved: Grid): (m: Mask)
    requires IsGrid(original) && IsGrid(solved)
    ensures IsGrid(m)
    ensures forall r, c :: 0 <= r < 9 && 0 <= c < 9 ==> (m[r][c] <==> original[r][c] == 0 && solved[r][c] != 0)
  {
    seq(9, r requires 0 <= r < 9 => seq(9, c requires 0 <= c < 9 => original[r][c] == 0 && solved[r][c] != 0))
  }

  /** The values of a board at a list of cells. */
  function ValuesAt(g: Grid, ps: seq<Pos>): seq<int>
    requires IsGrid(g)
  {
    seq(|ps|, k requires 0 <= k < |ps| => if InBoard(ps[k].r, ps[k].c) then g[ps[k].r][ps[k].c] else 0)
  }

  /** What `extractSolution` lists: the answer's value at each reported
      cell, in row-major order. */
  function Extracted(original: Grid, solved: Grid): seq<int>
    requires IsGrid(original) && IsGrid(solved)
  {
    ValuesAt(solved, AllListed(FilledMask(original, solved)))
  }

  /** `extractSolution(original, solved)`: a row-major scan adding
      `solved[i][j]` wherever `original[i][j]` is 0 and `solved[i][j]` is
      not. */
  method ExtractSolution(original: array2<int>, solved: array2<int>) returns (solution: seq<int>)
    requires Is9x9(original) && Is9x9(solved)
    ensures solution == Extracted(Cells(original), Cells(solved))
  {
    ghost var s := Cells(solved);
    ghost var m := FilledMask(Cells(original), s);
    ListedStart(m);
    solution := [];
    for i := 0 to 9
      invariant solution == ValuesAt(s, Listed(m, i, 0))
    {
      for j := 0 to 9
        invariant solution == ValuesAt(s, Listed(m, i, j))
      {
        ListedStep(m, i, j);
        if original[i, j] == 0 && solved[i, j] != 0 {
          assert ValuesAt(s, Listed(m, i, j) + [Pos(i, j)]) == solution + [solved[i, j]];
          solution := solution + [solved[i, j]];
        }
      }
      ListedWrap(m, i);
    }
  }

  /** On an answer that fills the puzzle's empty cells with nonzero values,
      in row-major order, `extractSolution` gives back exactly those
      values. */
  lemma ExtractOverlay(g: Grid, vals: seq<int>)
    requires IsGrid(g) && |vals| == ZeroCount(g)
    requires forall i :: 0 <= i < |vals| ==> vals[i] != 0
    ensures Extracted(g, Overlay(g, EmptyCells(g), vals)) == vals
  {
    var cells := EmptyCells(g);
    var h := Overlay(g, cells, vals);
    EmptyCellsSpec(g);
    EmptyCellsOnBoard(g);
    var m := FilledMask(g, h);
    forall r | 0 <= r < 9
      ensures m[r] == ZeroMask(g)[r]
    {
      forall c | 0 <= c < 9
        ensures m[r][c] == ZeroMask(g)[r][c]
      {
        if g[r][c] == 0 {
          VirtualAtListed(g, cells, vals, r, c);
        }
      }
    }
    assert m == ZeroMask(g);
    forall k | 0 <= k < |cells|
      ensures ValuesAt(h, cells)[k] == vals[k]
    {
      VirtualAtIndex(g, cells, vals, k);
    }
  }

  // ----- verifyGame(int[][]) -----

  /** The cell `verify` names when it rejects a board. */
  ghost function Reported(g: Grid): Pos
    requires IsGrid(g) && Classify(g) == INVALID
  {
    NoBadIff(g);
    AllListed(BadMask(g))[0]
  }

  /** A rejected board is answered "invalid r,c", naming a bad cell of the
      board. */
  lemma VerdictInvalid(g: Grid)
    requires IsGrid(g) && Classify(g) == INVALID
    ensures InBoard(Reported(g).r, Reported(g).c) && Bad(g, Reported(g).r, Reported(g).c)
    ensures JaVerifier.VerifyText(g) == JaVerifier.InvalidAt(Reported(g))
  {
    NoBadIff(g);
    AllListedSpec(BadMask(g));
  }

  /** "invalid r,c" splits at the space into the word and "r,c", and "r,c"
      at the comma into the two numbers, which parse back. */
  lemma VerdictParts(p: Pos)
    requires InBoard(p.r, p.c)
    ensures Split(JaVerifier.InvalidAt(p), ' ') == ["invalid", IntText(p.r) + "," + IntText(p.c)]
    ensures Split(IntText(p.r) + "," + IntText(p.c), ',') == [IntText(p.r), IntText(p.c)]
    ensures ParseInt(IntText(p.r)) == Ok(p.r) && ParseInt(IntText(p.c)) == Ok(p.c)
  {
    var a, b := IntText(p.r), IntText(p.c);
    IntTextChars(p.r);
    IntTextChars(p.c);
    ParseIntText(p.r);
    ParseIntText(p.c);
    var coords := a + "," + b;
    assert Join([a, b], ',') == coords;
    SplitJoin([a, b], ',');
    assert JaVerifier.InvalidAt(p) == Join(["invalid", coords], ' ');
    assert coords[|coords| - 1] == b[|b| - 1];
    SplitJoin(["invalid", coords], ' ');
  }

  /** The `else` branch of `verifyGame`: every "r,c" piece after the first
      word of the verdict is parsed and, when on the board, set to false. */
  method MarkReported(verification: array2<bool>, result: string, ghost p: Pos)
    requires Is9x9(verification) && InBoard(p.r, p.c) && result == JaVerifier.InvalidAt(p)
    modifies verification
    ensures Cells(verification) == Put(old(Cells(verification)), p.r, p.c, false)
  {
    VerdictParts(p);
    var parts := Split(result, ' ');
    for i := 1 to |parts|
      invariant Cells(verification) == (if i == 1 then old(Cells(verification))
                                       else Put(old(Cells(verification)), p.r, p.c, false))
    {
      var coords := Split(parts[i], ',');
      if |coords| == 2 {
        var row := ParseInt(coords[0]).value;
        var col := ParseInt(coords[1]).value;
        if row >= 0 && row < 9 && col >= 0 && col < 9 {
          Write(verification, row, col, false);
        }
      }
    }
  }

  /** `verifyGame(int[][])` as written: a `new boolean[9][9]` is all
      false, the "valid"/"incomplete" branch sets every entry to true, and
      the other branch only ever writes false. So a rejected board comes
      back with every entry false, the cells `verify` does not report
      included. */
  method VerifyGame(game: array2<int>) returns (verification: array2<bool>)
    requires Is9x9(game)
    ensures fresh(verification) && Is9x9(verification)
    ensures forall r, c :: 0 <= r < 9 && 0 <= c < 9 ==> (verification[r, c] <==> Classify(Cells(game)) != INVALID)
  {
    var result := JaVerifier.Verify(game);
    JaVerifier.VerifyAgree(Cells(game));
    verification := new bool[9, 9]((i, j) => false);
    if result == "valid" || result == "incomplete" {
      Fill(verification, true);
    } else {
      VerdictInvalid(Cells(game));
      MarkReported(verification, result, Reported(Cells(game)));
    }
  }

  /** A one-duplicate board: two 5s at the start of row 0, every other
      cell 0. */
  function TwoFives(): (g: Grid)
    ensures IsGrid(g)
  {
    seq(9, r requires 0 <= r < 9 => seq(9, c requires 0 <= c < 9 => if r == 0 && c < 2 then 5 else 0))
  }

  /** On that board `verifyGame` marks the empty cell (4, 4), which breaks
      no rule, as false. */
  lemma VerifyGameMarksAll()
    ensures Classify(TwoFives()) == INVALID
    ensures !Bad(TwoFives(), 4, 4)
  {
    var g := TwoFives();
    assert Peers(0, 0, 0, 1) && g[0][0] == g[0][1] == 5;
    assert Clashes(g, 0, 0);
    assert !ConflictFree(g);
  }

  /** `verifyGame` with the array started at true, which the two branches
      evidently mean: every cell true except the one `verify` reports. */
  method VerifyGameMarked(game: array2<int>) returns (verification: array2<bool>)
    requires Is9x9(game)
    ensures fresh(verification) && Is9x9(verification)
    ensures Classify(Cells(game)) != INVALID ==> forall r, c :: 0 <= r < 9 && 0 <= c < 9 ==> verification[r, c]
    ensures Classify(Cells(game)) == INVALID ==>
      forall r, c :: 0 <= r < 9 && 0 <= c < 9 ==> (!verification[r, c] <==> Pos(r, c) == Reported(Cells(game)))
    ensures forall r, c :: 0 <= r < 9 && 0 <= c < 9 && !verification[r, c] ==> Bad(Cells(game), r, c)
  {
    var result := JaVerifier.Verify(game);
    JaVerifier.VerifyAgree(Cells(game));
    verification := new bool[9, 9]((i, j) => true);
    if result != "valid" && result != "incomplete" {
      VerdictInvalid(Cells(game));
      MarkReported(verification, result, Reported(Cells(game)));
    }
  }

  /** Every entry of a 9x9 array set to one value. */
  method Fill(a: array2<bool>, v: bool)
    requires Is9x9(a)
    modifies a
    ensures forall r, c :: 0 <= r < 9 && 0 <= c < 9 ==> a[r, c] == v
  {
    for i := 0 to 9
      invariant forall r, c :: 0 <= r < i && 0 <= c < 9 ==> a[r, c] == v
    {
      for j := 0 to 9
        invariant forall r, c :: 0 <= r < i && 0 <= c < 9 ==> a[r, c] == v
        invariant forall c :: 0 <= c < j ==> a[i, c] == v
      {
        a[i, j] := v;
      }
    }
  }

  // ----- the solver entry points -----

  /** `solveGame(int[][])`: the permutation strategy on a deep copy, so
      the caller's board is never written. */
  method SolveGame(game: array2<int>) returns (r: Result<array2<int>>, ghost k: nat)
    requires Is9x9(game)
    ensures ZeroCount(Cells(game)) != 5 <==> r == Err(UnsupportedCellCount)
    ensures r.Err? && ZeroCount(Cells(game)) == 5 ==>
      r == Err(NoSolution) && forall j :: 0 <= j < Odometer.Total ==> !JaStrategy.Passes(Cells(game), j)
    ensures r.Ok? ==> fresh(r.value) && Is9x9(r.value) && ZeroCount(Cells(game)) == 5
    ensures r.Ok? ==> JaStrategy.FirstPass(Cells(game), k)
    ensures r.Ok? ==> Cells(r.value) == Overlay(Cells(game), EmptyCells(Cells(game)), Odometer.Combo(k))
  {
    var copy := CopyBoard(game);
    r, k := JaStrategy.Solve(copy);
  }

  /** `solveGame(Game)`: the same solve, then the values it filled in,
      row by row, which are the accepted reading of the odometer. */
  method SolveAndExtract(game: array2<int>) returns (r: Result<seq<int>>, ghost k: nat)
    requires Is9x9(game)
    ensures ZeroCount(Cells(game)) != 5 <==> r == Err(UnsupportedCellCount)
    ensures r.Err? ==> r == Err(UnsupportedCellCount) || r == Err(NoSolution)
    ensures r.Ok? ==> JaStrategy.FirstPass(Cells(game), k) && r.value == Odometer.Combo(k)
    ensures r.Ok? ==> Classify(Overlay(Cells(game), EmptyCells(Cells(game)), r.value)) == VALID
  {
    var solved;
    solved, k := SolveGame(game);
    if solved.Err? {
      return Err(solved.error), k;
    }
    var values := ExtractSolution(game, solved.value);
    ghost var g := Cells(game);
    Odometer.ComboSpec(k);
    ExtractOverlay(g, Odometer.Combo(k));
    JaStrategy.PassesFills(g, k);
    r := Ok(values);
  }

  class ControllerFacade {
    var currentBoard: array2?<int>
    var isOriginal: array2?<bool>
    /** The board `GameStorage.loadGame` / `loadCurrentGame` would read for
        each level; INCOMPLETE is `current/current_game.dat`. */
    var games: map<DifficultyEnum, Grid>
    const generator: JaGameGenerator.GameGenerator

    /** A new facade has no board; the store is whatever is on disk. */
    constructor (games: map<DifficultyEnum, Grid>)
      ensures currentBoard == null && isOriginal == null && this.games == games
      ensures fresh(generator) && generator.saved == []
    {
      this.games := games;
      currentBoard := null;
      isOriginal := null;
      generator := new JaGameGenerator.GameGenerator();
    }

    /** The stored boards are 9x9, and a board in play has its mask of
        givens. */
    ghost predicate Valid()
      reads this, currentBoard, isOriginal
    {
      (forall d :: d in games ==> IsGrid(games[d]))
      && (currentBoard == null <==> isOriginal == null)
      && (currentBoard != null ==>
            isOriginal != null && Is9x9(currentBoard) && Is9x9(isOriginal)
            && Cells(isOriginal) == JaControllerText.NonZero(Cells(currentBoard)))
    }

    /** The `try` block shared by `getGame` and `loadGame`: a level with no
        stored game throws; otherwise its board, read afresh, is in play
        with the mask `createOriginalMask` makes of it. */
    method Load(level: DifficultyEnum) returns (r: Result<()>)
      requires Valid()
      modifies this
      ensures Valid() && games == old(games)
      ensures r.Ok? <==> level in games
      ensures r.Err? ==> r.error == NotFound && currentBoard == old(currentBoard) && isOriginal == old(isOriginal)
      ensures r.Ok? ==> currentBoard != null && fresh(currentBoard) && fresh(isOriginal)
      ensures r.Ok? ==> Cells(currentBoard) == games[level]
    {
      if level !in games {
        return Err(NotFound);
      }
      currentBoard := FromGrid(games[level]);
      isOriginal := JaController.OriginalMask(currentBoard);
      r := Ok(());
    }

    /** `getGame(char)`: an unknown letter throws before anything is read;
        a level with no stored game throws "Game not found"; otherwise the
        caller gets a deep copy of the board now in play. */
    method GetGame(level: char) returns (r: Result<array2<int>>)
      requires Valid()
      modifies this
      ensures Valid() && games == old(games)
      ensures LevelOf(level).Err? ==> r == Err(InvalidDifficulty)
      ensures LevelOf(level).Ok? ==> (r.Ok? <==> LevelOf(level).value in games)
      ensures LevelOf(level).Ok? && r.Err? ==> r == Err(NotFound)
      ensures r.Err? ==> currentBoard == old(currentBoard) && isOriginal == old(isOriginal)
      ensures r.Ok? ==> currentBoard != null && fresh(currentBoard) && fresh(r.value) && r.value != currentBoard
      ensures r.Ok? ==> Is9x9(r.value) && Cells(r.value) == Cells(currentBoard) == games[LevelOf(level).value]
    {
      var d := LevelOf(level);
      if d.Err? {
        return Err(d.error);
      }
      var loaded := Load(d.value);
      if loaded.Err? {
        return Err(loaded.error);
      }
      var copy := CopyBoard(currentBoard);
      r := Ok(copy);
    }

    /** `getGame(DifficultyEnum)`: the same, except that the board handed
        out is the one in play itself, not a copy. */
    method GetGameByLevel(level: DifficultyEnum) returns (r: Result<array2<int>>)
      requires Valid()
      modifies this
      ensures Valid() && games == old(games)
      ensures r.Ok? <==> level in games
      ensures r.Err? ==> r == Err(NotFound) && currentBoard == old(currentBoard) && isOriginal == old(isOriginal)
      ensures r.Ok? ==> r.value == currentBoard && fresh(currentBoard) && Cells(currentBoard) == games[level]
    {
      var loaded := Load(level);
      if loaded.Err? {
        return Err(loaded.error);
      }
      r := Ok(currentBoard);
    }

    /** `loadGame`: the current game becomes the board in play. */
    method LoadGame() returns (r: Result<()>)
      requires Valid()
      modifies this
      ensures Valid() && games == old(games)
      ensures r.Ok? <==> JaGameGenerator.INCOMPLETE in games
      ensures r.Err? ==> r.error == NotFound && currentBoard == old(currentBoard) && isOriginal == old(isOriginal)
      ensures r.Ok? ==> currentBoard != null && fresh(currentBoard)
      ensures r.Ok? ==> Cells(currentBoard) == games[JaGameGenerator.INCOMPLETE]
    {
      r := Load(JaGameGenerator.INCOMPLETE);
    }

    /** `saveGame`: with a board in play it replaces the current game;
        without one nothing happens. */
    method SaveGame()
      requires Valid()
      modifies this
      ensures Valid() && currentBoard == old(currentBoard) && isOriginal == old(isOriginal)
      ensures currentBoard == null ==> games == old(games)
      ensures currentBoard != null ==> games == old(games)[JaGameGenerator.INCOMPLETE := Cells(currentBoard)]
    {
      if currentBoard != null {
        games := games[JaGameGenerator.INCOMPLETE := Cells(currentBoard)];
      }
    }

    /** `deleteCurrentGame`: the current game is removed from the store
        and nothing is in play. */
    method DeleteCurrentGame()
      modifies this
      ensures currentBoard == null && isOriginal == null
      ensures games == old(games) - {JaGameGenerator.INCOMPLETE}
    {
      games := games - {JaGameGenerator.INCOMPLETE};
      currentBoard := null;
      isOriginal := null;
    }

    /** `getCurrentGame`: a deep copy of the board in play, or null. */
    method GetCurrentGame() returns (r: array2?<int>)
      requires Valid()
      ensures (r == null) == (currentBoard == null)
      ensures r != null ==> fresh(r) && Is9x9(r) && Cells(r) == Cells(currentBoard)
    {
      r := null;
      if currentBoard != null {
        r := CopyBoard(currentBoard);
      }
    }

    /** `getIsOriginal`: a deep copy of the mask, or null; it marks the
        nonzero cells of the board in play. */
    method GetIsOriginal() returns (r: array2?<bool>)
      requires Valid()
      ensures (r == null) == (isOriginal == null)
      ensures r != null ==> fresh(r) && Is9x9(r) && Cells(r) == Cells(isOriginal)
      ensures r != null && currentBoard != null ==>
        forall i, j :: 0 <= i < 9 && 0 <= j < 9 ==> (r[i, j] <==> currentBoard[i, j] != 0)
    {
      r := null;
      if isOriginal != null {
        r := CopyBoard(isOriginal);
      }
    }

    /** `getRemainingCells`: 0 with no board in play, else its empty
        cells. */
    method GetRemainingCells() returns (n: int)
      requires Valid()
      ensures currentBoard == null ==> n == 0
      ensures currentBoard != null ==> n == ZeroCount(Cells(currentBoard))
    {
      if currentBoard == null {
        return 0;
      }
      n := Scans.CountEmpty(currentBoard);
    }

    /** `getFaults`: the facade keeps no fault counter, and `setFaults`
        does nothing. */
    method GetFaults() returns (f: int)
      ensures f == 0
    {
      f := 0;
    }

    /** `getCatalogArray`: whether a current game is stored, and whether
        every level has a stored game. */
    method GetCatalogArray() returns (flags: seq<bool>)
      ensures |flags| == 2
      ensures flags[0] <==> JaGameGenerator.INCOMPLETE in games
      ensures flags[1] <==> forall d: DifficultyEnum :: d != JaGameGenerator.INCOMPLETE ==> d in games
    {
      var hasAll := JaGameGenerator.EASY in games && JaGameGenerator.MEDIUM in games && JaGameGenerator.HARD in games;
      flags := [JaGameGenerator.INCOMPLETE in games, hasAll];
    }

    /** `driveGames(Game)`: the generator's `generateFromSolved` on the
        board, its failure rethrown. */
    method DriveGames(board: array2<int>, easyPairs: seq<Pos>, mediumPairs: seq<Pos>, hardPairs: seq<Pos>)
        returns (r: Result<()>)
      requires Is9x9(board)
      requires JaGameGenerator.Pairs(easyPairs, 10) && JaGameGenerator.Pairs(mediumPairs, 20)
      requires JaGameGenerator.Pairs(hardPairs, 25)
      modifies generator
      ensures r.Ok? <==> Classify(Cells(board)) == VALID
      ensures r.Err? ==> r.error == SourceInvalid && generator.saved == old(generator.saved)
      ensures r.Ok? ==> generator.saved == old(generator.saved) + [
        JaGameGenerator.Stored(JaGameGenerator.EASY, Zeroed(Cells(board), easyPairs)),
        JaGameGenerator.Stored(JaGameGenerator.MEDIUM, Zeroed(Cells(board), mediumPairs)),
        JaGameGenerator.Stored(JaGameGenerator.HARD, Zeroed(Cells(board), hardPairs))]
    {
      r := generator.GenerateFromSolved(board, easyPairs, mediumPairs, hardPairs);
    }

    /** `driveGames(String)`: `loadBoardFromFile` is a placeholder that
        returns an empty board, which is never VALID, so the call always
        fails and nothing is stored. */
    method DriveGamesFromFile(easyPairs: seq<Pos>, mediumPairs: seq<Pos>, hardPairs: seq<Pos>)
        returns (r: Result<()>)
      requires JaGameGenerator.Pairs(easyPairs, 10) && JaGameGenerator.Pairs(mediumPairs, 20)
      requires JaGameGenerator.Pairs(hardPairs, 25)
      modifies generator
      ensures r == Err(SourceInvalid) && generator.saved == old(generator.saved)
    {
      var sourceBoard := new int[9, 9]((i, j) => 0);
      EmptyNotValid(Cells(sourceBoard));
      r := DriveGames(sourceBoard, easyPairs, mediumPairs, hardPairs);
    }
  }

  /** A board of zeros is INCOMPLETE, not VALID. */
  lemma EmptyNotValid(g: Grid)
    requires IsGrid(g) && forall r, c :: 0 <= r < 9 && 0 <= c < 9 ==> g[r][c] == 0
    ensures Classify(g) == INCOMPLETE
  {
    NoZeroIff(g);
    NoBadIff(g);
    assert g[0][0] == 0;
  }
}
