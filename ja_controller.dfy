/** `Controller` of JavaApplication31: the game in play (board, solution,
    given-cell mask, fault counter, source path), the level files it writes
    under `sudoku_games/`, the save file and the move log of
    `sudoku_games/incomplete/`. The file system becomes three fields: the
    level files as a map from path to the board `writeBoard` wrote there
    (its text is `BoardToString` of the board, which `readBoard` reads
    back), and the save file and the log as optional contents (None when the file does not exist). The clock
    becomes a time-stamp parameter, `RandomPairs` the lists of cells it
    hands out, `java.util.Random` a tape of draws. */
module JaController {
  import opened Base
  import opened Rules
  import opened Text
  import opened JaControllerText
  import Scans
  import Search
  import JaBacktrack
  import JaVerifier
  import Random

  // ----- levels and paths -----

  /** The characters `Character.toUpperCase` turns into E, M or H. */
  predicate IsLevelChar(level: char) {
    ToUpper(level) == 'E' || ToUpper(level) == 'M' || ToUpper(level) == 'H'
  }

  /** `difficultyFolder`: the folder of a level, or IllegalArgumentException. */
  function DifficultyFolder(level: char): (r: Result<string>)
    ensures r.Ok? <==> IsLevelChar(level)
    ensures r.Err? ==> r.error == InvalidDifficulty
  {
    match ToUpper(level)
    case 'E' => Ok("easy")
    case 'M' => Ok("medium")
    case 'H' => Ok("hard")
    case _ => Err(InvalidDifficulty)
  }

  /** The `cellsToRemove` switch of `generateFromSolvedBoard`, the same
      counts `getGame` passes to `removeNumbers`. */
  function RemovalCount(level: char): (r: Result<int>)
    ensures r.Ok? <==> IsLevelChar(level)
    ensures r.Err? ==> r.error == InvalidDifficulty
  {
    match ToUpper(level)
    case 'E' => Ok(10)
    case 'M' => Ok(20)
    case 'H' => Ok(25)
    case _ => Err(InvalidDifficulty)
  }

  /** The two switches agree, and a harder level removes more cells. */
  lemma LevelsOrdered(level: char)
    requires IsLevelChar(level)
    ensures 10 <= RemovalCount(level).value <= 25
    ensures RemovalCount(level).value == 10 <==> DifficultyFolder(level).value == "easy"
    ensures RemovalCount(level).value == 20 <==> DifficultyFolder(level).value == "medium"
    ensures RemovalCount(level).value == 25 <==> DifficultyFolder(level).value == "hard"
  {
  }

  const BaseDir: string := "sudoku_games"

  /** `Paths.get(BASE_DIR, folder, name).toString()`. */
  function GameFile(folder: string, name: string): string {
    BaseDir + "/" + folder + "/" + name
  }

  /** "game_" + time stamp + suffix + ".txt". */
  function StampName(stamp: string, suffix: string): string {
    "game_" + stamp + suffix + ".txt"
  }

  /** A file of the level's folder. */
  function LevelPath(level: char, name: string): string
    requires IsLevelChar(level)
  {
    GameFile(DifficultyFolder(level).value, name)
  }

  /** The level file `getGame` writes for a level and a time stamp. */
  function LevelFile(level: char, stamp: string): string
    requires IsLevelChar(level)
  {
    LevelPath(level, StampName(stamp, "_" + [ToUpper(level)]))
  }

  /** The grid of `new int[9][9]`. */
  function Blank(): (g: Grid)
    ensures IsGrid(g) && forall r, c :: InBoard(r, c) ==> g[r][c] == 0
  {
    seq(9, r => seq(9, c => 0))
  }

  /** The lists of cells one `removeNumbers` call was given, and how many
      of them it took. */
  datatype Cut = Cut(batches: seq<seq<Pos>>, used: int)

  /** What `removeNumbers(puzzle, count)` promises of a copy of `solved`:
      only digits are removed, exactly `count` of them unless every list
      of cells was taken first, and once one is removed the puzzle has a
      single solution. */
  ghost predicate Puzzle(solved: Grid, puzzle: Grid, count: int, cut: Cut)
    requires IsGrid(solved) && IsGrid(puzzle)
  {
    JaBacktrack.Derived(solved, puzzle, Blanked(solved, puzzle)) && Blanked(solved, puzzle) <= count
    && 0 <= cut.used <= |cut.batches| && (Blanked(solved, puzzle) == count || cut.used == |cut.batches|)
  }

  // ----- moves -----

  /** The board in play and the fault counter. */
  datatype Play = Play(board: Grid, faults: int)

  /** One `setCellValue(row, col, value)`. */
  datatype Move = Move(row: int, col: int, value: int)

  predicate OnGrid(m: Move) { InBoard(m.row, m.col) }

  /** A write of a digit other than the solution's into a cell that is not
      given: the writes that count as faults. */
  predicate Wrong(original: Mask, solution: Grid, m: Move)
    requires IsGrid(original) && IsGrid(solution) && OnGrid(m)
  {
    !original[m.row][m.col] && m.value != 0 && m.value != solution[m.row][m.col]
  }

  /** The state after `setCellValue`: a given cell is refused; any other
      cell takes the value, and a wrong value adds a fault. */
  function Place(p: Play, original: Mask, solution: Grid, m: Move): (q: Play)
    requires IsGrid(p.board) && IsGrid(original) && IsGrid(solution) && OnGrid(m)
    ensures IsGrid(q.board)
  {
    if original[m.row][m.col] then p
    else Play(Put(p.board, m.row, m.col, m.value), if Wrong(original, solution, m) then p.faults + 1 else p.faults)
  }

  /** The answer of `setCellValue`: false for a given cell and for the
      wrong value that brings the faults to three or more. */
  function Accepted(p: Play, original: Mask, solution: Grid, m: Move): bool
    requires IsGrid(original) && IsGrid(solution) && OnGrid(m)
  {
    !original[m.row][m.col] && !(Wrong(original, solution, m) && p.faults + 1 >= 3)
  }

  /** A sequence of `setCellValue` calls, in order. */
  function PlayAll(p: Play, original: Mask, solution: Grid, moves: seq<Move>): (q: Play)
    requires IsGrid(p.board) && IsGrid(original) && IsGrid(solution)
    requires forall k :: 0 <= k < |moves| ==> OnGrid(moves[k])
    ensures IsGrid(q.board)
    decreases |moves|
  {
    if moves == [] then p else PlayAll(Place(p, original, solution, moves[0]), original, solution, moves[1..])
  }

  /** How many of the moves are wrong. */
  function WrongCount(original: Mask, solution: Grid, moves: seq<Move>): nat
    requires IsGrid(original) && IsGrid(solution)
    requires forall k :: 0 <= k < |moves| ==> OnGrid(moves[k])
    decreases |moves|
  {
    if moves == [] then 0
    else (if Wrong(original, solution, moves[0]) then 1 else 0) + WrongCount(original, solution, moves[1..])
  }

  /** No sequence of moves changes a given cell. */
  lemma {:induction false} GivensKept(p: Play, original: Mask, solution: Grid, moves: seq<Move>)
    requires IsGrid(p.board) && IsGrid(original) && IsGrid(solution)
    requires forall k :: 0 <= k < |moves| ==> OnGrid(moves[k])
    ensures forall r, c :: InBoard(r, c) && original[r][c] ==>
      PlayAll(p, original, solution, moves).board[r][c] == p.board[r][c]
    decreases |moves|
  {
    if moves != [] {
      GivensKept(Place(p, original, solution, moves[0]), original, solution, moves[1..]);
    }
  }

  /** The fault counter counts the wrong moves, and nothing else. */
  lemma {:induction false} FaultsCount(p: Play, original: Mask, solution: Grid, moves: seq<Move>)
    requires IsGrid(p.board) && IsGrid(original) && IsGrid(solution)
    requires forall k :: 0 <= k < |moves| ==> OnGrid(moves[k])
    ensures PlayAll(p, original, solution, moves).faults == p.faults + WrongCount(original, solution, moves)
    decreases |moves|
  {
    if moves != [] {
      FaultsCount(Place(p, original, solution, moves[0]), original, solution, moves[1..]);
    }
  }

  /** Once two faults are made, every further wrong value is refused, and a
      value equal to the solution's is never a fault. */
  lemma ThirdFaultRefused(p: Play, original: Mask, solution: Grid, m: Move)
    requires IsGrid(p.board) && IsGrid(original) && IsGrid(solution) && OnGrid(m)
    ensures p.faults >= 2 && Wrong(original, solution, m) ==> !Accepted(p, original, solution, m)
    ensures m.value == solution[m.row][m.col] ==> Place(p, original, solution, m).faults == p.faults
  {
  }

  /** A cell `verifyGame` marks false shares its value with a peer, which
      is marked false too: wrong cells come in pairs. */
  lemma ClashPaired(g: Grid, r: int, c: int) returns (r2: int, c2: int)
    requires IsGrid(g) && InBoard(r, c) && Clashes(g, r, c)
    ensures InBoard(r2, c2) && Peers(r, c, r2, c2) && g[r2][c2] == g[r][c] && Clashes(g, r2, c2)
  {
    r2, c2 :| InBoard(r2, c2) && Peers(r, c, r2, c2) && g[r2][c2] == g[r][c];
    assert Peers(r2, c2, r, c);
  }

  // ----- the board loops -----

  /** The `isOriginal` loop: a cell is given exactly when it is nonzero. */
  method OriginalMask(board: array2<int>) returns (m: array2<bool>)
    requires Is9x9(board)
    ensures fresh(m) && Is9x9(m)
    ensures Cells(m) == NonZero(Cells(board))
  {
    m := new bool[9, 9];
    for i := 0 to 9
      invariant forall r, c :: 0 <= r < i && 0 <= c < 9 ==> (m[r, c] <==> board[r, c] != 0)
    {
      for j := 0 to 9
        invariant forall r, c :: 0 <= r < i && 0 <= c < 9 ==> (m[r, c] <==> board[r, c] != 0)
        invariant forall c :: 0 <= c < j ==> (m[i, c] <==> board[i, c] != 0)
      {
        m[i, j] := board[i, j] != 0;
      }
    }
    forall i | 0 <= i < 9
      ensures Cells(m)[i] == NonZero(Cells(board))[i]
    {
    }
  }

  /** One cell of `verifyGame`: a 0 is fine; a value is blanked, checked
      with `isValid` and put back. */
  method CheckCell(game: array2<int>, i: int, j: int) returns (ok: bool)
    requires Is9x9(game) && InBoard(i, j)
    modifies game
    ensures Cells(game) == old(Cells(game))
    ensures ok <==> !Clashes(Cells(game), i, j)
  {
    if game[i, j] == 0 {
      return true;
    }
    var temp := game[i, j];
    ghost var g := Cells(game);
    Write(game, i, j, 0);
    ok := Scans.Free(game, i, j, temp);
    Write(game, i, j, temp);
    PutRestore(g, i, j, 0);
    FreeWhenBlanked(g, i, j, temp);
  }

  /** The row loop of `verifyGame`. */
  method CheckRow(game: array2<int>, isValid: array2<bool>, i: int, ghost g: Grid)
    requires Is9x9(game) && Is9x9(isValid) && 0 <= i < 9 && Cells(game) == g
    modifies game, isValid
    ensures Cells(game) == g
    ensures forall c :: 0 <= c < 9 ==> (isValid[i, c] <==> !Clashes(g, i, c))
    ensures forall r, c :: 0 <= r < 9 && r != i && 0 <= c < 9 ==> isValid[r, c] == old(isValid[r, c])
  {
    for j := 0 to 9
      invariant Cells(game) == g
      invariant forall c :: 0 <= c < j ==> (isValid[i, c] <==> !Clashes(g, i, c))
      invariant forall r, c :: 0 <= r < 9 && r != i && 0 <= c < 9 ==> isValid[r, c] == old(isValid[r, c])
    {
      var ok := CheckCell(game, i, j);
      isValid[i, j] := ok;
    }
  }

  /** The three copies of the solved board `getGame` cuts its puzzles
      from, 10, 20 and 25 cells removed. */
  method Puzzles(solved: array2<int>, easyBatches: seq<seq<Pos>>, mediumBatches: seq<seq<Pos>>,
                 hardBatches: seq<seq<Pos>>)
      returns (easy: array2<int>, medium: array2<int>, hard: array2<int>, ghost cuts: Cuts)
    requires Is9x9(solved)
    requires JaBacktrack.OnBoard(easyBatches) && JaBacktrack.OnBoard(mediumBatches) && JaBacktrack.OnBoard(hardBatches)
    ensures fresh(easy) && fresh(medium) && fresh(hard) && Is9x9(easy) && Is9x9(medium) && Is9x9(hard)
    ensures cuts.easy.batches == easyBatches && cuts.medium.batches == mediumBatches && cuts.hard.batches == hardBatches
    ensures Puzzle(Cells(solved), Cells(easy), 10, cuts.easy) && Puzzle(Cells(solved), Cells(medium), 20, cuts.medium)
    ensures Puzzle(Cells(solved), Cells(hard), 25, cuts.hard)
  {
    easy := CopyBoard(solved);
    medium := CopyBoard(solved);
    hard := CopyBoard(solved);
    var removed, easyUsed := JaBacktrack.RemoveNumbers(easy, 10, easyBatches);
    var mediumUsed, hardUsed;
    removed, mediumUsed := JaBacktrack.RemoveNumbers(medium, 20, mediumBatches);
    removed, hardUsed := JaBacktrack.RemoveNumbers(hard, 25, hardBatches);
    cuts := Cuts(Cut(easyBatches, easyUsed), Cut(mediumBatches, mediumUsed), Cut(hardBatches, hardUsed));
  }

  /** The cuts of the Easy, Medium and Hard puzzles. */
  datatype Cuts = Cuts(easy: Cut, medium: Cut, hard: Cut)

  /** What `loadGame` has read of a save file when it stops: how many of
      the five fields it read, their values, and the exception that stopped
      it, if one did. */
  datatype Loaded = Loaded(stage: nat, faults: int, source: Option<string>, current: Grid, solution: Grid,
                           original: Mask, failure: Option<Error>)

  /** `loadGame`'s checks in the order it makes them, each field kept as
      soon as it is read. */
  function ReadSave(lines: seq<string>): (l: Loaded)
    ensures l.stage <= 5 && (l.stage == 5 <==> l.failure.None?)
    ensures l.stage >= 3 ==> IsGrid(l.current)
    ensures l.stage >= 4 ==> IsGrid(l.solution)
    ensures l.stage >= 5 ==> IsGrid(l.original)
  {
    var f := FaultsField(lines);
    if f.Err? then Loaded(0, 0, None, [], [], [], Some(f.error)) else
    var src := SourceField(lines);
    if src.Err? then Loaded(1, f.value, None, [], [], [], Some(src.error)) else
    var cur := BoardSection(lines, 2, CurrentHeader);
    if cur.Err? then Loaded(2, f.value, src.value, [], [], [], Some(cur.error)) else
    var sol := BoardSection(lines, 12, SolutionHeader);
    if sol.Err? then Loaded(3, f.value, src.value, cur.value, [], [], Some(sol.error)) else
    var orig := MaskSection(lines, 22);
    if orig.Err? then Loaded(4, f.value, src.value, cur.value, sol.value, [], Some(orig.error)) else
    Loaded(5, f.value, src.value, cur.value, sol.value, orig.value, None)
  }

  /** The record a complete read restores. */
  function Kept(l: Loaded): SaveRecord {
    SaveRecord(l.faults, l.source, l.current, l.solution, l.original)
  }

  /** Reading field by field ends where reading the whole record does: a
      complete read is the record, and a read that stops throws the
      record's exception. */
  lemma ReadSaveAgrees(lines: seq<string>)
    ensures var l := ReadSave(lines);
      (l.stage == 5 <==> LoadRecord(lines).Ok?)
      && (LoadRecord(lines).Err? ==> l.failure == Some(LoadRecord(lines).error))
      && (LoadRecord(lines).Ok? ==> LoadRecord(lines).value == Kept(l))
  {
  }

  class Controller {
    var currentGame: array2?<int>
    var solution: array2?<int>
    var isOriginal: array2?<bool>
    var faults: int
    /** `currentGameSourcePath`, null as None. */
    var sourcePath: Option<string>
    /** The boards written to the level files under `sudoku_games/easy`,
        `medium` and `hard`, by path. */
    var files: map<string, Grid>
    /** `sudoku_games/incomplete/game.txt`. */
    var saveFile: Option<string>
    /** `sudoku_games/incomplete/log.txt`. */
    var logFile: Option<string>
    const rng: Random.Rng

    /** A new controller has no game; the files are whatever is on disk. */
    constructor (rng: Random.Rng, files: map<string, Grid>, saveFile: Option<string>, logFile: Option<string>)
      ensures currentGame == null && solution == null && isOriginal == null && faults == 0 && sourcePath.None?
      ensures this.files == files && this.saveFile == saveFile && this.logFile == logFile && this.rng == rng
    {
      this.rng := rng;
      this.files := files;
      this.saveFile := saveFile;
      this.logFile := logFile;
      currentGame := null;
      solution := null;
      isOriginal := null;
      faults := 0;
      sourcePath := None;
    }

    /** A game in play has its solution and mask, all 9x9, the board and
        the solution being different arrays. */
    ghost predicate Valid()
      reads this
    {
      currentGame != null ==>
        solution != null && isOriginal != null && Is9x9(currentGame) && Is9x9(solution) && Is9x9(isOriginal)
        && currentGame != solution
    }

    /** The game in play as `saveGame` writes it. */
    ghost function Record(): (rec: SaveRecord)
      requires Valid() && currentGame != null
      reads this, currentGame, solution, isOriginal
      ensures Complete(rec)
    {
      SaveRecord(faults, sourcePath, Cells(currentGame), Cells(solution), Cells(isOriginal))
    }

    /** The game in play and its two files after a level was set up. */
    ghost predicate Installed(path: string)
      reads this, currentGame, solution, isOriginal
    {
      Valid() && currentGame != null && Cells(isOriginal) == NonZero(Cells(currentGame))
      && sourcePath == Some(path) && saveFile == Some(SaveText(Record())) && logFile == Some("")
    }

    /** Every array field that is set is 9x9, and the game in play is not
        the solution array. */
    ghost predicate Shaped()
      reads this
    {
      (currentGame != null ==> Is9x9(currentGame)) && (solution != null ==> Is9x9(solution))
      && (isOriginal != null ==> Is9x9(isOriginal)) && (currentGame != null ==> currentGame != solution)
    }

    /** `setCellValue`: a given cell is refused and nothing changes; any
        other cell takes the value, a wrong value is a fault, and the
        answer is false when that fault is the third or a later one. The
        fields are touched in the source's order, so before any game is set
        up the mask lookup throws NullPointerException, an index off the
        board throws before anything changes, and a missing solution throws
        after the write. */
    method SetCellValue(row: int, col: int, value: int) returns (r: Result<bool>)
      requires Shaped()
      modifies this, currentGame
      ensures Shaped() && currentGame == old(currentGame) && solution == old(solution) && isOriginal == old(isOriginal)
      ensures sourcePath == old(sourcePath) && files == old(files) && saveFile == old(saveFile) && logFile == old(logFile)
      ensures isOriginal == null ==>
        (r == Err(NullPointer) && faults == old(faults)
         && (currentGame != null ==> Cells(currentGame) == old(Cells(currentGame))))
      ensures isOriginal != null && !InBoard(row, col) ==>
        (r == Err(OutOfBounds) && faults == old(faults)
         && (currentGame != null ==> Cells(currentGame) == old(Cells(currentGame))))
      ensures isOriginal != null && InBoard(row, col) && isOriginal[row, col] ==>
        (r == Ok(false) && faults == old(faults)
         && (currentGame != null ==> Cells(currentGame) == old(Cells(currentGame))))
      ensures isOriginal != null && InBoard(row, col) && !isOriginal[row, col] && currentGame == null ==>
        r == Err(NullPointer) && faults == old(faults)
      ensures (isOriginal != null && InBoard(row, col) && !isOriginal[row, col] && currentGame != null
               && solution == null && value != 0) ==>
        r == Err(NullPointer) && faults == old(faults) && Cells(currentGame) == Put(old(Cells(currentGame)), row, col, value)
      ensures (isOriginal != null && InBoard(row, col) && !isOriginal[row, col] && currentGame != null
               && solution == null && value == 0) ==>
        r == Ok(true) && faults == old(faults) && Cells(currentGame) == Put(old(Cells(currentGame)), row, col, 0)
      ensures InBoard(row, col) && currentGame != null && solution != null && isOriginal != null ==>
        var p := Play(old(Cells(currentGame)), old(faults));
        var m := Move(row, col, value);
        r == Ok(Accepted(p, Cells(isOriginal), Cells(solution), m))
        && Play(Cells(currentGame), faults) == Place(p, Cells(isOriginal), Cells(solution), m)
    {
      if isOriginal == null {
        return Err(NullPointer);
      }
      if !InBoard(row, col) {
        return Err(OutOfBounds);
      }
      if isOriginal[row, col] {
        return Ok(false);
      }
      if currentGame == null {
        return Err(NullPointer);
      }
      Write(currentGame, row, col, value);
      if value != 0 {
        if solution == null {
          return Err(NullPointer);
        }
        if value != solution[row, col] {
          faults := faults + 1;
          if faults >= 3 {
            return Ok(false);
          }
        }
      }
      return Ok(true);
    }

    /** `setFaults`: negative counts become 0. */
    method SetFaults(f: int)
      modifies this
      ensures faults == (if f < 0 then 0 else f) && faults >= 0
      ensures currentGame == old(currentGame) && solution == old(solution) && isOriginal == old(isOriginal)
      ensures sourcePath == old(sourcePath) && files == old(files) && saveFile == old(saveFile) && logFile == old(logFile)
    {
      faults := if f < 0 then 0 else f;
    }

    /** `getRemainingCells`: the empty cells of the game in play, 0 when
        there is none. */
    method GetRemainingCells() returns (n: int)
      requires Valid()
      ensures n == (if currentGame == null then 0 else ZeroCount(Cells(currentGame)))
    {
      if currentGame == null {
        return 0;
      }
      n := Scans.CountEmpty(currentGame);
    }

    /** `saveGame`: nothing without a game; otherwise the save file holds
        the record and, the save file existing, the log exists too. */
    method SaveGame()
      requires Valid()
      modifies this
      ensures currentGame == old(currentGame) && solution == old(solution) && isOriginal == old(isOriginal)
      ensures faults == old(faults) && sourcePath == old(sourcePath) && files == old(files)
      ensures currentGame == null ==> saveFile == old(saveFile) && logFile == old(logFile)
      ensures currentGame != null ==> saveFile == Some(SaveText(Record()))
      ensures currentGame != null ==> logFile == (if old(logFile).None? then Some("") else old(logFile))
    {
      if currentGame == null {
        return;
      }
      saveFile := Some(SaveText(SaveRecord(faults, sourcePath, Cells(currentGame), Cells(solution), Cells(isOriginal))));
      if logFile.None? {
        logFile := Some("");
      }
    }

    /** `deleteCurrentGame`: the save file, the log and the level file the
        game came from are deleted, and the game is dropped. */
    method DeleteCurrentGame()
      modifies this
      ensures currentGame == null && solution == null && isOriginal == null && faults == 0 && sourcePath.None?
      ensures saveFile.None? && logFile.None?
      ensures files == (if old(sourcePath).Some? && !IsBlank(old(sourcePath).value)
        then old(files) - {old(sourcePath).value} else old(files))
    {
      saveFile := None;
      logFile := None;
      if sourcePath.Some? && !IsBlank(sourcePath.value) {
        files := files - {sourcePath.value};
      }
      currentGame := null;
      solution := null;
      isOriginal := null;
      faults := 0;
      sourcePath := None;
    }

    /** `verifyGame`: per cell, true for a 0 and for a value no peer holds.
        The board is blanked and restored cell by cell, so it ends as it
        began. */
    method VerifyGame(game: array2<int>) returns (isValid: array2<bool>)
      requires Is9x9(game)
      modifies game
      ensures Cells(game) == old(Cells(game))
      ensures fresh(isValid) && Is9x9(isValid)
      ensures forall r, c :: InBoard(r, c) ==> (isValid[r, c] <==> !Clashes(Cells(game), r, c))
    {
      ghost var g := Cells(game);
      isValid := new bool[9, 9];
      for i := 0 to 9
        invariant Cells(game) == g
        invariant forall r, c :: 0 <= r < i && 0 <= c < 9 ==> (isValid[r, c] <==> !Clashes(g, r, c))
      {
        CheckRow(game, isValid, i, g);
      }
    }

    /** `loadGame`: no save file is NoSuchFileException (and the log is
        deleted with it); otherwise the log is created if missing and the
        fields are read in order, each assigned as soon as it is read, so a
        failure leaves the fields read before it assigned. */
    method LoadGame() returns (r: Result<()>)
      modifies this
      ensures saveFile == old(saveFile) && files == old(files)
      ensures old(saveFile).None? ==> r == Err(NotFound) && logFile.None? && faults == old(faults)
      ensures old(saveFile).None? ==> currentGame == old(currentGame) && solution == old(solution)
      ensures old(saveFile).None? ==> isOriginal == old(isOriginal) && sourcePath == old(sourcePath)
      ensures old(saveFile).Some? ==> logFile == (if old(logFile).None? then Some("") else old(logFile))
      ensures old(saveFile).Some? ==>
        var l := ReadSave(Lines(old(saveFile).value));
        Took(l) && (r.Ok? <==> l.failure.None?) && (r.Err? ==> Some(r.error) == l.failure)
      ensures r.Ok? ==> old(saveFile).Some? && Valid() && currentGame != null
      ensures r.Ok? ==> Record() == Kept(ReadSave(Lines(old(saveFile).value)))
    {
      if saveFile.None? {
        logFile := None;
        return Err(NotFound);
      }
      if logFile.None? {
        logFile := Some("");
      }
      var lines := Lines(saveFile.value);
      var l := ReadSave(lines);
      Take(l);
      r := if l.failure.None? then Ok(()) else Err(l.failure.value);
    }

    /** The fields as `loadGame` leaves them after reading `l`: those it
        read are assigned, each board to a new array. */
    twostate predicate Took(l: Loaded)
      reads this
    {
      l.stage <= 5
      && faults == (if l.stage >= 1 then l.faults else old(faults))
      && sourcePath == (if l.stage >= 2 then l.source else old(sourcePath))
      && (l.stage < 3 ==> currentGame == old(currentGame))
      && (l.stage >= 3 ==> currentGame != null && fresh(currentGame) && Is9x9(currentGame))
      && (l.stage < 4 ==> solution == old(solution))
      && (l.stage >= 4 ==> solution != null && fresh(solution) && Is9x9(solution))
      && (l.stage < 5 ==> isOriginal == old(isOriginal))
      && (l.stage >= 5 ==> isOriginal != null && fresh(isOriginal) && Is9x9(isOriginal))
    }

    /** The assignments of `loadGame` for what it read. */
    method Take(l: Loaded)
      requires l.stage <= 5
      requires (l.stage >= 3 ==> IsGrid(l.current)) && (l.stage >= 4 ==> IsGrid(l.solution))
      requires l.stage >= 5 ==> IsGrid(l.original)
      modifies this
      ensures Took(l)
      ensures l.stage >= 3 ==> Cells(currentGame) == l.current
      ensures l.stage >= 4 ==> Cells(solution) == l.solution && currentGame != solution
      ensures l.stage >= 5 ==> Cells(isOriginal) == l.original
      ensures saveFile == old(saveFile) && logFile == old(logFile) && files == old(files)
    {
      if l.stage >= 1 {
        faults := l.faults;
      }
      if l.stage >= 2 {
        sourcePath := l.source;
      }
      if l.stage >= 3 {
        currentGame := FromGrid(l.current);
      }
      if l.stage >= 4 {
        solution := FromGrid(l.solution);
      }
      if l.stage >= 5 {
        isOriginal := FromGrid(l.original);
      }
    }

    /** The common tail of `getGame` and `generateFromSolvedBoard`: the
        puzzle becomes the game in play with its mask of givens, its level
        file becomes the source path, the game is saved and the log is
        reset to empty. */
    method Install(game: array2<int>, path: string)
      requires Is9x9(game) && solution != null && Is9x9(solution) && game != solution
      modifies this
      ensures Installed(path) && currentGame == game && fresh(isOriginal)
      ensures solution == old(solution) && faults == old(faults) && files == old(files)
    {
      isOriginal := OriginalMask(game);
      currentGame := game;
      sourcePath := Some(path);
      SaveGame();
      logFile := Some("");
    }

    /** `generateFromSolvedBoard(solvedBoard, level)`: the solution is
        replaced by a copy of the board before the level is checked; then
        a copy with the level's count of cells removed becomes the game in
        play, written to a new level file named by the time stamp. The
        fault counter is left as it was. */
    method GenerateFromSolvedBoard(solvedBoard: array2<int>, level: char, batches: seq<seq<Pos>>, stamp: string)
        returns (r: Result<()>, ghost cut: Cut)
      requires Is9x9(solvedBoard) && JaBacktrack.OnBoard(batches)
      modifies this
      ensures solution != null && fresh(solution) && Is9x9(solution) && Cells(solution) == Cells(solvedBoard)
      ensures r.Ok? <==> IsLevelChar(level)
      ensures cut.batches == batches
      ensures r.Err? ==> r.error == InvalidDifficulty && currentGame == old(currentGame) && isOriginal == old(isOriginal)
      ensures r.Err? ==> faults == old(faults) && sourcePath == old(sourcePath) && files == old(files)
      ensures r.Err? ==> saveFile == old(saveFile) && logFile == old(logFile)
      ensures r.Ok? ==>
        var path := LevelPath(level, StampName(stamp, ""));
        Installed(path) && fresh(currentGame) && fresh(isOriginal) && faults == old(faults)
        && Puzzle(Cells(solvedBoard), Cells(currentGame), RemovalCount(level).value, cut)
        && files == old(files)[path := Cells(currentGame)]
    {
      var newGame := CopyBoard(solvedBoard);
      solution := CopyBoard(solvedBoard);
      var count := RemovalCount(level);
      if count.Err? {
        return Err(count.error), Cut(batches, 0);
      }
      var removed, used := JaBacktrack.RemoveNumbers(newGame, count.value, batches);
      cut := Cut(batches, used);
      var path := LevelPath(level, StampName(stamp, ""));
      files := files[path := Cells(newGame)];
      Install(newGame, path);
      r := Ok(());
    }

    /** The state `driveGames` leaves: the Hard puzzle of `src` in play,
        `src` its solution, and the three puzzles written to new level
        files, Easy first. */
    ghost predicate Drove(src: Grid, easy: Grid, medium: Grid, cuts: Cuts, before: map<string, Grid>,
                          easyStamp: string, mediumStamp: string, hardStamp: string)
      requires IsGrid(src)
      reads this, currentGame, solution, isOriginal
    {
      var hardFile := LevelPath('H', StampName(hardStamp, ""));
      Installed(hardFile) && Cells(solution) == src
      && IsGrid(easy) && IsGrid(medium) && Puzzle(src, easy, 10, cuts.easy) && Puzzle(src, medium, 20, cuts.medium)
      && Puzzle(src, Cells(currentGame), 25, cuts.hard)
      && files == before[LevelPath('E', StampName(easyStamp, "")) := easy]
           [LevelPath('M', StampName(mediumStamp, "")) := medium]
           [hardFile := Cells(currentGame)]
    }

    /** `driveGames(sourcePath)`: the source file must read as a VALID
        board; then an Easy, a Medium and a Hard game are generated from
        it in that order, so the Hard one is left in play. */
    method DriveGames(content: string, easyBatches: seq<seq<Pos>>, mediumBatches: seq<seq<Pos>>,
                      hardBatches: seq<seq<Pos>>, easyStamp: string, mediumStamp: string, hardStamp: string)
        returns (r: Result<()>, ghost easy: Grid, ghost medium: Grid, ghost cuts: Cuts)
      requires JaBacktrack.OnBoard(easyBatches) && JaBacktrack.OnBoard(mediumBatches) && JaBacktrack.OnBoard(hardBatches)
      modifies this
      ensures r.Ok? <==> ReadBoard(content).Ok? && Classify(ReadBoard(content).value) == VALID
      ensures ReadBoard(content).Err? ==> r == Err(ReadBoard(content).error)
      ensures ReadBoard(content).Ok? && Classify(ReadBoard(content).value) != VALID ==> r == Err(SourceInvalid)
      ensures r.Err? ==> unchanged(this)
      ensures r.Ok? ==> faults == old(faults)
      ensures cuts.easy.batches == easyBatches && cuts.medium.batches == mediumBatches && cuts.hard.batches == hardBatches
      ensures r.Ok? ==> Drove(ReadBoard(content).value, easy, medium, cuts, old(files), easyStamp, mediumStamp, hardStamp)
    {
      var read := ReadBoard(content);
      cuts := Cuts(Cut(easyBatches, 0), Cut(mediumBatches, 0), Cut(hardBatches, 0));
      if read.Err? {
        return Err(read.error), [], [], cuts;
      }
      var source := FromGrid(read.value);
      var state := JaVerifier.VerifyState(source);
      if state != VALID {
        return Err(SourceInvalid), [], [], cuts;
      }
      easy, medium, cuts := GenerateLevels(source, easyBatches, mediumBatches, hardBatches, easyStamp, mediumStamp, hardStamp);
      r := Ok(());
    }

    /** The three `generateFromSolvedBoard` calls of `driveGames`. */
    method GenerateLevels(source: array2<int>, easyBatches: seq<seq<Pos>>, mediumBatches: seq<seq<Pos>>,
                          hardBatches: seq<seq<Pos>>, easyStamp: string, mediumStamp: string, hardStamp: string)
        returns (ghost easy: Grid, ghost medium: Grid, ghost cuts: Cuts)
      requires Is9x9(source)
      requires JaBacktrack.OnBoard(easyBatches) && JaBacktrack.OnBoard(mediumBatches) && JaBacktrack.OnBoard(hardBatches)
      modifies this
      ensures faults == old(faults)
      ensures cuts.easy.batches == easyBatches && cuts.medium.batches == mediumBatches && cuts.hard.batches == hardBatches
      ensures Drove(Cells(source), easy, medium, cuts, old(files), easyStamp, mediumStamp, hardStamp)
    {
      ghost var src := Cells(source);
      ghost var f0 := files;
      assert RemovalCount('E').value == 10 && RemovalCount('M').value == 20 && RemovalCount('H').value == 25;
      var done, easyCut := GenerateFromSolvedBoard(source, 'E', easyBatches, easyStamp);
      easy := Cells(currentGame);
      assert Puzzle(src, easy, 10, easyCut);
      ghost var f1 := files;
      assert f1 == f0[LevelPath('E', StampName(easyStamp, "")) := easy];
      ghost var mediumCut, hardCut;
      done, mediumCut := GenerateFromSolvedBoard(source, 'M', mediumBatches, mediumStamp);
      medium := Cells(currentGame);
      assert Puzzle(src, medium, 20, mediumCut);
      ghost var f2 := files;
      assert f2 == f1[LevelPath('M', StampName(mediumStamp, "")) := medium];
      done, hardCut := GenerateFromSolvedBoard(source, 'H', hardBatches, hardStamp);
      cuts := Cuts(easyCut, mediumCut, hardCut);
      assert files == f2[LevelPath('H', StampName(hardStamp, "")) := Cells(currentGame)];
    }

    /** The solved board of `getGame`: `source.txt` when it exists, which
        must read as a VALID board; otherwise `generateSolvedPuzzle` on an
        empty board, its answer ignored: the empty board always has a
        solution, so the board comes back filled. */
    method SolvedBoard(source: Option<string>) returns (r: Result<array2<int>>)
      modifies rng
      ensures r.Ok? ==> fresh(r.value) && Is9x9(r.value)
      ensures source.Some? ==> rng.tape == old(rng.tape)
      ensures source.Some? ==> (r.Ok? <==> ReadBoard(source.value).Ok? && Classify(ReadBoard(source.value).value) == VALID)
      ensures source.Some? && ReadBoard(source.value).Err? ==> r == Err(ReadBoard(source.value).error)
      ensures source.Some? && ReadBoard(source.value).Ok? && Classify(ReadBoard(source.value).value) != VALID ==>
        r == Err(SourceInvalid)
      ensures source.Some? && r.Ok? ==> Cells(r.value) == ReadBoard(source.value).value
      ensures source.None? ==> r.Ok? && JaBacktrack.Filled(Cells(r.value), Blank())
    {
      if source.Some? {
        var read := ReadBoard(source.value);
        if read.Err? {
          return Err(read.error);
        }
        var board := FromGrid(read.value);
        var state := JaVerifier.VerifyState(board);
        if state != VALID {
          return Err(SourceInvalid);
        }
        return Ok(board);
      }
      var solved := FromGrid(Blank());
      Search.EmptySolvable(Blank());
      var filled := JaBacktrack.GenerateSolvedPuzzle(solved, 0, 0, rng);
      r := Ok(solved);
    }

    /** `getGame(level)`: an unknown level throws at once. Otherwise three
        puzzles are cut from the solved board and written to their level
        files, the requested one becomes the game in play with no faults,
        and the game is saved with an empty log. */
    method GetGame(level: char, source: Option<string>, easyBatches: seq<seq<Pos>>, mediumBatches: seq<seq<Pos>>,
                   hardBatches: seq<seq<Pos>>, stamp: string)
        returns (r: Result<array2<int>>, ghost easy: Grid, ghost medium: Grid, ghost hard: Grid, ghost cuts: Cuts)
      requires JaBacktrack.OnBoard(easyBatches) && JaBacktrack.OnBoard(mediumBatches) && JaBacktrack.OnBoard(hardBatches)
      modifies this, rng
      ensures !IsLevelChar(level) ==> r == Err(InvalidDifficulty)
      ensures IsLevelChar(level) && source.None? ==> r.Ok?
      ensures IsLevelChar(level) && source.Some? ==>
        (r.Ok? <==> ReadBoard(source.value).Ok? && Classify(ReadBoard(source.value).value) == VALID)
      ensures IsLevelChar(level) && source.Some? && ReadBoard(source.value).Err? ==> r == Err(ReadBoard(source.value).error)
      ensures IsLevelChar(level) && source.Some? && ReadBoard(source.value).Ok? && Classify(ReadBoard(source.value).value) != VALID ==>
        r == Err(SourceInvalid)
      ensures r.Err? ==> unchanged(this) && rng.tape == old(rng.tape)
      ensures r.Ok? ==> IsLevelChar(level) && r.value == currentGame && fresh(currentGame) && fresh(solution)
      ensures r.Ok? ==> Started(easy, medium, hard, cuts, level, stamp, old(files))
      ensures cuts.easy.batches == easyBatches && cuts.medium.batches == mediumBatches && cuts.hard.batches == hardBatches
      ensures r.Ok? && source.Some? ==> Cells(solution) == ReadBoard(source.value).value
      ensures r.Ok? && source.None? ==> JaBacktrack.Filled(Cells(solution), Blank())
    {
      cuts := Cuts(Cut(easyBatches, 0), Cut(mediumBatches, 0), Cut(hardBatches, 0));
      if !IsLevelChar(level) {
        return Err(InvalidDifficulty), [], [], [], cuts;
      }
      var solvedR := SolvedBoard(source);
      if solvedR.Err? {
        return Err(solvedR.error), [], [], [], cuts;
      }
      var selected;
      selected, easy, medium, hard, cuts := Start(solvedR.value, level, easyBatches, mediumBatches, hardBatches, stamp);
      r := Ok(selected);
    }

    /** The state `getGame` leaves: the dealt puzzle in play with no faults,
        saved under its level file with an empty log. */
    ghost predicate Started(easy: Grid, medium: Grid, hard: Grid, cuts: Cuts, level: char, stamp: string,
                            before: map<string, Grid>)
      requires IsLevelChar(level)
      reads this, currentGame, solution, isOriginal
    {
      Installed(LevelFile(level, stamp)) && faults == 0
      && Dealt(Cells(solution), Cells(currentGame), easy, medium, hard, cuts, level, stamp, before, files)
    }

    /** `getGame` once the solved board is known. */
    method Start(solved: array2<int>, level: char, easyBatches: seq<seq<Pos>>, mediumBatches: seq<seq<Pos>>,
                 hardBatches: seq<seq<Pos>>, stamp: string)
        returns (selected: array2<int>, ghost easy: Grid, ghost medium: Grid, ghost hard: Grid, ghost cuts: Cuts)
      requires Is9x9(solved) && IsLevelChar(level)
      requires JaBacktrack.OnBoard(easyBatches) && JaBacktrack.OnBoard(mediumBatches) && JaBacktrack.OnBoard(hardBatches)
      modifies this
      ensures selected == currentGame && fresh(currentGame) && fresh(solution)
      ensures Started(easy, medium, hard, cuts, level, stamp, old(files)) && Cells(solution) == Cells(solved)
      ensures cuts.easy.batches == easyBatches && cuts.medium.batches == mediumBatches && cuts.hard.batches == hardBatches
    {
      selected, easy, medium, hard, cuts := Deal(solved, level, easyBatches, mediumBatches, hardBatches, stamp);
      faults := 0;
      Install(selected, LevelFile(level, stamp));
    }

    /** The part of `getGame` after the solved board is known: the three
        puzzles written to their level files, the solution copied, and the
        requested puzzle picked. */
    method Deal(solved: array2<int>, level: char, easyBatches: seq<seq<Pos>>, mediumBatches: seq<seq<Pos>>,
                hardBatches: seq<seq<Pos>>, stamp: string)
        returns (selected: array2<int>, ghost easy: Grid, ghost medium: Grid, ghost hard: Grid, ghost cuts: Cuts)
      requires Is9x9(solved) && IsLevelChar(level)
      requires JaBacktrack.OnBoard(easyBatches) && JaBacktrack.OnBoard(mediumBatches) && JaBacktrack.OnBoard(hardBatches)
      modifies this
      ensures fresh(selected) && fresh(solution) && solution != null && Is9x9(selected) && Is9x9(solution)
      ensures selected != solution && Cells(solution) == Cells(solved)
      ensures Dealt(Cells(solved), Cells(selected), easy, medium, hard, cuts, level, stamp, old(files), files)
      ensures cuts.easy.batches == easyBatches && cuts.medium.batches == mediumBatches && cuts.hard.batches == hardBatches
      ensures currentGame == old(currentGame) && isOriginal == old(isOriginal) && faults == old(faults)
      ensures sourcePath == old(sourcePath) && saveFile == old(saveFile) && logFile == old(logFile)
    {
      var e, m, h;
      e, m, h, cuts := Puzzles(solved, easyBatches, mediumBatches, hardBatches);
      easy, medium, hard := Cells(e), Cells(m), Cells(h);
      files := files[LevelFile('E', stamp) := Cells(e)][LevelFile('M', stamp) := Cells(m)]
        [LevelFile('H', stamp) := Cells(h)];
      solution := CopyBoard(solved);
      var requested := ToUpper(level);
      selected := if requested == 'E' then e else if requested == 'M' then m else h;
    }
  }

  /** The boards `getGame` leaves: three puzzles of the solution written
      to their level files, and the requested one in play. */
  ghost predicate Dealt(solved: Grid, game: Grid, easy: Grid, medium: Grid, hard: Grid, cuts: Cuts, level: char,
                        stamp: string, before: map<string, Grid>, after: map<string, Grid>)
    requires IsLevelChar(level)
  {
    IsGrid(solved) && IsGrid(easy) && IsGrid(medium) && IsGrid(hard)
    && Puzzle(solved, easy, 10, cuts.easy) && Puzzle(solved, medium, 20, cuts.medium) && Puzzle(solved, hard, 25, cuts.hard)
    && game == (if ToUpper(level) == 'E' then easy else if ToUpper(level) == 'M' then medium else hard)
    && after == before[LevelFile('E', stamp) := easy][LevelFile('M', stamp) := medium][LevelFile('H', stamp) := hard]
  }
}
