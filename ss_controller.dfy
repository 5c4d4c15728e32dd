/** `GameController` of sssoduku: the application logic behind the view. It
    owns the storage, the verifier, the generator (with its random source)
    and the solver, and routes each request of the view through them. */
module SsGameController {
  import opened Base
  import opened Rules
  import opened Text
  import opened Random
  import opened SsGame
  import opened SsUserAction
  import opened SsStorage
  import SsVerifier
  import SsGameGenerator
  import SsGameSolver
  import Odometer

  /** One move of the player: the cell and the value written there. */
  datatype Move = Move(row: int, col: int, value: int)

  /** A move `processMove` completes: on the board, with a Java `int` value. */
  predicate Playable(m: Move) {
    InBoard(m.row, m.col) && IsInt32(m.value)
  }

  /** Every cell holds a Java `int`, as an `int[][]` does. */
  predicate Int32Board(g: Grid)
    requires IsGrid(g)
  {
    forall r, c :: 0 <= r < 9 && 0 <= c < 9 ==> IsInt32(g[r][c])
  }

  /** `processMove` on the board and the log: the cell takes the value and the
      log gains the line of the move, which records what the cell held. */
  function MoveSession(s: Session, m: Move): (t: Session)
    requires IsGrid(s.board) && InBoard(m.row, m.col)
    ensures IsGrid(t.board) && t.log.Some?
  {
    var action := UserAction(m.row, m.col, m.value, s.board[m.row][m.col]);
    Session(Put(s.board, m.row, m.col, m.value), Some(LogLines(s.log) + [ActionText(action)]))
  }

  /** An undo right after a move puts the board back as it was and drops the
      move's line: the log holds what it held before (a missing log is now an
      empty one). */
  lemma UndoInvertsMove(s: Session, m: Move)
    requires IsGrid(s.board) && Int32Board(s.board) && Playable(m)
    ensures UndoSession(MoveSession(s, m)) == Ok(Session(s.board, Some(LogLines(s.log))))
  {
    var action := UserAction(m.row, m.col, m.value, s.board[m.row][m.col]);
    UndoFieldsText(action);
    var lines := LogLines(s.log) + [ActionText(action)];
    assert lines[..|lines| - 1] == LogLines(s.log);
    PutRestore(s.board, m.row, m.col, m.value);
  }

  /** A move keeps every cell a Java `int`. */
  lemma MoveKeepsInt32(s: Session, m: Move)
    requires IsGrid(s.board) && Int32Board(s.board) && Playable(m)
    ensures Int32Board(MoveSession(s, m).board)
  {
  }

  /** The moves, first to last. */
  function PlayMoves(s: Session, moves: seq<Move>): (t: Session)
    requires IsGrid(s.board) && forall k :: 0 <= k < |moves| ==> Playable(moves[k])
    ensures IsGrid(t.board)
    decreases |moves|
  {
    if moves == [] then s
    else
      assert Playable(moves[0]);
      PlayMoves(MoveSession(s, moves[0]), moves[1..])
  }

  /** `undo` pressed n times; the first failure stops the run. */
  function UndoTimes(s: Session, n: nat): (r: Result<Session>)
    requires IsGrid(s.board)
    ensures r.Ok? ==> IsGrid(r.value.board)
    decreases n
  {
    if n == 0 then Ok(s)
    else
      var u := UndoSession(s);
      if u.Err? then Err(u.error) else UndoTimes(u.value, n - 1)
  }

  /** An undo depends on the log only through its lines, once there are any. */
  lemma UndoSameLines(s: Session, t: Session)
    requires IsGrid(s.board) && s.board == t.board && LogLines(s.log) == LogLines(t.log) && LogLines(s.log) != []
    ensures UndoSession(s) == UndoSession(t)
  {
  }

  /** Pressing undo once per move, after any run of moves, gives back the
      board the player started from and the log lines that were there
      before. */
  lemma {:induction false} UndoAllMoves(s: Session, moves: seq<Move>)
    requires IsGrid(s.board) && Int32Board(s.board)
    requires forall k :: 0 <= k < |moves| ==> Playable(moves[k])
    ensures var u := UndoTimes(PlayMoves(s, moves), |moves|);
      u.Ok? && u.value.board == s.board && LogLines(u.value.log) == LogLines(s.log)
    decreases |moves|
  {
    if moves != [] {
      var m, rest := moves[0], moves[1..];
      assert forall k :: 0 <= k < |rest| ==> rest[k] == moves[k + 1];
      var s1 := MoveSession(s, m);
      MoveKeepsInt32(s, m);
      UndoAllMoves(s1, rest);
      LastUndo(s, m, PlayMoves(s1, rest), |rest|);
    }
  }

  /** The undo left after n undos of the later moves takes back the first. */
  lemma LastUndo(s: Session, m: Move, p: Session, n: nat)
    requires IsGrid(s.board) && Int32Board(s.board) && Playable(m) && IsGrid(p.board)
    requires var u := UndoTimes(p, n);
      u.Ok? && u.value.board == MoveSession(s, m).board && LogLines(u.value.log) == LogLines(MoveSession(s, m).log)
    ensures UndoTimes(p, n + 1) == Ok(Session(s.board, Some(LogLines(s.log))))
  {
    var u := UndoTimes(p, n).value;
    UndoTimesSnoc(p, n);
    UndoSameLines(u, MoveSession(s, m));
    UndoInvertsMove(s, m);
  }

  /** n + 1 undos are n undos and then one more. */
  lemma {:induction false} UndoTimesSnoc(s: Session, n: nat)
    requires IsGrid(s.board)
    ensures var u := UndoTimes(s, n);
      UndoTimes(s, n + 1) == if u.Err? then u else UndoSession(u.value)
    decreases n
  {
    if n > 0 {
      var v := UndoSession(s);
      if v.Ok? {
        UndoTimesSnoc(v.value, n - 1);
      }
    }
  }

  class GameController {
    const storage: StorageService
    /** The `Random` of the controller's `GameGenerator`. */
    const rng: Rng

    /** The constructor builds every collaborator afresh; the storage starts
        from what the folders hold. */
    constructor (storage: StorageService, rng: Rng)
      ensures this.storage == storage && this.rng == rng
    {
      this.storage := storage;
      this.rng := rng;
    }

    /** `getGame`: loads the level's game and makes it the current game. */
    method GetGame(level: Difficulty) returns (r: Result<Game>)
      modifies storage
      ensures level == Difficulty.INCOMPLETE && old(storage.current).None? ==> r == Err(NotFound)
      ensures level != Difficulty.INCOMPLETE && FirstSaved(old(storage.saved), level).None? ==> r == Err(NotFound)
      ensures level == Difficulty.INCOMPLETE && old(storage.current).Some? ==> ReadResult(r, old(storage.current).value)
      ensures level != Difficulty.INCOMPLETE && FirstSaved(old(storage.saved), level).Some? ==>
        ReadResult(r, FirstSaved(old(storage.saved), level).value)
      ensures r.Ok? ==> (fresh(r.value) && fresh(r.value.board) && r.value.difficulty == level
        && storage.current == Some(BoardText(Cells(r.value.board))))
      ensures r.Err? ==> storage.current == old(storage.current)
      ensures storage.log == old(storage.log) && storage.saved == old(storage.saved)
    {
      r := storage.LoadGame(level);
      if r.Ok? {
        storage.SaveCurrentGame(r.value);
      }
    }

    /** `driveGames`: a source that is not VALID throws
        SolutionInvalidException; otherwise the three generated games are
        saved, EASY, MEDIUM and then HARD. */
    method DriveGames(source: Game) returns (r: Result<()>)
      requires Is9x9(source.board)
      modifies storage, rng
      ensures r.Ok? <==> SsClassify(Cells(source.board)) == VALID
      ensures r.Err? ==> r == Err(SourceInvalid) && storage.saved == old(storage.saved) && rng.tape == old(rng.tape)
      ensures r.Ok? ==> var g := Cells(source.board); var t0 := old(rng.tape);
        storage.saved == old(storage.saved) + [
          Saved(EASY, BoardText(SsGameGenerator.LevelBoard(g, Drawn(Drawn(t0, 80), 80), 10))),
          Saved(MEDIUM, BoardText(SsGameGenerator.LevelBoard(g, Drawn(t0, 80), 20))),
          Saved(HARD, BoardText(SsGameGenerator.LevelBoard(g, t0, 25)))]
      ensures storage.current == old(storage.current) && storage.log == old(storage.log)
    {
      var ok := SsVerifier.VerifySourceSolution(source.board);
      if ok.Err? {
        return Err(SourceInvalid);
      }
      ghost var g, t0 := Cells(source.board), rng.tape;
      var games := SsGameGenerator.GenerateGames(source, rng);
      SaveLevels(games[EASY], games[MEDIUM], games[HARD]);
      assert Cells(source.board) == g;
      r := Ok(());
    }

    /** The three `saveGame` calls of `driveGames`. */
    method SaveLevels(easy: Game, medium: Game, hard: Game)
      requires Is9x9(easy.board) && Is9x9(medium.board) && Is9x9(hard.board)
      modifies storage
      ensures storage.saved == old(storage.saved) + [Saved(EASY, BoardText(Cells(easy.board))),
        Saved(MEDIUM, BoardText(Cells(medium.board))), Saved(HARD, BoardText(Cells(hard.board)))]
      ensures storage.current == old(storage.current) && storage.log == old(storage.log)
    {
      storage.SaveGame(EASY, easy);
      storage.SaveGame(MEDIUM, medium);
      storage.SaveGame(HARD, hard);
    }

    /** `verifyGame`: "VALID", "INCOMPLETE" or the list of clashing cells; a
        VALID board also deletes the current game with its log and, unless
        the game is the current one, the first saved game of its level. */
    method VerifyGame(game: Game) returns (s: string)
      requires Is9x9(game.board)
      modifies storage
      ensures s == SsVerifier.ReportText(Cells(game.board))
      ensures SsClassify(Cells(game.board)) != VALID ==>
        storage.current == old(storage.current) && storage.log == old(storage.log) && storage.saved == old(storage.saved)
      ensures SsClassify(Cells(game.board)) == VALID ==>
        storage.current.None? && storage.log.None?
        && storage.saved == if game.difficulty == Difficulty.INCOMPLETE then old(storage.saved) else DropFirst(old(storage.saved), game.difficulty)
    {
      var state := SsVerifier.Verify(game.board);
      if state == VALID {
        storage.DeleteCurrentGame();
        if game.difficulty != Difficulty.INCOMPLETE {
          storage.DeleteGameFromFolder(game.difficulty);
        }
        return "VALID";
      }
      if state == GameState.INCOMPLETE {
        return "INCOMPLETE";
      }
      s := SsVerifier.GetVerificationResult(game);
    }

    /** `solveGame`: the solver's answer. */
    method SolveGame(game: Game) returns (r: Result<array<int>>, ghost k: nat)
      requires Is9x9(game.board)
      ensures ZeroCount(Cells(game.board)) != 5 <==> r == Err(UnsupportedCellCount)
      ensures r.Ok? ==> ZeroCount(Cells(game.board)) == 5 && SsGameSolver.FirstPass(Cells(game.board), k) && r.value[..] == Odometer.Combo(k)
      ensures r.Err? && ZeroCount(Cells(game.board)) == 5 ==>
        r == Err(NoSolution) && forall j :: 0 <= j < Odometer.Total ==> !SsGameSolver.Passes(Cells(game.board), j)
    {
      r, k := SsGameSolver.Solve(game);
    }

    /** `logUserAction(String)`: parses the four numbers and logs the move
        they make, rendered afresh; a line that does not parse throws and
        logs nothing. */
    method LogUserAction(line: string) returns (r: Result<()>)
      modifies storage
      ensures r.Ok? <==> ParseAction(line).Ok?
      ensures r.Err? ==> r.error == ParseAction(line).error && storage.log == old(storage.log)
      ensures r.Ok? ==> storage.log == Some(LogLines(old(storage.log)) + [ActionText(ParseAction(line).value)])
      ensures storage.current == old(storage.current) && storage.saved == old(storage.saved)
    {
      var action := ParseAction(line);
      if action.Err? {
        return Err(action.error);
      }
      storage.LogUserAction(action.value);
      r := Ok(());
    }

    /** `processMove`: writes the value, logs the move with the overwritten
        value, and saves the board as the current game. A cell off the board
        throws before anything changes. */
    method ProcessMove(currentGame: Game, row: int, col: int, value: int) returns (r: Result<()>)
      requires Is9x9(currentGame.board) && Int32Board(Cells(currentGame.board)) && IsInt32(value)
      modifies storage, currentGame.board
      ensures r.Ok? <==> InBoard(row, col)
      ensures r.Err? ==> (r.error == OutOfBounds && Cells(currentGame.board) == old(Cells(currentGame.board))
        && storage.current == old(storage.current) && storage.log == old(storage.log))
      ensures r.Ok? ==>
        Session(Cells(currentGame.board), storage.log) == MoveSession(Session(old(Cells(currentGame.board)), old(storage.log)), Move(row, col, value))
      ensures r.Ok? ==> storage.current == Some(BoardText(Cells(currentGame.board)))
      ensures storage.saved == old(storage.saved)
    {
      if !InBoard(row, col) {
        return Err(OutOfBounds);
      }
      var previousValue := currentGame.SetCellValue(row, col, value);
      var action := UserAction(row, col, value, previousValue);
      ParseActionText(action);
      var logged := LogUserAction(ActionText(action));
      storage.SaveCurrentGame(currentGame);
      r := Ok(());
    }

    /** `undo`: the storage's undo of the last logged move. */
    method Undo(currentGame: Game) returns (r: Result<()>)
      requires Is9x9(currentGame.board)
      modifies storage, currentGame.board
      ensures var u := UndoSession(Session(old(Cells(currentGame.board)), old(storage.log)));
        (r.Err? <==> u.Err?) && (r.Err? ==> r.error == u.error)
        && (u.Ok? ==> Session(Cells(currentGame.board), storage.log) == u.value)
      ensures storage.saved == old(storage.saved)
    {
      r := storage.UndoLastMove(currentGame);
    }
  }
}
