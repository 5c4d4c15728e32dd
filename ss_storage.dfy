/** `StorageService` of sssoduku. The files it reads and writes are fields:
    `current/game.txt` as its text, `current/log.txt` as its lines, and the
    level folders as the list of saved games. The board codec is the
    digit-row text of `writeBoardToFile`/`readBoardFromFile`; the log holds
    one `UserAction` line per move and `undoLastMove` pops it. */
module SsStorage {
  import opened Base
  import opened Text
  import SsGame
  import opened SsUserAction

  // ----- the board text -----

  /** One row as `out.print(board[i][j])` writes it: the values back to back. */
  function RowText(row: seq<int>): string {
    if row == [] then "" else RowText(row[..|row| - 1]) + IntText(row[|row| - 1])
  }

  /** The nine row texts. */
  function BoardLines(g: Grid): (lines: seq<string>)
    requires IsGrid(g)
    ensures |lines| == 9
  {
    seq(9, i requires 0 <= i < 9 => RowText(g[i]))
  }

  /** What `writeBoardToFile` writes: every row followed by a line break. */
  function BoardText(g: Grid): string
    requires IsGrid(g)
  {
    LinesText(BoardLines(g))
  }

  /** What `readBoardFromFile` makes of a file: the numeric value of the first
      nine characters of each of the first nine trimmed lines. A missing line
      or a short line is an index out of bounds. */
  function ReadBoardText(text: string): (r: Result<Grid>)
    ensures r.Ok? ==> IsGrid(r.value)
  {
    var lines := Lines(text);
    if !LinesFit(lines) then Err(OutOfBounds) else Ok(ReadRows(lines))
  }

  /** Nine lines, each at least nine characters long once trimmed. */
  predicate LinesFit(lines: seq<string>) {
    |lines| >= 9 && forall i :: 0 <= i < 9 ==> |Trim(lines[i])| >= 9
  }

  /** The numeric values of the first nine characters of a line. */
  function RowValues(line: string): (row: seq<int>)
    requires |line| >= 9
    ensures |row| == 9 && forall j :: 0 <= j < 9 ==> row[j] == NumericValue(line[j])
  {
    seq(9, j requires 0 <= j < 9 => NumericValue(line[j]))
  }

  function ReadRows(lines: seq<string>): (g: Grid)
    requires LinesFit(lines)
    ensures IsGrid(g) && forall i :: 0 <= i < 9 ==> g[i] == RowValues(Trim(lines[i]))
  {
    seq(9, i requires 0 <= i < 9 => RowValues(Trim(lines[i])))
  }

  predicate DigitRow(row: seq<int>) {
    forall j :: 0 <= j < |row| ==> 0 <= row[j] <= 9
  }

  /** A row of values 0..9 is written one character per value. */
  lemma {:induction false} RowTextDigits(row: seq<int>)
    requires DigitRow(row)
    ensures |RowText(row)| == |row|
    ensures forall j :: 0 <= j < |row| ==> RowText(row)[j] == DigitChar(row[j])
  {
    if row != [] {
      var n := |row| - 1;
      RowTextDigits(row[..n]);
    }
  }

  /** A row of values 0..9 reads back as itself. */
  lemma RowRoundTrip(row: seq<int>)
    requires |row| == 9 && DigitRow(row)
    ensures var t := RowText(row); |t| == 9 && Avoids(t, {'\n'}) && Trim(t) == t
    ensures RowValues(Trim(RowText(row))) == row
  {
    RowTextDigits(row);
    forall j | 0 <= j < 9
      ensures NumericValue(RowText(row)[j]) == row[j]
    {
      NumericValueDigit(row[j]);
    }
  }

  /** Writing a board of values 0..9 and reading the text back gives the
      board: the codec round trip. */
  lemma BoardRoundTrip(g: Grid)
    requires IsGrid(g) && forall i :: 0 <= i < 9 ==> DigitRow(g[i])
    ensures ReadBoardText(BoardText(g)) == Ok(g)
  {
    var lines := BoardLines(g);
    LinesBack(g);
    assert LinesFit(lines);
    assert ReadRows(lines) == g;
  }

  /** The lines of the text are the row texts, each nine characters that
      read back as the row. */
  lemma LinesBack(g: Grid)
    requires IsGrid(g) && forall i :: 0 <= i < 9 ==> DigitRow(g[i])
    ensures Lines(BoardText(g)) == BoardLines(g)
    ensures forall i :: 0 <= i < 9 ==> (|Trim(BoardLines(g)[i])| == 9 && RowValues(Trim(BoardLines(g)[i])) == g[i])
  {
    var lines := BoardLines(g);
    forall i | 0 <= i < 9
      ensures Avoids(lines[i], {'\n'}) && |Trim(lines[i])| == 9
      ensures RowValues(Trim(lines[i])) == g[i]
    {
      RowRoundTrip(g[i]);
    }
    LinesRoundTrip(lines);
  }

  /** One more value on the row being written. */
  lemma RowTextStep(row: seq<int>, j: int)
    requires 0 <= j < |row|
    ensures RowText(row[..j + 1]) == RowText(row[..j]) + IntText(row[j])
  {
    assert row[..j + 1][..j] == row[..j];
  }

  lemma {:induction false} LinesTextSnoc(lines: seq<string>, line: string)
    ensures LinesText(lines + [line]) == LinesText(lines) + line + "\n"
  {
    if lines != [] {
      assert (lines + [line])[1..] == lines[1..] + [line];
      LinesTextSnoc(lines[1..], line);
    } else {
      assert [line][1..] == [];
    }
  }

  /** The end of a row is the end of a line. */
  lemma RowDone(g: Grid, i: int)
    requires IsGrid(g) && 0 <= i < 9
    ensures LinesText(BoardLines(g)[..i + 1]) == LinesText(BoardLines(g)[..i]) + RowText(g[i]) + "\n"
  {
    assert BoardLines(g)[..i + 1] == BoardLines(g)[..i] + [RowText(g[i])];
    LinesTextSnoc(BoardLines(g)[..i], RowText(g[i]));
  }

  /** `writeBoardToFile`: the text it prints, row by row. */
  method WriteBoardToFile(board: array2<int>) returns (text: string)
    requires Is9x9(board)
    ensures text == BoardText(Cells(board))
  {
    ghost var g := Cells(board);
    text := "";
    var i := 0;
    assert BoardLines(g)[..0] == [];
    while i < 9
      invariant 0 <= i <= 9
      invariant text == LinesText(BoardLines(g)[..i])
    {
      var row := PrintRow(board, i);
      RowDone(g, i);
      text := text + row + "\n";
      i := i + 1;
    }
    assert BoardLines(g)[..9] == BoardLines(g);
  }

  /** The `out.print(board[i][j])` loop of one row. */
  method PrintRow(board: array2<int>, i: int) returns (row: string)
    requires Is9x9(board) && 0 <= i < 9
    ensures row == RowText(Cells(board)[i])
  {
    ghost var cells := Cells(board)[i];
    row := "";
    assert cells[..0] == [];
    var j := 0;
    while j < 9
      invariant 0 <= j <= 9
      invariant row == RowText(cells[..j])
    {
      RowTextStep(cells, j);
      row := row + IntText(board[i, j]);
      j := j + 1;
    }
    assert cells[..9] == cells;
  }

  /** `readBoardFromFile`: a fresh `new int[9][9]` filled from the text, row
      by row; the first missing line or short line throws. */
  method ReadBoardFromFile(text: string) returns (r: Result<array2<int>>)
    ensures r.Err? <==> ReadBoardText(text).Err?
    ensures r.Err? ==> r.error == OutOfBounds
    ensures r.Ok? ==> fresh(r.value) && Is9x9(r.value) && Cells(r.value) == ReadBoardText(text).value
  {
    var board := new int[9, 9];
    var lines := Lines(text);
    var i := 0;
    while i < 9
      invariant 0 <= i <= 9 && RowsDone(board, lines, i)
    {
      if i >= |lines| {
        return Err(OutOfBounds);
      }
      var line := Trim(lines[i]);
      if |line| < 9 {
        return Err(OutOfBounds);
      }
      ReadRow(board, i, line, lines);
      i := i + 1;
    }
    RowsRead(board, lines);
    r := Ok(board);
  }

  /** The first i lines fit and rows 0..i-1 of the board hold their values. */
  ghost predicate RowsDone(board: array2<int>, lines: seq<string>, i: int)
    reads board
  {
    Is9x9(board) && 0 <= i <= 9 && i <= |lines|
    && (forall k :: 0 <= k < i ==> |Trim(lines[k])| >= 9)
    && forall k, j :: 0 <= k < i && 0 <= j < 9 ==> board[k, j] == NumericValue(Trim(lines[k])[j])
  }

  /** Rows filled from fitting lines are the board `ReadRows` describes. */
  lemma RowsRead(board: array2<int>, lines: seq<string>)
    requires RowsDone(board, lines, 9)
    ensures LinesFit(lines) && Cells(board) == ReadRows(lines)
  {
    forall k | 0 <= k < 9
      ensures Cells(board)[k] == ReadRows(lines)[k]
    {
    }
  }

  /** `board[i][j] = Character.getNumericValue(line.charAt(j))` for j < 9,
      line being trimmed line i; the other rows are left alone. */
  method ReadRow(board: array2<int>, i: int, line: string, ghost lines: seq<string>)
    requires RowsDone(board, lines, i) && i < 9 && i < |lines| && line == Trim(lines[i]) && |line| >= 9
    modifies board
    ensures RowsDone(board, lines, i + 1)
    ensures forall c :: 0 <= c < 9 ==> board[i, c] == NumericValue(line[c])
    ensures forall k, c :: 0 <= k < 9 && k != i && 0 <= c < 9 ==> board[k, c] == old(board[k, c])
  {
    var j := 0;
    while j < 9
      invariant 0 <= j <= 9
      invariant forall c :: 0 <= c < j ==> board[i, c] == NumericValue(line[c])
      invariant forall k, c :: 0 <= k < 9 && k != i && 0 <= c < 9 ==> board[k, c] == old(board[k, c])
    {
      board[i, j] := NumericValue(line[j]);
      j := j + 1;
    }
  }

  // ----- the move log and undo -----

  /** The lines of the log file; an absent file reads as no lines. */
  function LogLines(log: Option<seq<string>>): seq<string> {
    if log.Some? then log.value else []
  }

  /** The state `undoLastMove` works on: the board and the log file. */
  datatype Session = Session(board: Grid, log: Option<seq<string>>)

  /** `undoLastMove` on the state: nothing when the log is absent or empty;
      otherwise the last line is parsed, the cell it names is set back to its
      previous value and the line is dropped. A line that does not parse, or a
      cell off the board, throws before anything is written. */
  function UndoSession(s: Session): (r: Result<Session>)
    requires IsGrid(s.board)
    ensures r.Ok? ==> IsGrid(r.value.board)
  {
    if s.log.None? || s.log.value == [] then Ok(s)
    else
      var lines := s.log.value;
      var u := UndoFields(lines[|lines| - 1]);
      if u.Err? then Err(u.error)
      else if !InBoard(u.value.x, u.value.y) then Err(OutOfBounds)
      else Ok(Session(Put(s.board, u.value.x, u.value.y, u.value.prev), Some(lines[..|lines| - 1])))
  }

  /** A successful undo drops exactly the last line, keeps the others in
      order, and changes at most the one cell that line names, to its previous
      value. */
  lemma UndoPops(s: Session)
    requires IsGrid(s.board) && UndoSession(s).Ok? && LogLines(s.log) != []
    ensures var t := UndoSession(s).value; var lines := LogLines(s.log);
      LogLines(t.log) + [lines[|lines| - 1]] == lines
      && var u := UndoFields(lines[|lines| - 1]).value;
      InBoard(u.x, u.y) && t.board[u.x][u.y] == u.prev
      && forall r, c :: InBoard(r, c) && (r, c) != (u.x, u.y) ==> t.board[r][c] == s.board[r][c]
  {
    var lines := LogLines(s.log);
    assert lines[..|lines| - 1] + [lines[|lines| - 1]] == lines;
  }

  /** One saved game of a level folder. */
  datatype Saved = Saved(level: SsGame.Difficulty, text: string)

  /** The first saved game of a level, if any. */
  function FirstSaved(saved: seq<Saved>, level: SsGame.Difficulty): (r: Option<string>)
    ensures r.None? <==> forall k :: 0 <= k < |saved| ==> saved[k].level != level
    ensures r.Some? ==> exists k :: (0 <= k < |saved| && saved[k] == Saved(level, r.value)
      && forall k2 :: 0 <= k2 < k ==> saved[k2].level != level)
  {
    if saved == [] then None
    else if saved[0].level == level then Some(saved[0].text)
    else
      var r := FirstSaved(saved[1..], level);
      if r.Some? then
        var k :| 0 <= k < |saved[1..]| && saved[1..][k] == Saved(level, r.value)
          && forall k2 :: 0 <= k2 < k ==> saved[1..][k2].level != level;
        assert saved[k + 1] == Saved(level, r.value);
        r
      else r
  }

  /** The saved games without the first one of a level. */
  function DropFirst(saved: seq<Saved>, level: SsGame.Difficulty): (rest: seq<Saved>)
    ensures FirstSaved(saved, level).None? ==> rest == saved
    ensures FirstSaved(saved, level).Some? ==> |rest| == |saved| - 1
  {
    if saved == [] then []
    else if saved[0].level == level then saved[1..]
    else [saved[0]] + DropFirst(saved[1..], level)
  }

  class StorageService {
    /** `current/game.txt`, absent or its text. */
    var current: Option<string>
    /** `current/log.txt`, absent or its lines. */
    var log: Option<seq<string>>
    /** The `.txt` files of the easy, medium and hard folders, oldest first. */
    var saved: seq<Saved>

    /** The directories are created; the files already there are kept. */
    constructor (current: Option<string>, log: Option<seq<string>>, saved: seq<Saved>)
      ensures this.current == current && this.log == log && this.saved == saved
    {
      this.current := current;
      this.log := log;
      this.saved := saved;
    }

    /** `saveGame`: a new file in the level's folder. */
    method SaveGame(level: SsGame.Difficulty, game: SsGame.Game)
      requires Is9x9(game.board)
      modifies this
      ensures saved == old(saved) + [Saved(level, BoardText(Cells(game.board)))]
      ensures current == old(current) && log == old(log)
    {
      var text := WriteBoardToFile(game.board);
      saved := saved + [Saved(level, text)];
    }

    /** `saveCurrentGame`: overwrites `current/game.txt`. */
    method SaveCurrentGame(game: SsGame.Game)
      requires Is9x9(game.board)
      modifies this
      ensures current == Some(BoardText(Cells(game.board)))
      ensures log == old(log) && saved == old(saved)
    {
      var text := WriteBoardToFile(game.board);
      current := Some(text);
    }

    /** `loadGame`: INCOMPLETE reads the current game; any other level reads
        the first saved game of that level, or throws NotFoundException. */
    method LoadGame(level: SsGame.Difficulty) returns (r: Result<SsGame.Game>)
      ensures level == SsGame.INCOMPLETE && current.None? ==> r == Err(NotFound)
      ensures level != SsGame.INCOMPLETE && FirstSaved(saved, level).None? ==> r == Err(NotFound)
      ensures level == SsGame.INCOMPLETE && current.Some? ==> ReadResult(r, current.value)
      ensures level != SsGame.INCOMPLETE && FirstSaved(saved, level).Some? ==>
        ReadResult(r, FirstSaved(saved, level).value)
      ensures r.Ok? ==> fresh(r.value) && fresh(r.value.board) && r.value.difficulty == level
    {
      if level == SsGame.INCOMPLETE {
        r := LoadCurrentGame();
        return;
      }
      var text := FirstSaved(saved, level);
      if text.None? {
        return Err(NotFound);
      }
      var board := ReadBoardFromFile(text.value);
      if board.Err? {
        return Err(board.error);
      }
      var game := new SsGame.Game(board.value, level);
      r := Ok(game);
    }

    /** `loadCurrentGame`: the current game, its level INCOMPLETE. */
    method LoadCurrentGame() returns (r: Result<SsGame.Game>)
      ensures current.None? ==> r == Err(NotFound)
      ensures current.Some? ==> ReadResult(r, current.value)
      ensures r.Ok? ==> fresh(r.value) && fresh(r.value.board) && r.value.difficulty == SsGame.INCOMPLETE
    {
      if current.None? {
        return Err(NotFound);
      }
      var board := ReadBoardFromFile(current.value);
      if board.Err? {
        return Err(board.error);
      }
      var game := new SsGame.Game(board.value, SsGame.INCOMPLETE);
      r := Ok(game);
    }

    /** `logUserAction`: appends the action's line, creating the file. */
    method LogUserAction(action: UserAction)
      modifies this
      ensures log == Some(LogLines(old(log)) + [ActionText(action)])
      ensures current == old(current) && saved == old(saved)
    {
      log := Some(LogLines(log) + [ActionText(action)]);
    }

    /** `undoLastMove`: pops the last log line back into the game, rewrites
        the log, and saves the game as the current one; see `UndoSession`. */
    method UndoLastMove(currentGame: SsGame.Game) returns (r: Result<()>)
      requires Is9x9(currentGame.board)
      modifies this, currentGame.board
      ensures var u := UndoSession(Session(old(Cells(currentGame.board)), old(log)));
        (r.Err? <==> u.Err?) && (r.Err? ==> r.error == u.error)
        && (u.Ok? ==> Session(Cells(currentGame.board), log) == u.value)
      ensures r.Err? || LogLines(old(log)) == [] ==>
        Cells(currentGame.board) == old(Cells(currentGame.board)) && log == old(log) && current == old(current)
      ensures r.Ok? && LogLines(old(log)) != [] ==> current == Some(BoardText(Cells(currentGame.board)))
      ensures saved == old(saved)
    {
      if log.None? {
        return Ok(());
      }
      var lines := log.value;
      if lines == [] {
        return Ok(());
      }
      var lastLine := lines[|lines| - 1];
      var rest := lines[..|lines| - 1];
      var u := UndoFields(lastLine);
      if u.Err? {
        return Err(u.error);
      }
      if !InBoard(u.value.x, u.value.y) {
        return Err(OutOfBounds);
      }
      var previous := currentGame.SetCellValue(u.value.x, u.value.y, u.value.prev);
      log := Some(rest);
      SaveCurrentGame(currentGame);
      r := Ok(());
    }

    /** `deleteGameFromFolder`: the level's first saved game is removed. */
    method DeleteGameFromFolder(level: SsGame.Difficulty)
      modifies this
      ensures saved == DropFirst(old(saved), level)
      ensures current == old(current) && log == old(log)
    {
      saved := DropFirst(saved, level);
    }

    /** `deleteCurrentGame`: the current game and its log are gone. */
    method DeleteCurrentGame()
      modifies this
      ensures current.None? && log.None? && saved == old(saved)
    {
      current := None;
      log := None;
    }
  }

  /** The outcome of reading a file into a game: the read error, or a game
      whose board is what the text holds. */
  ghost predicate ReadResult(r: Result<SsGame.Game>, text: string)
    reads if r.Ok? then {r.value.board} else {}
  {
    (r.Err? <==> ReadBoardText(text).Err?)
    && (r.Err? ==> r.error == OutOfBounds)
    && (r.Ok? ==> Is9x9(r.value.board) && Cells(r.value.board) == ReadBoardText(text).value)
  }
}
