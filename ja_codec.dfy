/** The save-file text of JavaApplication31's `Controller`: a board as nine
    lines of space-separated numbers (`boardToString`, `parseBoard`), the
    given-cell mask as nine lines of 1s and 0s (`originalToString`,
    `parseOriginal`), and the five-section record `saveGame` writes and
    `loadGame` reads back. The file itself is its list of lines. */
module JaControllerText {
  import opened Base
  import opened Text

  // ----- boards and masks -----

  /** The numbers of one row, each as `StringBuilder.append(int)` renders it. */
  function NumberTexts(row: seq<int>): (parts: seq<string>)
    ensures |parts| == |row| && forall j :: 0 <= j < |row| ==> parts[j] == IntText(row[j])
  {
    seq(|row|, j requires 0 <= j < |row| => IntText(row[j]))
  }

  /** One line of `boardToString`: the numbers with a ' ' before all but the
      first. */
  function RowLine(row: seq<int>): string {
    Join(NumberTexts(row), ' ')
  }

  function BoardLines(g: Grid): (lines: seq<string>)
    requires IsGrid(g)
    ensures |lines| == 9 && forall i :: 0 <= i < 9 ==> lines[i] == RowLine(g[i])
  {
    seq(9, i requires 0 <= i < 9 => RowLine(g[i]))
  }

  /** `boardToString`: every row line ended by '\n'. */
  function BoardToString(g: Grid): string
    requires IsGrid(g)
  {
    LinesText(BoardLines(g))
  }

  /** The mask as the numbers `originalToString` appends: 1 for a given
      cell, 0 for a cell the player fills. */
  function Bits(m: Mask): (g: Grid)
    requires IsGrid(m)
    ensures IsGrid(g) && forall r, c :: InBoard(r, c) ==> g[r][c] == (if m[r][c] then 1 else 0)
  {
    seq(9, r requires 0 <= r < 9 => seq(9, c requires 0 <= c < 9 => if m[r][c] then 1 else 0))
  }

  /** `originalToString`: the layout of `boardToString` over the 1/0 board. */
  function OriginalToString(m: Mask): string
    requires IsGrid(m)
  {
    BoardToString(Bits(m))
  }

  /** `parts[j]` for j < n, each through `Integer.parseInt`, the first
      failure in order deciding the exception: a missing piece is an
      ArrayIndexOutOfBoundsException, a bad one a NumberFormatException.
      Pieces past the n-th are never looked at. */
  function ParseCells(parts: seq<string>, n: nat): (r: Result<seq<int>>)
    ensures r.Ok? ==> |r.value| == n
  {
    if n == 0 then Ok([])
    else
      var init := ParseCells(parts, n - 1);
      if init.Err? then init
      else if n - 1 >= |parts| then Err(OutOfBounds)
      else
        var v := ParseInt(parts[n - 1]);
        if v.Err? then Err(v.error) else Ok(init.value + [v.value])
  }

  /** Rows `start` .. `start + n - 1` of the file, each through `ParseCells`
      of its tokens; a line past the end of the file is an
      IndexOutOfBoundsException. */
  function ParseRows(lines: seq<string>, start: nat, n: nat): (r: Result<Grid>)
    ensures r.Ok? ==> |r.value| == n && forall i :: 0 <= i < n ==> |r.value[i]| == 9
  {
    if n == 0 then Ok([])
    else
      var init := ParseRows(lines, start, n - 1);
      if init.Err? then init
      else if start + n - 1 >= |lines| then Err(OutOfBounds)
      else
        var row := ParseCells(Tokens(lines[start + n - 1]), 9);
        if row.Err? then Err(row.error) else Ok(init.value + [row.value])
  }

  /** `parseBoard(lines, startIndex)`. */
  function ParseBoard(lines: seq<string>, start: nat): (r: Result<Grid>)
    ensures r.Ok? ==> IsGrid(r.value)
  {
    ParseRows(lines, start, 9)
  }

  /** The cells of a board that are not 0. */
  function NonZero(g: Grid): (m: Mask)
    requires IsGrid(g)
    ensures IsGrid(m) && forall r, c :: InBoard(r, c) ==> (m[r][c] <==> g[r][c] != 0)
  {
    seq(9, r requires 0 <= r < 9 => seq(9, c requires 0 <= c < 9 => g[r][c] != 0))
  }

  /** `parseOriginal`: `parseBoard`'s reading, then `!= 0` per cell. */
  function ParseOriginal(lines: seq<string>, start: nat): (r: Result<Mask>)
    ensures r.Ok? ==> IsGrid(r.value)
  {
    var b := ParseBoard(lines, start);
    if b.Err? then Err(b.error) else Ok(NonZero(b.value))
  }

  predicate Int32Grid(g: Grid)
    requires IsGrid(g)
  {
    forall r, c :: 0 <= r < 9 && 0 <= c < 9 ==> IsInt32(g[r][c])
  }

  /** A rendered number is a nonempty run of characters above ' '. */
  lemma NumberPlain(n: int)
    ensures IntText(n) != [] && forall i :: 0 <= i < |IntText(n)| ==> IntText(n)[i] > ' '
  {
    IntTextChars(n);
  }

  /** A row line splits back into the row's numbers. */
  lemma RowTokens(row: seq<int>)
    requires |row| >= 1
    ensures Tokens(RowLine(row)) == NumberTexts(row)
  {
    var parts := NumberTexts(row);
    forall k | 0 <= k < |parts|
      ensures parts[k] != [] && forall i :: 0 <= i < |parts[k]| ==> parts[k][i] > ' '
    {
      NumberPlain(row[k]);
    }
    TokensJoin(parts);
  }

  /** The first n rendered numbers of a row parse back to those numbers. */
  lemma ParseCellsText(row: seq<int>, n: nat)
    requires n <= |row| && forall j :: 0 <= j < |row| ==> IsInt32(row[j])
    ensures ParseCells(NumberTexts(row), n) == Ok(row[..n])
  {
    var parts := NumberTexts(row);
    forall j | 0 <= j < n
      ensures ParseInt(parts[j]) == Ok(row[j])
    {
      ParseIntText(row[j]);
    }
    ParseCellsOk(parts, row, n);
  }

  /** Pieces that each parse to the matching number parse together to those
      numbers. */
  lemma {:induction false} ParseCellsOk(parts: seq<string>, row: seq<int>, n: nat)
    requires n <= |parts| && n <= |row| && forall j :: 0 <= j < n ==> ParseInt(parts[j]) == Ok(row[j])
    ensures ParseCells(parts, n) == Ok(row[..n])
  {
    if n > 0 {
      ParseCellsOk(parts, row, n - 1);
      TakeSnoc(row, n);
    }
  }

  /** A row line of a Java `int` row reads back as the row. */
  lemma RowBack(row: seq<int>)
    requires |row| == 9 && forall j :: 0 <= j < 9 ==> IsInt32(row[j])
    ensures ParseCells(Tokens(RowLine(row)), 9) == Ok(row)
  {
    RowTokens(row);
    ParseCellsText(row, 9);
    assert row[..9] == row;
  }

  /** Lines `start` .. `start + 8` holding the rows of g read back as the
      first n rows of g. */
  lemma {:induction false} ParseRowsText(lines: seq<string>, start: nat, g: Grid, n: nat)
    requires IsGrid(g) && Int32Grid(g) && n <= 9
    requires start + 9 <= |lines| && forall i :: 0 <= i < 9 ==> lines[start + i] == RowLine(g[i])
    ensures ParseRows(lines, start, n) == Ok(g[..n])
  {
    if n > 0 {
      ParseRowsText(lines, start, g, n - 1);
      RowBack(g[n - 1]);
      assert lines[start + (n - 1)] == RowLine(g[n - 1]);
      TakeSnoc(g, n);
    }
  }

  /** `parseBoard` finds a board written by `boardToString` wherever its nine
      lines sit in the file. */
  lemma ParseBoardAt(lines: seq<string>, start: nat, g: Grid)
    requires IsGrid(g) && Int32Grid(g)
    requires start + 9 <= |lines| && lines[start..start + 9] == BoardLines(g)
    ensures ParseBoard(lines, start) == Ok(g)
  {
    forall i | 0 <= i < 9
      ensures lines[start + i] == RowLine(g[i])
    {
      assert lines[start + i] == lines[start..start + 9][i];
    }
    ParseRowsText(lines, start, g, 9);
    assert g[..9] == g;
  }

  /** No row line holds a line break. */
  lemma BoardLinesPlain(g: Grid)
    requires IsGrid(g)
    ensures forall i :: 0 <= i < 9 ==> Avoids(BoardLines(g)[i], {'\n'})
  {
    forall i | 0 <= i < 9
      ensures Avoids(BoardLines(g)[i], {'\n'})
    {
      var parts := NumberTexts(g[i]);
      forall k | 0 <= k < |parts|
        ensures Avoids(parts[k], {'\n'})
      {
        NumberPlain(g[i][k]);
      }
      JoinAvoids(parts, ' ', {'\n'});
    }
  }

  /** `parseBoard(boardToString(b)) == b` for every board of Java `int`s. */
  lemma BoardRoundTrip(g: Grid)
    requires IsGrid(g) && Int32Grid(g)
    ensures ParseBoard(Lines(BoardToString(g)), 0) == Ok(g)
  {
    BoardLinesPlain(g);
    LinesRoundTrip(BoardLines(g));
    assert BoardLines(g)[0..9] == BoardLines(g);
    ParseBoardAt(BoardLines(g), 0, g);
  }

  /** Reading the 1/0 board back as a mask gives the mask. */
  lemma NonZeroBits(m: Mask)
    requires IsGrid(m)
    ensures NonZero(Bits(m)) == m
  {
    forall r | 0 <= r < 9
      ensures NonZero(Bits(m))[r] == m[r]
    {
    }
  }

  /** `parseOriginal(originalToString(m)) == m` for every mask. */
  lemma OriginalRoundTrip(m: Mask)
    requires IsGrid(m)
    ensures ParseOriginal(Lines(OriginalToString(m)), 0) == Ok(m)
  {
    BoardRoundTrip(Bits(m));
    NonZeroBits(m);
  }

  // ----- the level files -----

  /** `readBoard`: the file's text cut at line breaks by `split`, its first
      nine lines read as `parseBoard` reads them; a file of fewer than nine
      lines has no line to read. `writeBoard` writes `BoardToString`. */
  function ReadBoard(content: string): (r: Result<Grid>)
    ensures r.Ok? ==> IsGrid(r.value)
  {
    ParseBoard(Split(content, '\n'), 0)
  }

  /** `readBoard` of a file `writeBoard` wrote gives the board back. */
  lemma WriteRead(g: Grid)
    requires IsGrid(g) && Int32Grid(g)
    ensures ReadBoard(BoardToString(g)) == Ok(g)
  {
    var lines := BoardLines(g);
    BoardLinesPlain(g);
    NumberPlain(g[8][0]);
    NumberPlain(g[8][8]);
    JoinEnds(NumberTexts(g[8]), ' ');
    assert lines[8] != "";
    SplitLinesText(lines);
    assert lines[0..9] == lines;
    ParseBoardAt(lines, 0, g);
  }

  // ----- the save record -----

  /** What `saveGame` writes and `loadGame` restores: the fault counter, the
      source path (null as None), the board in play, its solution and the
      given-cell mask. */
  datatype SaveRecord = SaveRecord(faults: int, source: Option<string>, current: Grid, solution: Grid, original: Mask)

  predicate Complete(rec: SaveRecord) {
    IsGrid(rec.current) && IsGrid(rec.solution) && IsGrid(rec.original)
  }

  const FaultsTag: string := "faults "
  const SourceTag: string := "source "
  const CurrentHeader: string := "current"
  const SolutionHeader: string := "solution"
  const OriginalHeader: string := "original"

  /** A null path is written as "". */
  function SourceText(source: Option<string>): string {
    if source.Some? then source.value else ""
  }

  /** A line and the '\n' that ends it. */
  function Line(s: string): string {
    s + "\n"
  }

  /** The text `saveGame` builds, append by append. */
  function SaveText(rec: SaveRecord): string
    requires Complete(rec)
  {
    Line(FaultsTag + IntText(rec.faults))
      + Line(SourceTag + SourceText(rec.source))
      + Line(CurrentHeader) + BoardToString(rec.current)
      + Line(SolutionHeader) + BoardToString(rec.solution)
      + Line(OriginalHeader) + OriginalToString(rec.original)
  }

  /** A section: its header line, then the nine lines of a board. */
  function Section(header: string, g: Grid): (lines: seq<string>)
    requires IsGrid(g)
    ensures |lines| == 10
  {
    [header] + BoardLines(g)
  }

  /** The same text as a list of 32 lines. */
  function RecordLines(rec: SaveRecord): (lines: seq<string>)
    requires Complete(rec)
    ensures |lines| == 32
  {
    [FaultsTag + IntText(rec.faults), SourceTag + SourceText(rec.source)]
      + Section(CurrentHeader, rec.current) + Section(SolutionHeader, rec.solution) + Section(OriginalHeader, Bits(rec.original))
  }

  /** `startsWith`. */
  predicate StartsWith(s: string, prefix: string) {
    |prefix| <= |s| && s[..|prefix|] == prefix
  }

  /** Line 0: "faults " and a number, read with `substring(7).trim()`; an
      empty file and a wrong first line are "Invalid save file". */
  function FaultsField(lines: seq<string>): Result<int> {
    if |lines| < 1 || !StartsWith(lines[0], FaultsTag) then Err(InvalidSave)
    else ParseInt(Trim(lines[0][|FaultsTag|..]))
  }

  /** Line 1: "source " and the path; a blank path is null. */
  function SourceField(lines: seq<string>): Result<Option<string>> {
    if |lines| < 2 then Err(OutOfBounds)
    else if !StartsWith(lines[1], SourceTag) then Err(InvalidSave)
    else
      var path := lines[1][|SourceTag|..];
      Ok(if IsBlank(path) then None else Some(path))
  }

  /** A header line that must trim to `name`, the nine board lines after it
      read by `parseBoard`. */
  function BoardSection(lines: seq<string>, at: nat, name: string): Result<Grid> {
    if at >= |lines| then Err(OutOfBounds)
    else if Trim(lines[at]) != name then Err(InvalidSave)
    else ParseBoard(lines, at + 1)
  }

  /** The "original" header and the mask after it, read by `parseOriginal`. */
  function MaskSection(lines: seq<string>, at: nat): Result<Mask> {
    if at >= |lines| then Err(OutOfBounds)
    else if Trim(lines[at]) != OriginalHeader then Err(InvalidSave)
    else ParseOriginal(lines, at + 1)
  }

  /** `loadGame`'s reading of the file, its checks in the order it makes
      them; the first one that fails is the exception thrown. */
  function LoadRecord(lines: seq<string>): (r: Result<SaveRecord>)
    ensures r.Ok? ==> Complete(r.value)
  {
    var faults := FaultsField(lines);
    if faults.Err? then Err(faults.error) else
    var source := SourceField(lines);
    if source.Err? then Err(source.error) else
    var current := BoardSection(lines, 2, CurrentHeader);
    if current.Err? then Err(current.error) else
    var solution := BoardSection(lines, 12, SolutionHeader);
    if solution.Err? then Err(solution.error) else
    var original := MaskSection(lines, 22);
    if original.Err? then Err(original.error) else
    Ok(SaveRecord(faults.value, source.value, current.value, solution.value, original.value))
  }

  /** What a save followed by a load leaves of the path: a blank one is null. */
  function Reloaded(source: Option<string>): Option<string> {
    if source.Some? && !IsBlank(source.value) then source else None
  }

  /** A list of lines with one line in front. */
  lemma LinesTextCons(line: string, rest: seq<string>)
    ensures LinesText([line] + rest) == Line(line) + LinesText(rest)
  {
    assert ([line] + rest)[1..] == rest;
  }

  lemma {:induction false} LinesTextAppend(a: seq<string>, b: seq<string>)
    ensures LinesText(a + b) == LinesText(a) + LinesText(b)
  {
    if a != [] {
      LinesTextAppend(a[1..], b);
      assert (a + b)[0] == a[0];
      assert (a + b)[1..] == a[1..] + b;
      assert a + b != [];
      calc {
        LinesText(a + b);
        a[0] + "\n" + LinesText(a[1..] + b);
        a[0] + "\n" + (LinesText(a[1..]) + LinesText(b));
        (a[0] + "\n" + LinesText(a[1..])) + LinesText(b);
        LinesText(a) + LinesText(b);
      }
    } else {
      assert a + b == b;
    }
  }

  /** `saveGame`'s appends produce exactly the 32 record lines, each ended by
      '\n'. */
  lemma SaveTextLines(rec: SaveRecord)
    requires Complete(rec)
    ensures SaveText(rec) == LinesText(RecordLines(rec))
  {
    var l0, l1 := FaultsTag + IntText(rec.faults), SourceTag + SourceText(rec.source);
    Layout(l0, l1, CurrentHeader, BoardLines(rec.current), SolutionHeader, BoardLines(rec.solution),
      OriginalHeader, BoardLines(Bits(rec.original)));
  }

  /** The layout of the record on any lines, headers and boards. */
  lemma Layout(l0: string, l1: string, h1: string, c: seq<string>, h2: string, s: seq<string>, h3: string, o: seq<string>)
    ensures Line(l0) + Line(l1) + Line(h1) + LinesText(c) + Line(h2) + LinesText(s) + Line(h3) + LinesText(o)
      == LinesText([l0, l1] + ([h1] + c) + ([h2] + s) + ([h3] + o))
  {
    LinesTextCons(h1, c);
    LinesTextCons(h2, s);
    LinesTextCons(h3, o);
    LinesTextAppend([l0, l1] + ([h1] + c) + ([h2] + s), [h3] + o);
    LinesTextAppend([l0, l1] + ([h1] + c), [h2] + s);
    LinesTextAppend([l0, l1], [h1] + c);
    LinesTextCons(l0, [l1]);
    LinesTextCons(l1, []);
  }

  /** The record lines hold no line break when the path holds none. */
  lemma RecordLinesPlain(rec: SaveRecord)
    requires Complete(rec) && Avoids(SourceText(rec.source), {'\n'})
    ensures forall k :: 0 <= k < 32 ==> Avoids(RecordLines(rec)[k], {'\n'})
  {
    var lines := RecordLines(rec);
    NumberPlain(rec.faults);
    BoardLinesPlain(rec.current);
    BoardLinesPlain(rec.solution);
    BoardLinesPlain(Bits(rec.original));
    forall k | 0 <= k < 32
      ensures Avoids(lines[k], {'\n'})
    {
      if k == 0 {
        assert lines[0] == FaultsTag + IntText(rec.faults);
      } else if k == 1 {
        assert lines[1] == SourceTag + SourceText(rec.source);
      } else if k < 12 {
        assert lines[k] == Section(CurrentHeader, rec.current)[k - 2];
      } else if k < 22 {
        assert lines[k] == Section(SolutionHeader, rec.solution)[k - 12];
      } else {
        assert lines[k] == Section(OriginalHeader, Bits(rec.original))[k - 22];
      }
    }
  }

  /** A prefix followed by anything starts with the prefix and leaves the
      rest after it. */
  lemma PrefixCut(prefix: string, rest: string)
    ensures StartsWith(prefix + rest, prefix) && (prefix + rest)[|prefix|..] == rest
  {
    assert (prefix + rest)[..|prefix|] == prefix;
  }

  /** `trim` leaves a string that starts and ends above ' '. */
  lemma TrimPlain(s: string)
    requires s != [] && s[0] > ' ' && s[|s| - 1] > ' '
    ensures Trim(s) == s
  {
  }

  /** A board section of the record lines reads back as its board. */
  lemma SectionBack(lines: seq<string>, at: nat, name: string, g: Grid)
    requires IsGrid(g) && Int32Grid(g) && name != [] && name[0] > ' ' && name[|name| - 1] > ' '
    requires at + 10 <= |lines| && lines[at..at + 10] == Section(name, g)
    ensures BoardSection(lines, at, name) == Ok(g)
  {
    assert lines[at] == lines[at..at + 10][0];
    TrimPlain(name);
    assert lines[at + 1..at + 10] == lines[at..at + 10][1..];
    ParseBoardAt(lines, at + 1, g);
  }

  /** The faults line of the record reads back as the counter. */
  lemma FaultsBack(lines: seq<string>, faults: int)
    requires IsInt32(faults) && |lines| >= 1 && lines[0] == FaultsTag + IntText(faults)
    ensures FaultsField(lines) == Ok(faults)
  {
    var number := IntText(faults);
    PrefixCut(FaultsTag, number);
    NumberPlain(faults);
    TrimPlain(number);
    ParseIntText(faults);
  }

  /** The source line of the record reads back as the path, a blank one as
      null. */
  lemma SourceBack(lines: seq<string>, source: Option<string>)
    requires |lines| >= 2 && lines[1] == SourceTag + SourceText(source)
    ensures SourceField(lines) == Ok(Reloaded(source))
  {
    PrefixCut(SourceTag, SourceText(source));
  }

  /** Where the parts of the record sit among its 32 lines. */
  lemma Parts<T>(head: seq<T>, x: seq<T>, y: seq<T>, z: seq<T>)
    requires |head| == 2 && |x| == 10 && |y| == 10 && |z| == 10
    ensures var l := head + x + y + z;
      l[0] == head[0] && l[1] == head[1] && l[2..12] == x && l[12..22] == y && l[22..32] == z
  {
  }

  /** `loadGame` on the lines `saveGame` writes. */
  lemma LoadRecordLines(rec: SaveRecord)
    requires Complete(rec) && IsInt32(rec.faults) && Int32Grid(rec.current) && Int32Grid(rec.solution)
    ensures LoadRecord(RecordLines(rec)) == Ok(rec.(source := Reloaded(rec.source)))
  {
    var lines := RecordLines(rec);
    var head := [FaultsTag + IntText(rec.faults), SourceTag + SourceText(rec.source)];
    Parts(head, Section(CurrentHeader, rec.current), Section(SolutionHeader, rec.solution),
      Section(OriginalHeader, Bits(rec.original)));
    FaultsBack(lines, rec.faults);
    SourceBack(lines, rec.source);
    SectionBack(lines, 2, CurrentHeader, rec.current);
    SectionBack(lines, 12, SolutionHeader, rec.solution);
    SectionBack(lines, 22, OriginalHeader, Bits(rec.original));
    NonZeroBits(rec.original);
  }

  /** What `saveGame` writes, `loadGame` reads back: the same faults,
      boards and mask, and the path with a blank one turned into null. The
      path must not hold a line break, which would split its line. */
  lemma SaveLoad(rec: SaveRecord)
    requires Complete(rec) && IsInt32(rec.faults) && Int32Grid(rec.current) && Int32Grid(rec.solution)
    requires Avoids(SourceText(rec.source), {'\n'})
    ensures LoadRecord(Lines(SaveText(rec))) == Ok(rec.(source := Reloaded(rec.source)))
  {
    SaveTextLines(rec);
    RecordLinesPlain(rec);
    LinesRoundTrip(RecordLines(rec));
    LoadRecordLines(rec);
  }
}
