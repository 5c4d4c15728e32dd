/** `UserAction` of sssoduku: an immutable move record (row, column, new
    value, previous value), its log line "(x, y, value, previousValue)", and
    the two readers of that line: `GameController.logUserAction`, which parses
    all four fields, and `StorageService.undoLastMove`, which parses fields 0,
    1 and 3. */
module SsUserAction {
  import opened Base
  import opened Text

  /** The four final fields, fixed by the constructor. */
  datatype UserAction = UserAction(x: int, y: int, value: int, previousValue: int)

  /** ", " and a number, one field after the first. */
  function Then(s: string): string {
    ", " + s
  }

  /** `toString`: `String.format("(%d, %d, %d, %d)", ...)`. */
  function ActionText(a: UserAction): (s: string)
    ensures |s| > 0 && s[0] == '(' && s[|s| - 1] == ')'
  {
    "(" + IntText(a.x) + Then(IntText(a.y)) + Then(IntText(a.value)) + Then(IntText(a.previousValue)) + ")"
  }

  /** The character class `[()\s]` both readers strip. */
  const Stripped: set<char> := {'(', ')'} + Spaces

  /** `line.replaceAll("[()\\s]", "").split(",")`. */
  function LogParts(line: string): seq<string> {
    Split(Remove(line, Stripped), ',')
  }

  /** `Integer.parseInt(parts[i])`: an index past the end throws
      ArrayIndexOutOfBoundsException, a bad number NumberFormatException. */
  function FieldAt(parts: seq<string>, i: nat): Result<int> {
    if i < |parts| then ParseInt(parts[i]) else Err(OutOfBounds)
  }

  /** The parse in `GameController.logUserAction`: fields 0, 1, 2 and 3 in that
      order; the first one that fails decides the exception. */
  function ParseAction(line: string): Result<UserAction> {
    var parts := LogParts(line);
    var x := FieldAt(parts, 0);
    if x.Err? then Err(x.error) else
    var y := FieldAt(parts, 1);
    if y.Err? then Err(y.error) else
    var v := FieldAt(parts, 2);
    if v.Err? then Err(v.error) else
    var p := FieldAt(parts, 3);
    if p.Err? then Err(p.error) else
    Ok(UserAction(x.value, y.value, v.value, p.value))
  }

  /** What `undoLastMove` takes from a log line: the cell and the value to
      write back. */
  datatype Undo = Undo(x: int, y: int, prev: int)

  /** The parse in `StorageService.undoLastMove`: fields 0, 1 and 3; field 2
      is never looked at. */
  function UndoFields(line: string): Result<Undo> {
    var parts := LogParts(line);
    var x := FieldAt(parts, 0);
    if x.Err? then Err(x.error) else
    var y := FieldAt(parts, 1);
    if y.Err? then Err(y.error) else
    var p := FieldAt(parts, 3);
    if p.Err? then Err(p.error) else
    Ok(Undo(x.value, y.value, p.value))
  }

  /** Stripping the log line leaves the four numbers separated by commas. */
  lemma StrippedText(a: UserAction)
    ensures Remove(ActionText(a), Stripped)
      == Join([IntText(a.x), IntText(a.y), IntText(a.value), IntText(a.previousValue)], ',')
  {
    var x, y, v, p := IntText(a.x), IntText(a.y), IntText(a.value), IntText(a.previousValue);
    NumberKept(a.x);
    RemoveConcat("(" + x + Then(y) + Then(v) + Then(p), ")", Stripped);
    RemoveConcat("(" + x + Then(y) + Then(v), Then(p), Stripped);
    RemoveConcat("(" + x + Then(y), Then(v), Stripped);
    RemoveConcat("(" + x, Then(y), Stripped);
    RemoveConcat("(", x, Stripped);
    ThenKept(a.y);
    ThenKept(a.value);
    ThenKept(a.previousValue);
    assert Remove(")", Stripped) == [];
    assert Remove("(", Stripped) == [];
    JoinFour(x, y, v, p);
  }

  /** A rendered number survives the stripping unchanged. */
  lemma NumberKept(n: int)
    ensures Remove(IntText(n), Stripped) == IntText(n)
    ensures Avoids(IntText(n), {','}) && IntText(n) != ""
  {
    IntTextChars(n);
    RemoveNone(IntText(n), Stripped);
  }

  /** ", n" strips to ",n". */
  lemma ThenKept(n: int)
    ensures Remove(Then(IntText(n)), Stripped) == [','] + IntText(n)
  {
    NumberKept(n);
    RemoveConcat(", ", IntText(n), Stripped);
    assert Remove(", ", Stripped) == [','];
  }

  lemma JoinFour(x: string, y: string, v: string, p: string)
    ensures [] + x + ([','] + y) + ([','] + v) + ([','] + p) == Join([x, y, v, p], ',')
  {
    assert [x, y, v, p][1..] == [y, v, p];
    assert [y, v, p][1..] == [v, p];
    assert [v, p][1..] == [p];
    assert Join([v, p], ',') == v + [','] + p;
    assert Join([y, v, p], ',') == y + [','] + (v + [','] + p);
    assert Join([x, y, v, p], ',') == x + [','] + (y + [','] + (v + [','] + p));
    assert [] + x == x;
  }

  /** The four numbers come back as the four pieces of the split. */
  lemma LogPartsText(a: UserAction)
    ensures LogParts(ActionText(a)) == [IntText(a.x), IntText(a.y), IntText(a.value), IntText(a.previousValue)]
  {
    var parts := [IntText(a.x), IntText(a.y), IntText(a.value), IntText(a.previousValue)];
    StrippedText(a);
    NumberKept(a.x);
    NumberKept(a.y);
    NumberKept(a.value);
    NumberKept(a.previousValue);
    SplitJoin(parts, ',');
  }

  /** Reading a logged move back as `logUserAction` does recovers the move,
      for every four Java `int`s. */
  lemma ParseActionText(a: UserAction)
    requires IsInt32(a.x) && IsInt32(a.y) && IsInt32(a.value) && IsInt32(a.previousValue)
    ensures ParseAction(ActionText(a)) == Ok(a)
  {
    LogPartsText(a);
    ParseIntText(a.x);
    ParseIntText(a.y);
    ParseIntText(a.value);
    ParseIntText(a.previousValue);
  }

  /** `undoLastMove` reads from a logged move its cell and its previous value,
      the value the move overwrote. */
  lemma UndoFieldsText(a: UserAction)
    requires IsInt32(a.x) && IsInt32(a.y) && IsInt32(a.previousValue)
    ensures UndoFields(ActionText(a)) == Ok(Undo(a.x, a.y, a.previousValue))
  {
    LogPartsText(a);
    ParseIntText(a.x);
    ParseIntText(a.y);
    ParseIntText(a.previousValue);
  }

  /** Every line `logUserAction` accepts, `undoLastMove` accepts too, with the
      same cell and previous value; the converse fails only on field 2. */
  lemma UndoAcceptsParsed(line: string)
    ensures ParseAction(line).Ok? ==>
      UndoFields(line) == Ok(Undo(ParseAction(line).value.x, ParseAction(line).value.y, ParseAction(line).value.previousValue))
    ensures UndoFields(line).Ok? && FieldAt(LogParts(line), 2).Ok? ==> ParseAction(line).Ok?
  {
  }
}
