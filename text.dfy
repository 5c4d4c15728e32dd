/** The Java string operations the codecs rely on, as functions on
    `seq<char>`: decimal rendering and `Integer.parseInt`, `trim`, `split` on
    a one-character pattern and on "\\s+", `replaceAll` of a character
    class, `Files.readAllLines` of '\n'-terminated text,
    `Character.getNumericValue` and `Character.toUpperCase`. */
module Text {
  import opened Base

  // ----- integers -----

  const IntMin: int := -0x8000_0000
  const IntMax: int := 0x7fff_ffff

  /** The range of a Java `int`. */
  predicate IsInt32(n: int) { IntMin <= n <= IntMax }

  predicate IsDigit(ch: char) { '0' <= ch <= '9' }

  predicate AllDigits(s: string) { forall i :: 0 <= i < |s| ==> IsDigit(s[i]) }

  function DigitChar(d: int): (ch: char)
    requires 0 <= d < 10
    ensures IsDigit(ch)
  {
    ('0' as int + d) as char
  }

  /** Decimal digits of a natural number, without leading zeros. */
  function NatText(n: nat): (s: string)
    ensures |s| > 0 && AllDigits(s)
  {
    if n < 10 then [DigitChar(n)] else NatText(n / 10) + [DigitChar(n % 10)]
  }

  /** `Integer.toString`, `StringBuilder.append(int)` and `%d`. */
  function IntText(n: int): string {
    if n < 0 then "-" + NatText(-n) else NatText(n)
  }

  /** The number a string of decimal digits spells. */
  function DigitsValue(s: string): nat
    requires AllDigits(s)
  {
    if s == [] then 0 else DigitsValue(s[..|s| - 1]) * 10 + (s[|s| - 1] as int - '0' as int)
  }

  /** `Integer.parseInt`: an optional '-' or '+', at least one decimal digit,
      and a value in `int` range; anything else is a NumberFormatException. */
  function ParseInt(s: string): Result<int> {
    if s == [] then Err(Malformed)
    else
      var body := if s[0] == '-' || s[0] == '+' then s[1..] else s;
      if body == [] || !AllDigits(body) then Err(Malformed)
      else
        var v: int := if s[0] == '-' then 0 - DigitsValue(body) as int else DigitsValue(body);
        if IsInt32(v) then Ok(v) else Err(Malformed)
  }

  lemma {:induction false} NatTextValue(n: nat)
    ensures DigitsValue(NatText(n)) == n
  {
    if n >= 10 {
      NatTextValue(n / 10);
      var s := NatText(n);
      assert s[..|s| - 1] == NatText(n / 10);
    }
  }

  /** Reading back a rendered `int` gives the same `int`. */
  lemma ParseIntText(n: int)
    requires IsInt32(n)
    ensures ParseInt(IntText(n)) == Ok(n)
  {
    if n < 0 {
      var t := NatText(-n);
      NatTextValue(-n);
      assert IntText(n) == "-" + t;
      assert IntText(n)[0] == '-' && IntText(n)[1..] == t;
    } else {
      var t := NatText(n);
      NatTextValue(n);
      assert IntText(n) == t && IsDigit(t[0]);
    }
  }

  /** A rendered `int` holds no whitespace, comma or bracket. */
  lemma IntTextChars(n: int)
    ensures |IntText(n)| > 0
    ensures forall i :: 0 <= i < |IntText(n)| ==> IntText(n)[i] == '-' || IsDigit(IntText(n)[i])
  {
  }

  // ----- whitespace and trimming -----

  /** The characters the regular expression `\s` matches. */
  predicate IsSpace(ch: char) {
    ch == ' ' || ch == '\t' || ch == '\n' || ch == '\r' || ch as int == 11 || ch as int == 12
  }

  const Spaces: set<char> := {' ', '\t', '\n', '\r', 11 as char, 12 as char}

  /** `String.trim`: drops every leading and trailing character up to U+0020. */
  function Trim(s: string): (t: string)
    ensures |t| <= |s|
    ensures t != [] ==> t[0] > ' ' && t[|t| - 1] > ' '
  {
    if s == [] then s
    else if s[0] <= ' ' then Trim(s[1..])
    else if s[|s| - 1] <= ' ' then Trim(s[..|s| - 1])
    else s
  }

  /** `String.isBlank`: empty or only whitespace (the ASCII part of
      `Character.isWhitespace`). */
  predicate IsBlank(s: string) {
    forall i :: 0 <= i < |s| ==> IsSpace(s[i]) || 28 <= s[i] as int <= 31
  }

  /** `replaceAll` of a character class with "": the characters outside `drop`. */
  function Remove(s: string, drop: set<char>): (t: string)
    ensures forall i :: 0 <= i < |t| ==> t[i] !in drop
  {
    if s == [] then [] else (if s[0] in drop then [] else [s[0]]) + Remove(s[1..], drop)
  }

  lemma {:induction false} RemoveConcat(a: string, b: string, drop: set<char>)
    ensures Remove(a + b, drop) == Remove(a, drop) + Remove(b, drop)
  {
    if a != [] {
      assert (a + b)[0] == a[0];
      assert (a + b)[1..] == a[1..] + b;
      RemoveConcat(a[1..], b, drop);
    } else {
      assert a + b == b;
    }
  }

  lemma {:induction false} RemoveNone(s: string, drop: set<char>)
    requires forall i :: 0 <= i < |s| ==> s[i] !in drop
    ensures Remove(s, drop) == s
  {
    if s != [] {
      RemoveNone(s[1..], drop);
    }
  }

  // ----- splitting -----

  /** The pieces between the separator characters, empty pieces kept. */
  function Fields(s: string, seps: set<char>): (parts: seq<string>)
    ensures |parts| >= 1
  {
    if s == [] then [""]
    else
      var rest := Fields(s[1..], seps);
      if s[0] in seps then [""] + rest else [[s[0]] + rest[0]] + rest[1..]
  }

  function DropTrailingEmpty(parts: seq<string>): seq<string> {
    if parts != [] && parts[|parts| - 1] == "" then DropTrailingEmpty(parts[..|parts| - 1]) else parts
  }

  function NonEmpty(parts: seq<string>): seq<string> {
    if parts == [] then []
    else (if parts[0] == "" then [] else [parts[0]]) + NonEmpty(parts[1..])
  }

  /** `String.split` with a one-character pattern: "" gives [""], trailing
      empty pieces are dropped. */
  function Split(s: string, sep: char): seq<string> {
    if s == [] then [""] else DropTrailingEmpty(Fields(s, {sep}))
  }

  /** `String.split("\\s+")`: the pieces between maximal runs of whitespace;
      a leading run gives a leading "" piece; trailing "" pieces are dropped. */
  function SplitSpaces(s: string): seq<string> {
    if s == [] then [""]
    else DropTrailingEmpty((if IsSpace(s[0]) then [""] else []) + NonEmpty(Fields(s, Spaces)))
  }

  /** `line.trim().split("\\s+")`, how both `parseBoard` and `parseOriginal`
      cut a line into numbers. */
  function Tokens(line: string): seq<string> {
    SplitSpaces(Trim(line))
  }

  /** The pieces joined with one separator between consecutive pieces. */
  function Join(parts: seq<string>, sep: char): string {
    if parts == [] then ""
    else if |parts| == 1 then parts[0]
    else parts[0] + [sep] + Join(parts[1..], sep)
  }

  predicate Avoids(s: string, seps: set<char>) {
    forall i :: 0 <= i < |s| ==> s[i] !in seps
  }

  /** Pieces free of some characters, joined by a separator outside them,
      stay free of them. */
  lemma {:induction false} JoinAvoids(parts: seq<string>, sep: char, chars: set<char>)
    requires sep !in chars && forall k :: 0 <= k < |parts| ==> Avoids(parts[k], chars)
    ensures Avoids(Join(parts, sep), chars)
  {
    if |parts| > 1 {
      JoinAvoids(parts[1..], sep, chars);
    }
  }

  lemma {:induction false} FieldsPlain(a: string, seps: set<char>)
    requires Avoids(a, seps)
    ensures Fields(a, seps) == [a]
  {
    if a != [] {
      FieldsPlain(a[1..], seps);
      assert [a[0]] + a[1..] == a;
    }
  }

  lemma {:induction false} FieldsCut(a: string, sep: char, b: string, seps: set<char>)
    requires Avoids(a, seps) && sep in seps
    ensures Fields(a + [sep] + b, seps) == [a] + Fields(b, seps)
  {
    if a == [] {
      assert ([] + [sep] + b)[1..] == b;
    } else {
      assert (a + [sep] + b)[1..] == a[1..] + [sep] + b;
      FieldsCut(a[1..], sep, b, seps);
      assert [a[0]] + a[1..] == a;
    }
  }

  /** Cutting the joined pieces at the separator recovers the pieces. */
  lemma {:induction false} FieldsJoin(parts: seq<string>, sep: char, seps: set<char>)
    requires |parts| >= 1 && sep in seps
    requires forall k :: 0 <= k < |parts| ==> Avoids(parts[k], seps)
    ensures Fields(Join(parts, sep), seps) == parts
  {
    if |parts| == 1 {
      FieldsPlain(parts[0], seps);
    } else {
      FieldsJoin(parts[1..], sep, seps);
      FieldsCut(parts[0], sep, Join(parts[1..], sep), seps);
      assert parts == [parts[0]] + parts[1..];
    }
  }

  lemma {:induction false} JoinLast(parts: seq<string>, sep: char)
    requires |parts| >= 1 && parts[|parts| - 1] != ""
    ensures var j := Join(parts, sep); |j| > 0 && j[|j| - 1] == parts[|parts| - 1][|parts[|parts| - 1]| - 1]
  {
    if |parts| > 1 {
      JoinLast(parts[1..], sep);
    }
  }

  lemma JoinEnds(parts: seq<string>, sep: char)
    requires |parts| >= 1 && parts[0] != "" && parts[|parts| - 1] != ""
    ensures var j := Join(parts, sep); |j| > 0 && j[0] == parts[0][0] && j[|j| - 1] == parts[|parts| - 1][|parts[|parts| - 1]| - 1]
  {
    JoinLast(parts, sep);
  }

  lemma {:induction false} NonEmptyAll(parts: seq<string>)
    requires forall k :: 0 <= k < |parts| ==> parts[k] != ""
    ensures NonEmpty(parts) == parts
  {
    if parts != [] {
      NonEmptyAll(parts[1..]);
      assert parts == [parts[0]] + parts[1..];
    }
  }

  /** `split` on a one-character pattern inverts `Join` when no piece holds
      the separator and the last piece is not empty. */
  lemma SplitJoin(parts: seq<string>, sep: char)
    requires |parts| >= 1 && parts[|parts| - 1] != ""
    requires forall k :: 0 <= k < |parts| ==> Avoids(parts[k], {sep})
    ensures Split(Join(parts, sep), sep) == parts
  {
    FieldsJoin(parts, sep, {sep});
    if |parts| == 1 {
    } else {
      JoinLen(parts, sep);
    }
  }

  lemma {:induction false} JoinLen(parts: seq<string>, sep: char)
    requires |parts| >= 2
    ensures |Join(parts, sep)| > 0
  {
  }

  /** Numbers joined by single spaces tokenize back into the same numbers. */
  lemma TokensJoin(parts: seq<string>)
    requires |parts| >= 1
    requires forall k :: 0 <= k < |parts| ==> parts[k] != [] && forall i :: 0 <= i < |parts[k]| ==> parts[k][i] > ' '
    ensures Tokens(Join(parts, ' ')) == parts
  {
    var j := Join(parts, ' ');
    JoinEnds(parts, ' ');
    assert Trim(j) == j;
    forall k | 0 <= k < |parts|
      ensures Avoids(parts[k], Spaces)
    {
    }
    FieldsJoin(parts, ' ', Spaces);
    NonEmptyAll(parts);
  }

  // ----- lines -----

  /** The text a list of lines is written as, each line ended by '\n'. */
  function LinesText(lines: seq<string>): string {
    if lines == [] then "" else lines[0] + "\n" + LinesText(lines[1..])
  }

  /** `Files.readAllLines` of text whose lines end in '\n': a final '\n'
      does not start another line. */
  function Lines(text: string): seq<string> {
    if text == [] then []
    else if text[|text| - 1] == '\n' then Fields(text[..|text| - 1], {'\n'})
    else Fields(text, {'\n'})
  }

  lemma {:induction false} LinesTextJoin(lines: seq<string>)
    requires |lines| >= 1
    ensures LinesText(lines) == Join(lines, '\n') + "\n"
  {
    if |lines| > 1 {
      LinesTextJoin(lines[1..]);
    }
  }

  /** Reading back written lines gives the same lines. */
  lemma LinesRoundTrip(lines: seq<string>)
    requires forall k :: 0 <= k < |lines| ==> Avoids(lines[k], {'\n'})
    ensures Lines(LinesText(lines)) == lines
  {
    if lines != [] {
      LinesTextJoin(lines);
      var t := LinesText(lines);
      assert t[..|t| - 1] == Join(lines, '\n');
      FieldsJoin(lines, '\n', {'\n'});
    }
  }

  /** A separator at the end adds one empty piece. */
  lemma {:induction false} FieldsEndSep(s: string, sep: char, seps: set<char>)
    requires sep in seps
    ensures Fields(s + [sep], seps) == Fields(s, seps) + [""]
  {
    if s == [] {
      assert ([] + [sep])[1..] == [];
    } else {
      assert (s + [sep])[1..] == s[1..] + [sep];
      FieldsEndSep(s[1..], sep, seps);
    }
  }

  /** `split` on '\n' of written lines gives the lines back when the last one
      is not empty: the final '\n' only adds an empty piece, which `split`
      drops. */
  lemma SplitLinesText(lines: seq<string>)
    requires |lines| >= 1 && lines[|lines| - 1] != ""
    requires forall k :: 0 <= k < |lines| ==> Avoids(lines[k], {'\n'})
    ensures Split(LinesText(lines), '\n') == lines
  {
    var j := Join(lines, '\n');
    LinesTextJoin(lines);
    FieldsJoin(lines, '\n', {'\n'});
    FieldsEndSep(j, '\n', {'\n'});
    DropLastEmpty(lines);
  }

  /** One empty piece after a nonempty last one is all that is dropped. */
  lemma DropLastEmpty(parts: seq<string>)
    requires |parts| >= 1 && parts[|parts| - 1] != ""
    ensures DropTrailingEmpty(parts + [""]) == parts
  {
    assert (parts + [""])[..|parts|] == parts;
  }

  // ----- characters -----

  /** `Character.getNumericValue` on ASCII: digits 0..9, letters 10..35,
      everything else -1. */
  function NumericValue(ch: char): int {
    if '0' <= ch <= '9' then ch as int - '0' as int
    else if 'a' <= ch <= 'z' then ch as int - 'a' as int + 10
    else if 'A' <= ch <= 'Z' then ch as int - 'A' as int + 10
    else -1
  }

  /** `Character.toUpperCase` on ASCII letters; other characters unchanged. */
  function ToUpper(ch: char): char {
    if 'a' <= ch <= 'z' then (ch as int - 32) as char else ch
  }

  lemma NumericValueDigit(d: int)
    requires 0 <= d < 10
    ensures NumericValue(DigitChar(d)) == d
  {
  }
}
