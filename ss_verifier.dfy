/** `Verifier` of sssoduku: the three-way `verify`, which looks only for
    repeated values, the source check `verifySourceSolution`, the report
    `getVerificationResult` and the copy-and-write check
    `isValidWithPermutation`. */
module SsVerifier {
  import opened Base
  import opened Rules
  import opened Text
  import SsGame
  import Scans

  /** `verify`: a row-major pass; a 0 clears `isComplete`, and the first
      nonzero value failing `isValidPlacement` makes the board INVALID. */
  method Verify(board: array2<int>) returns (st: GameState)
    requires Is9x9(board)
    ensures st == SsClassify(Cells(board))
  {
    ghost var g := Cells(board);
    ghost var m := ClashMask(g);
    Scans.OverlayEmpty(g);
    ListedStart(m);
    ZerosStart(g);
    var isComplete := true;
    var i := 0;
    while i < 9
      invariant 0 <= i <= 9
      invariant Listed(m, i, 0) == []
      invariant isComplete <==> ZerosBefore(g, i, 0) == []
    {
      var j := 0;
      while j < 9
        invariant 0 <= j <= 9
        invariant Listed(m, i, j) == []
        invariant isComplete <==> ZerosBefore(g, i, j) == []
      {
        ListedStep(m, i, j);
        ZerosStep(g, i, j);
        if board[i, j] == 0 {
          isComplete := false;
        } else {
          var ok := Scans.PeersAvoid(board, [], [], i, j, board[i, j]);
          if !ok {
            assert Clashes(g, i, j);
            return INVALID;
          }
        }
        j := j + 1;
      }
      ListedWrap(m, i);
      ZerosWrap(g, i);
      i := i + 1;
    }
    NoClashIff(g);
    NoZeroIff(g);
    st := if isComplete then VALID else INCOMPLETE;
  }

  /** `verifySourceSolution`: `SolutionInvalidException` unless the board is VALID. */
  method VerifySourceSolution(sourceBoard: array2<int>) returns (r: Result<()>)
    requires Is9x9(sourceBoard)
    ensures r.Ok? <==> SsClassify(Cells(sourceBoard)) == VALID
    ensures r.Err? ==> r.error == SourceInvalid
  {
    var state := Verify(sourceBoard);
    r := if state != VALID then Err(SourceInvalid) else Ok(());
  }

  const Header: string := "INVALID. Duplicates found at: "

  /** A cell as the report names it: "(r,c)". */
  function Name(p: Pos): string {
    "(" + IntText(p.r) + "," + IntText(p.c) + ")"
  }

  lemma NameEnds(p: Pos)
    ensures |Name(p)| > 0 && Name(p)[0] == '(' && Name(p)[|Name(p)| - 1] == ')'
  {
  }

  /** `String.format("(%d,%d) ", i, j)`. */
  function Item(p: Pos): string {
    Name(p) + " "
  }

  /** The items appended for the listed cells, in order. */
  function Items(ps: seq<Pos>): string {
    if ps == [] then "" else Items(ps[..|ps| - 1]) + Item(ps[|ps| - 1])
  }

  function Names(ps: seq<Pos>): (ns: seq<string>)
    ensures |ns| == |ps| && forall k :: 0 <= k < |ps| ==> ns[k] == Name(ps[k])
  {
    seq(|ps|, k requires 0 <= k < |ps| => Name(ps[k]))
  }

  lemma SnocEq<T>(s: seq<T>, t: seq<T>, x: T)
    requires |s| == |t| + 1 && s[|t|] == x
    requires forall k :: 0 <= k < |t| ==> s[k] == t[k]
    ensures s == t + [x]
  {
  }

  /** The report buffer after appending the items for `ps`. */
  function Listing(ps: seq<Pos>): string {
    Header + Items(ps)
  }

  /** The answer for an INVALID board whose clashing cells are `dups`. */
  function InvalidReport(dups: seq<Pos>): string {
    if dups != [] then Trim(Listing(dups)) else "INVALID (unknown reason)"
  }

  /** What `getVerificationResult` answers. */
  ghost function ReportText(g: Grid): string
    requires IsGrid(g)
  {
    match SsClassify(g)
    case VALID => "VALID"
    case INCOMPLETE => "INCOMPLETE"
    case INVALID => InvalidReport(AllListed(ClashMask(g)))
  }

  /** `getVerificationResult`: "VALID", "INCOMPLETE", or the header followed
      by every clashing cell in row-major order, trimmed. */
  method GetVerificationResult(game: SsGame.Game) returns (s: string)
    requires Is9x9(game.board)
    ensures s == ReportText(Cells(game.board))
  {
    var board := game.board;
    var state := Verify(board);
    if state == VALID {
      return "VALID";
    }
    if state == INCOMPLETE {
      return "INCOMPLETE";
    }
    var sb, foundOne := Duplicates(board);
    s := if foundOne then Trim(sb) else "INVALID (unknown reason)";
  }

  /** The duplicate scan of `getVerificationResult`: every nonzero cell that
      fails `isValidPlacement`, appended in row-major order. */
  method Duplicates(board: array2<int>) returns (sb: string, foundOne: bool)
    requires Is9x9(board)
    ensures sb == Listing(AllListed(ClashMask(Cells(board))))
    ensures foundOne <==> AllListed(ClashMask(Cells(board))) != []
  {
    ghost var g := Cells(board);
    ghost var m := ClashMask(g);
    Scans.OverlayEmpty(g);
    ListedStart(m);
    sb := Header;
    assert sb == Listing([]);
    foundOne := false;
    var i := 0;
    while i < 9
      invariant 0 <= i <= 9
      invariant sb == Listing(Listed(m, i, 0))
      invariant foundOne <==> Listed(m, i, 0) != []
    {
      var j := 0;
      while j < 9
        invariant 0 <= j <= 9
        invariant sb == Listing(Listed(m, i, j))
        invariant foundOne <==> Listed(m, i, j) != []
      {
        ListedStep(m, i, j);
        var num := board[i, j];
        var bad := false;
        if num != 0 {
          var ok := Scans.PeersAvoid(board, [], [], i, j, num);
          bad := !ok;
        }
        assert bad <==> m[i][j];
        if bad {
          sb := Append(sb, Listed(m, i, j), Pos(i, j));
          foundOne := true;
        } else {
          AppendNothing(Listed(m, i, j));
        }
        j := j + 1;
      }
      ListedWrap(m, i);
      i := i + 1;
    }
  }

  lemma AppendNothing(s: seq<Pos>)
    ensures s + [] == s
  {
  }

  /** `sb.append(String.format("(%d,%d) ", i, j))`. */
  method Append(sb: string, ghost ps: seq<Pos>, p: Pos) returns (sb': string)
    requires sb == Listing(ps)
    ensures sb' == Listing(ps + [p])
  {
    ItemsSnoc(ps, p);
    sb' := sb + Item(p);
  }

  lemma {:induction false} ItemsSnoc(ps: seq<Pos>, p: Pos)
    ensures Listing(ps + [p]) == Listing(ps) + Item(p)
  {
    var q := ps + [p];
    assert q[..|q| - 1] == ps && q[|q| - 1] == p;
    assert Items(q) == Items(ps) + Item(p);
    Assoc(Header, Items(ps), Item(p));
  }

  lemma Assoc(a: string, b: string, c: string)
    ensures a + (b + c) == (a + b) + c
  {
  }

  /** Without its final space, the item list is the names joined by spaces. */
  lemma {:induction false} ItemsJoin(ps: seq<Pos>)
    requires ps != []
    ensures Items(ps) == Join(Names(ps), ' ') + " "
  {
    var n := |ps| - 1;
    if n > 0 {
      ItemsJoin(ps[..n]);
      SnocEq(Names(ps), Names(ps[..n]), Name(ps[n]));
      JoinSnoc(Names(ps[..n]), Name(ps[n]), ' ');
      assert [' '] == " ";
    }
  }

  lemma {:induction false} JoinSnoc(parts: seq<string>, last: string, sep: char)
    requires parts != []
    ensures Join(parts + [last], sep) == Join(parts, sep) + [sep] + last
  {
    if |parts| > 1 {
      assert (parts + [last])[1..] == parts[1..] + [last];
      JoinSnoc(parts[1..], last, sep);
    }
  }

  lemma TrimOne(s: string)
    requires |s| > 0 && s[0] > ' ' && s[|s| - 1] > ' '
    ensures Trim(s + " ") == s
  {
    assert (s + " ")[..|s|] == s;
  }

  /** With at least one clashing cell, the answer is the header followed by
      the cells' names separated by single spaces: trimming drops only the
      space after the last item. */
  lemma InvalidReportJoin(dups: seq<Pos>)
    requires dups != []
    ensures InvalidReport(dups) == Header + Join(Names(dups), ' ')
    ensures InvalidReport(dups) != "INVALID (unknown reason)"
  {
    var j := Join(Names(dups), ' ');
    JoinedEnds(dups);
    assert Listing(dups) == Header + (j + " ");
    TrimAfter(Header, j);
  }

  /** The names joined by spaces end in ')' and, with one more space, are the
      items. */
  lemma JoinedEnds(dups: seq<Pos>)
    requires dups != []
    ensures var j := Join(Names(dups), ' '); |j| > 0 && j[|j| - 1] == ')' && Items(dups) == j + " "
  {
    ItemsJoin(dups);
    NameEnds(dups[0]);
    NameEnds(dups[|dups| - 1]);
    JoinEnds(Names(dups), ' ');
  }

  /** Trimming a header and a body followed by one space drops that space. */
  lemma TrimAfter(h: string, j: string)
    requires |h| > 24 && h[0] > ' ' && |j| > 0 && j[|j| - 1] > ' '
    ensures Trim(h + (j + " ")) == h + j
    ensures h + j != "INVALID (unknown reason)"
  {
    assert h + (j + " ") == (h + j) + " ";
    TrimOne(h + j);
    assert |h + j| > |"INVALID (unknown reason)"|;
  }

  /** An INVALID board's report names every clashing cell, in row-major
      order; there is always at least one, so "INVALID (unknown reason)" is
      never answered. */
  lemma ReportListsClashes(g: Grid)
    requires IsGrid(g) && SsClassify(g) == INVALID
    ensures AllListed(ClashMask(g)) != []
    ensures ReportText(g) == Header + Join(Names(AllListed(ClashMask(g))), ' ')
    ensures ReportText(g) != "INVALID (unknown reason)"
  {
    NoClashIff(g);
    InvalidReportJoin(AllListed(ClashMask(g)));
  }

  /** `isValidWithPermutation`: a fresh copy of the board, the first five
      listed cells written in list order, and `verify` of the copy is VALID.
      The board itself is not written. */
  method IsValidWithPermutation(originalBoard: array2<int>, emptyCells: seq<Pos>, permutation: seq<int>)
    returns (b: bool)
    requires Is9x9(originalBoard) && |emptyCells| >= 5 && |permutation| >= 5 && AllInBoard(emptyCells[..5])
    ensures b <==> SsClassify(WriteAll(Cells(originalBoard), emptyCells[..5], permutation[..5])) == VALID
  {
    var tempBoard := CopyBoard(originalBoard);
    Scans.WriteCells(tempBoard, emptyCells, permutation, 5);
    var state := Verify(tempBoard);
    b := state == VALID;
  }

  /** On the board's own five empty cells the check is the VALID test of the
      overlay, and it agrees with JavaApplication31's classification when the
      givens are in 0..9. */
  lemma PermutationOnEmpty(g: Grid, vals: seq<int>)
    requires IsGrid(g) && ZeroCount(g) == 5 && |vals| == 5 && forall i :: 0 <= i < 5 ==> 1 <= vals[i] <= 9
    ensures AllInBoard(EmptyCells(g))
    ensures SsClassify(WriteAll(g, EmptyCells(g)[..5], vals[..5])) == SsClassify(Overlay(g, EmptyCells(g), vals))
    ensures !HasOutOfRange(g) ==> SsClassify(Overlay(g, EmptyCells(g), vals)) == Classify(Overlay(g, EmptyCells(g), vals))
  {
    var e := EmptyCells(g);
    EmptyCellsOnBoard(g);
    assert e[..5] == e && vals[..5] == vals;
    OverlayIsWriteAll(g, e, vals);
    if !HasOutOfRange(g) {
      var h := Overlay(g, e, vals);
      forall r, c | InBoard(r, c)
        ensures !OutOfRange(h[r][c])
      {
        EmptyCellsSpec(g);
        if g[r][c] == 0 {
          VirtualAtListed(g, e, vals, r, c);
        } else {
          assert Pos(r, c) !in e;
          VirtualAtMissing(g, e, vals, r, c);
        }
      }
      ClassifyAgree(h);
    }
  }
}
