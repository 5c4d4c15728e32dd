/** `Verifier` of JavaApplication31: the string verdict `verify`, the
    three-pass `verifyState`, and the 5-blank check `isValidWithPermutation`,
    which reads the board through the overlay (`getVirtualVal`) and tests
    only the listed cells. The board is never written. */
module JaVerifier {
  import opened Base
  import opened Rules
  import opened Text
  import Scans

  /** The verdict naming a rejected cell: "invalid r,c". */
  function InvalidAt(p: Pos): (s: string)
    ensures |s| >= 8 && s[..8] == "invalid "
  {
    "invalid " + IntText(p.r) + "," + IntText(p.c)
  }

  /** What `verify` answers: the first cell in row-major order that is out of
      range or clashes, else "incomplete" when a cell is 0, else "valid". */
  ghost function VerifyText(g: Grid): string
    requires IsGrid(g)
  {
    var bad := AllListed(BadMask(g));
    if bad != [] then InvalidAt(bad[0]) else if HasZero(g) then "incomplete" else "valid"
  }

  /** `verify`: one row-major pass; a 0 sets `hasZero`, the first nonzero cell
      outside 1..9 or failing `isValidPlacement` is reported at once. */
  method Verify(board: array2<int>) returns (s: string)
    requires Is9x9(board)
    ensures s == VerifyText(Cells(board))
  {
    ghost var g := Cells(board);
    ghost var m := BadMask(g);
    Scans.OverlayEmpty(g);
    ListedStart(m);
    ZerosStart(g);
    var hasZero := false;
    var r := 0;
    while r < 9
      invariant 0 <= r <= 9
      invariant Listed(m, r, 0) == []
      invariant hasZero <==> ZerosBefore(g, r, 0) != []
    {
      var c := 0;
      while c < 9
        invariant 0 <= c <= 9
        invariant Listed(m, r, c) == []
        invariant hasZero <==> ZerosBefore(g, r, c) != []
      {
        ListedStep(m, r, c);
        ZerosStep(g, r, c);
        var v := board[r, c];
        if v == 0 {
          hasZero := true;
        } else {
          var ok := false;
          if 1 <= v <= 9 {
            ok := Scans.PeersAvoid(board, [], [], r, c, v);
          }
          if !ok {
            ListedFirst(m, r, c);
            return InvalidAt(Pos(r, c));
          }
        }
        c := c + 1;
      }
      ListedWrap(m, r);
      ZerosWrap(g, r);
      r := r + 1;
    }
    NoZeroIff(g);
    s := if hasZero then "incomplete" else "valid";
  }

  /** The string verdict and the three-way classification say the same thing. */
  lemma VerifyAgree(g: Grid)
    requires IsGrid(g)
    ensures (|VerifyText(g)| >= 8 && VerifyText(g)[..8] == "invalid ") <==> Classify(g) == INVALID
    ensures VerifyText(g) == "incomplete" <==> Classify(g) == INCOMPLETE
    ensures VerifyText(g) == "valid" <==> Classify(g) == VALID
  {
    NoBadIff(g);
    var bad := AllListed(BadMask(g));
    if bad != [] {
      var s := InvalidAt(bad[0]);
      assert s[2] == 'v';
      assert s != "incomplete" && s != "valid";
    }
  }

  /** `verifyState`: the rows, then the columns, then the boxes, each with a
      fresh `seen[]`; INVALID beats INCOMPLETE beats VALID. */
  method VerifyState(board: array2<int>) returns (st: GameState)
    requires Is9x9(board)
    ensures st == Classify(Cells(board))
  {
    Scans.OverlayEmpty(Cells(board));
    var ok, hasZero := Scans.ThreePass(board, [], []);
    st := if !ok then INVALID else if hasZero then INCOMPLETE else VALID;
  }

  /** What `isValidWithPermutation` accepts: every listed cell's value has
      no equal peer on the overlaid board. Unlisted cells are not looked at. */
  ghost predicate PermOk(g: Grid, cells: seq<Pos>, combo: seq<int>)
    requires IsGrid(g) && AllInBoard(cells) && |cells| <= |combo|
  {
    forall i :: 0 <= i < |cells| ==> PlacementOk(Overlay(g, cells, combo), cells[i].r, cells[i].c, combo[i])
  }

  /** `isValidWithPermutation` with `isPossibleVirtual` for each listed cell. */
  method IsValidWithPermutation(board: array2<int>, cells: seq<Pos>, combo: seq<int>) returns (b: bool)
    requires Is9x9(board) && AllInBoard(cells) && |cells| <= |combo|
    ensures b == PermOk(Cells(board), cells, combo)
  {
    ghost var h := Overlay(Cells(board), cells, combo);
    var i := 0;
    while i < |cells|
      invariant 0 <= i <= |cells|
      invariant forall k :: 0 <= k < i ==> PlacementOk(h, cells[k].r, cells[k].c, combo[k])
    {
      var ok := Scans.PeersAvoid(board, cells, combo, cells[i].r, cells[i].c, combo[i]);
      if !ok {
        return false;
      }
      i := i + 1;
    }
    return true;
  }

  /** On a board whose givens are conflict-free, overlaying digits on exactly
      the empty cells passes `isValidWithPermutation` iff the filled board is
      VALID. */
  lemma PermOkFull(g: Grid, vals: seq<int>)
    requires IsGrid(g) && ConflictFree(g) && |vals| == |EmptyCells(g)|
    requires forall i :: 0 <= i < |vals| ==> 1 <= vals[i] <= 9
    ensures AllInBoard(EmptyCells(g))
    ensures PermOk(g, EmptyCells(g), vals) <==> Classify(Overlay(g, EmptyCells(g), vals)) == VALID
  {
    var e := EmptyCells(g);
    var h := Overlay(g, e, vals);
    EmptyCellsSpec(g);
    EmptyCellsOnBoard(g);
    OverlayFillsEmpty(g, vals);
    if Classify(h) == VALID {
      forall i | 0 <= i < |e|
        ensures PlacementOk(h, e[i].r, e[i].c, vals[i])
      {
        VirtualAtIndex(g, e, vals, i);
        assert !Clashes(h, e[i].r, e[i].c);
      }
    }
    if PermOk(g, e, vals) {
      forall r, c | InBoard(r, c)
        ensures !OutOfRange(h[r][c])
      {
        if g[r][c] == 0 {
          VirtualAtListed(g, e, vals, r, c);
        } else {
          VirtualAtMissing(g, e, vals, r, c);
        }
      }
      forall r, c | InBoard(r, c) && h[r][c] != 0
        ensures PlacementOk(h, r, c, h[r][c])
      {
        ListedCellsClear(g, vals, r, c);
      }
    }
  }

  /** The core of `PermOkFull`: a cell of the filled board has no equal peer. */
  lemma ListedCellsClear(g: Grid, vals: seq<int>, r: int, c: int)
    requires IsGrid(g) && ConflictFree(g) && |vals| == |EmptyCells(g)| && InBoard(r, c)
    requires Distinct(EmptyCells(g)) && AllInBoard(EmptyCells(g))
    requires forall r, c :: InBoard(r, c) && g[r][c] == 0 ==> Pos(r, c) in EmptyCells(g)
    requires forall k :: 0 <= k < |EmptyCells(g)| ==> g[EmptyCells(g)[k].r][EmptyCells(g)[k].c] == 0
    requires PermOk(g, EmptyCells(g), vals)
    requires Overlay(g, EmptyCells(g), vals)[r][c] != 0
    ensures PlacementOk(Overlay(g, EmptyCells(g), vals), r, c, Overlay(g, EmptyCells(g), vals)[r][c])
  {
    var e := EmptyCells(g);
    var h := Overlay(g, e, vals);
    forall r2, c2 | InBoard(r2, c2) && Peers(r, c, r2, c2)
      ensures h[r2][c2] != h[r][c]
    {
      if g[r][c] == 0 {
        var i :| 0 <= i < |e| && e[i] == Pos(r, c);
        VirtualAtIndex(g, e, vals, i);
        assert PlacementOk(h, r, c, vals[i]);
      } else if g[r2][c2] == 0 {
        var j :| 0 <= j < |e| && e[j] == Pos(r2, c2);
        VirtualAtIndex(g, e, vals, j);
        assert Peers(r2, c2, r, c);
        assert PlacementOk(h, r2, c2, vals[j]);
      } else {
        assert Pos(r, c) !in e && Pos(r2, c2) !in e;
        VirtualAtMissing(g, e, vals, r, c);
        VirtualAtMissing(g, e, vals, r2, c2);
        assert !Clashes(g, r, c);
      }
    }
  }

  /** Only listed cells are checked: a repeat among the givens goes unseen. */
  lemma PermOkIgnoresGivens()
    ensures var g := seq(9, r => seq(9, c => if r == 0 && c < 2 then 1 else 0));
      IsGrid(g) && PermOk(g, [], []) && Classify(Overlay(g, [], [])) == INVALID
  {
    var g := seq(9, r => seq(9, c => if r == 0 && c < 2 then 1 else 0));
    Scans.OverlayEmpty(g);
    assert Peers(0, 0, 0, 1) && g[0][1] == 1;
    assert Clashes(g, 0, 0);
  }
}
