/** The rules both engines check, as predicates on grid values: the unit
    geometry (rows, columns, 3x3 boxes), the placement tests, the three-way
    classification and the sparse overlay the 5-blank solvers use. */
module Rules {
  import opened Base

  /** `GameState` of JavaApplication31, `Verifier.State` of sssoduku. */
  datatype GameState = VALID | INVALID | INCOMPLETE

  /** First row (or column) of the box containing `x`: `x - x % 3`. */
  function BoxStart(x: int): int { x - x % 3 }

  predicate SameBox(r: int, c: int, r2: int, c2: int) {
    BoxStart(r) == BoxStart(r2) && BoxStart(c) == BoxStart(c2)
  }

  /** (r2, c2) shares a row, column or box with (r, c). */
  predicate SameUnit(r: int, c: int, r2: int, c2: int) {
    r == r2 || c == c2 || SameBox(r, c, r2, c2)
  }

  /** (r2, c2) is another cell of a unit of (r, c). */
  predicate Peers(r: int, c: int, r2: int, c2: int) {
    (r != r2 || c != c2) && SameUnit(r, c, r2, c2)
  }

  /** A nonzero value outside 1..9. */
  predicate OutOfRange(v: int) { v != 0 && (v < 1 || v > 9) }

  /** `isValidPlacement(board, r, c, v)`: `v` occurs at no other cell of the
      row, column or box of (r, c). */
  ghost predicate PlacementOk(g: Grid, r: int, c: int, v: int)
    requires IsGrid(g) && InBoard(r, c)
  {
    forall r2, c2 :: InBoard(r2, c2) && Peers(r, c, r2, c2) ==> g[r2][c2] != v
  }

  /** `Controller.isValid(grid, r, c, n)`: `n` occurs nowhere in the row,
      column or box of (r, c), the cell itself included. */
  ghost predicate Free(g: Grid, r: int, c: int, n: int)
    requires IsGrid(g) && InBoard(r, c)
  {
    forall r2, c2 :: InBoard(r2, c2) && SameUnit(r, c, r2, c2) ==> g[r2][c2] != n
  }

  /** Cell (r, c) holds a nonzero value that one of its peers also holds. */
  ghost predicate Clashes(g: Grid, r: int, c: int)
    requires IsGrid(g) && InBoard(r, c)
  {
    g[r][c] != 0 && !PlacementOk(g, r, c, g[r][c])
  }

  /** A nonzero cell that is out of range or clashes: what `verify` reports. */
  ghost predicate Bad(g: Grid, r: int, c: int)
    requires IsGrid(g) && InBoard(r, c)
  {
    OutOfRange(g[r][c]) || Clashes(g, r, c)
  }

  ghost predicate HasClash(g: Grid)
    requires IsGrid(g)
  {
    exists r, c :: InBoard(r, c) && Clashes(g, r, c)
  }

  ghost predicate HasOutOfRange(g: Grid)
    requires IsGrid(g)
  {
    exists r, c :: InBoard(r, c) && OutOfRange(g[r][c])
  }

  ghost predicate HasZero(g: Grid)
    requires IsGrid(g)
  {
    exists r, c :: InBoard(r, c) && g[r][c] == 0
  }

  /** Every value is in 0..9 and no nonzero value repeats in a unit. */
  ghost predicate ConflictFree(g: Grid)
    requires IsGrid(g)
  {
    !HasOutOfRange(g) && !HasClash(g)
  }

  /** The classification of JavaApplication31 (`Controller.verifyState`,
      `Verifier.verifyState`): INVALID beats INCOMPLETE beats VALID. */
  ghost function Classify(g: Grid): GameState
    requires IsGrid(g)
  {
    if !ConflictFree(g) then INVALID else if HasZero(g) then INCOMPLETE else VALID
  }

  /** The classification of sssoduku (`Verifier.verify`): only repeats are
      INVALID, there is no range check. */
  ghost function SsClassify(g: Grid): GameState
    requires IsGrid(g)
  {
    if HasClash(g) then INVALID else if HasZero(g) then INCOMPLETE else VALID
  }

  /** The two classifications agree on every grid whose values are in 0..9. */
  lemma ClassifyAgree(g: Grid)
    requires IsGrid(g) && !HasOutOfRange(g)
    ensures Classify(g) == SsClassify(g)
  {
  }

  /** sssoduku accepts an out-of-range value that JavaApplication31 rejects. */
  lemma ClassifyDisagree()
    ensures var g := seq(9, r => seq(9, c => if r == 0 && c == 0 then 10 else 0));
      IsGrid(g) && SsClassify(g) == INCOMPLETE && Classify(g) == INVALID
  {
    var g := seq(9, r => seq(9, c => if r == 0 && c == 0 then 10 else 0));
    assert g[0][0] == 10 && OutOfRange(g[0][0]);
    assert g[1][1] == 0;
    forall r, c | InBoard(r, c)
      ensures !Clashes(g, r, c)
    {
      if r == 0 && c == 0 {
        forall r2, c2 | InBoard(r2, c2) && Peers(r, c, r2, c2)
          ensures g[r2][c2] != 10
        {
        }
      }
    }
  }

  // ----- the cells a verifier reports, in row-major order -----

  /** Flags the cells `Verifier.verify` (JavaApplication31) rejects. */
  ghost function BadMask(g: Grid): (m: Mask)
    requires IsGrid(g)
    ensures IsGrid(m)
    ensures forall r, c :: 0 <= r < 9 && 0 <= c < 9 ==> (m[r][c] <==> Bad(g, r, c))
  {
    seq(9, r requires 0 <= r < 9 => seq(9, c requires 0 <= c < 9 => Bad(g, r, c)))
  }

  /** Flags the cells `getVerificationResult` (sssoduku) lists. */
  ghost function ClashMask(g: Grid): (m: Mask)
    requires IsGrid(g)
    ensures IsGrid(m)
    ensures forall r, c :: 0 <= r < 9 && 0 <= c < 9 ==> (m[r][c] <==> Clashes(g, r, c))
  {
    seq(9, r requires 0 <= r < 9 => seq(9, c requires 0 <= c < 9 => Clashes(g, r, c)))
  }

  /** No cell is bad exactly when the grid is conflict-free. */
  lemma NoBadIff(g: Grid)
    requires IsGrid(g)
    ensures AllListed(BadMask(g)) == [] <==> ConflictFree(g)
  {
    var m := BadMask(g);
    AllListedEmpty(m);
    if ConflictFree(g) {
      forall r, c | 0 <= r < 9 && 0 <= c < 9
        ensures !m[r][c]
      {
        assert !OutOfRange(g[r][c]) && !Clashes(g, r, c);
      }
    } else if !HasClash(g) {
      var r, c :| InBoard(r, c) && OutOfRange(g[r][c]);
      assert m[r][c];
    } else {
      var r, c :| InBoard(r, c) && Clashes(g, r, c);
      assert m[r][c];
    }
  }

  /** No cell clashes exactly when the grid has no repeat. */
  lemma NoClashIff(g: Grid)
    requires IsGrid(g)
    ensures AllListed(ClashMask(g)) == [] <==> !HasClash(g)
  {
    AllListedEmpty(ClashMask(g));
  }

  /** The empty-cell list is empty exactly when the grid has no zero. */
  lemma NoZeroIff(g: Grid)
    requires IsGrid(g)
    ensures EmptyCells(g) == [] <==> !HasZero(g)
  {
    AllListedEmpty(ZeroMask(g));
  }

  // ----- units: the order in which the three passes visit the cells -----

  datatype Family = RowUnit | ColumnUnit | BoxUnit

  /** The k-th cell (0..8) of unit u (0..8) of a family; box u is the one
      with top-left cell (3*(u/3), 3*(u%3)), scanned row by row. */
  function UnitCell(f: Family, u: int, k: int): (p: Pos)
    requires 0 <= u < 9 && 0 <= k < 9
    ensures InBoard(p.r, p.c)
  {
    match f
    case RowUnit => Pos(u, k)
    case ColumnUnit => Pos(k, u)
    case BoxUnit => Pos(3 * (u / 3) + k / 3, 3 * (u % 3) + k % 3)
  }

  function UnitValue(g: Grid, f: Family, u: int, k: int): int
    requires IsGrid(g) && 0 <= u < 9 && 0 <= k < 9
  {
    g[UnitCell(f, u, k).r][UnitCell(f, u, k).c]
  }

  /** One unit passes the `seen[]` scan: no value outside 0..9, no repeat. */
  ghost predicate UnitOk(g: Grid, f: Family, u: int)
    requires IsGrid(g) && 0 <= u < 9
  {
    && (forall k :: 0 <= k < 9 ==> !OutOfRange(UnitValue(g, f, u, k)))
    && (forall k, k2 :: 0 <= k < k2 < 9 && UnitValue(g, f, u, k) != 0 ==>
          UnitValue(g, f, u, k) != UnitValue(g, f, u, k2))
  }

  ghost predicate UnitsOk(g: Grid)
    requires IsGrid(g)
  {
    forall f, u :: 0 <= u < 9 ==> UnitOk(g, f, u)
  }

  /** Every unit of one family passes. */
  ghost predicate FamilyOk(g: Grid, f: Family)
    requires IsGrid(g)
  {
    forall u :: 0 <= u < 9 ==> UnitOk(g, f, u)
  }

  lemma DivMod3(a: int, b: int)
    requires 0 <= b < 3
    ensures (3 * a + b) / 3 == a && (3 * a + b) % 3 == b
  {
  }

  /** Two different cells of one unit are peers. */
  lemma UnitCellsArePeers(f: Family, u: int, k: int, k2: int)
    requires 0 <= u < 9 && 0 <= k < 9 && 0 <= k2 < 9 && k != k2
    ensures var p, q := UnitCell(f, u, k), UnitCell(f, u, k2); Peers(p.r, p.c, q.r, q.c)
  {
    if f == BoxUnit {
      var p, q := UnitCell(f, u, k), UnitCell(f, u, k2);
      DivMod3(u / 3, k / 3);
      DivMod3(u / 3, k2 / 3);
      DivMod3(u % 3, k % 3);
      DivMod3(u % 3, k2 % 3);
      DivMod3(k / 3, k % 3);
      DivMod3(k2 / 3, k2 % 3);
      assert BoxStart(p.r) == 3 * (u / 3) == BoxStart(q.r);
      assert BoxStart(p.c) == 3 * (u % 3) == BoxStart(q.c);
    }
  }

  /** The box unit of (r, c) and the index of (r, c) within it. */
  lemma BoxOf(r: int, c: int) returns (u: int, k: int)
    requires InBoard(r, c)
    ensures 0 <= u < 9 && 0 <= k < 9 && UnitCell(BoxUnit, u, k) == Pos(r, c)
    ensures u == 3 * (r / 3) + c / 3
  {
    u, k := 3 * (r / 3) + c / 3, 3 * (r % 3) + c % 3;
    DivMod3(r / 3, c / 3);
    DivMod3(r % 3, c % 3);
  }

  /** Two peers lie together in some unit. */
  lemma PeersShareUnit(r: int, c: int, r2: int, c2: int) returns (f: Family, u: int, k: int, k2: int)
    requires InBoard(r, c) && InBoard(r2, c2) && Peers(r, c, r2, c2)
    ensures 0 <= u < 9 && 0 <= k < 9 && 0 <= k2 < 9 && k != k2
    ensures UnitCell(f, u, k) == Pos(r, c) && UnitCell(f, u, k2) == Pos(r2, c2)
  {
    if r == r2 {
      f, u, k, k2 := RowUnit, r, c, c2;
    } else if c == c2 {
      f, u, k, k2 := ColumnUnit, c, r, r2;
    } else {
      f := BoxUnit;
      var v;
      u, k := BoxOf(r, c);
      v, k2 := BoxOf(r2, c2);
      assert r / 3 == r2 / 3 && c / 3 == c2 / 3;
    }
  }

  /** The unit scan and the cell-by-cell rule describe the same boards. */
  lemma UnitsOkIff(g: Grid)
    requires IsGrid(g)
    ensures UnitsOk(g) <==> ConflictFree(g)
  {
    if UnitsOk(g) {
      forall r, c | InBoard(r, c)
        ensures !OutOfRange(g[r][c])
      {
        assert UnitValue(g, RowUnit, r, c) == g[r][c];
        assert UnitOk(g, RowUnit, r);
      }
      forall r, c | InBoard(r, c) && g[r][c] != 0
        ensures PlacementOk(g, r, c, g[r][c])
      {
        forall r2, c2 | InBoard(r2, c2) && Peers(r, c, r2, c2)
          ensures g[r2][c2] != g[r][c]
        {
          var f, u, k, k2 := PeersShareUnit(r, c, r2, c2);
          assert UnitValue(g, f, u, k) == g[r][c] && UnitValue(g, f, u, k2) == g[r2][c2];
          assert UnitOk(g, f, u);
        }
      }
    }
    if ConflictFree(g) {
      forall f, u | 0 <= u < 9
        ensures UnitOk(g, f, u)
      {
        forall k, k2 | 0 <= k < k2 < 9 && UnitValue(g, f, u, k) != 0
          ensures UnitValue(g, f, u, k) != UnitValue(g, f, u, k2)
        {
          var p, q := UnitCell(f, u, k), UnitCell(f, u, k2);
          UnitCellsArePeers(f, u, k, k2);
          assert !Clashes(g, p.r, p.c);
        }
      }
    }
  }
  /** The board is free of duplicates exactly when the rows, the columns and
      the boxes all pass. */
  lemma FamiliesOk(g: Grid)
    requires IsGrid(g)
    ensures ConflictFree(g) <==> FamilyOk(g, RowUnit) && FamilyOk(g, ColumnUnit) && FamilyOk(g, BoxUnit)
  {
    UnitsOkIff(g);
    if FamilyOk(g, RowUnit) && FamilyOk(g, ColumnUnit) && FamilyOk(g, BoxUnit) {
      forall f: Family, u | 0 <= u < 9
        ensures UnitOk(g, f, u)
      {
        match f
        case RowUnit =>
        case ColumnUnit =>
        case BoxUnit =>
      }
    }
  }


  /** Filling an empty cell with a digit that is free there keeps a
      conflict-free grid conflict-free. */
  lemma PlaceKeepsConflictFree(g: Grid, r: int, c: int, n: int)
    requires IsGrid(g) && InBoard(r, c) && ConflictFree(g)
    requires 1 <= n <= 9 && Free(g, r, c, n)
    ensures ConflictFree(Put(g, r, c, n))
  {
    var h := Put(g, r, c, n);
    forall r1, c1 | InBoard(r1, c1)
      ensures !OutOfRange(h[r1][c1])
    {
      assert h[r1][c1] == g[r1][c1] || (r1 == r && c1 == c);
    }
    forall r1, c1 | InBoard(r1, c1) && h[r1][c1] != 0
      ensures PlacementOk(h, r1, c1, h[r1][c1])
    {
      forall r2, c2 | InBoard(r2, c2) && Peers(r1, c1, r2, c2)
        ensures h[r2][c2] != h[r1][c1]
      {
        if r1 == r && c1 == c {
          assert SameUnit(r, c, r2, c2);
        } else if r2 == r && c2 == c {
          assert SameUnit(r, c, r1, c1);
        } else if g[r1][c1] != 0 {
          assert PlacementOk(g, r1, c1, g[r1][c1]);
        }
      }
    }
  }

  /** `verifyGame` blanks a cell before calling `isValid`: with (r, c) set to
      0, a nonzero `v` is free there exactly when no peer holds `v`. */
  lemma FreeWhenBlanked(g: Grid, r: int, c: int, v: int)
    requires IsGrid(g) && InBoard(r, c) && v != 0
    ensures Free(Put(g, r, c, 0), r, c, v) <==> PlacementOk(g, r, c, v)
  {
    var h := Put(g, r, c, 0);
    if PlacementOk(g, r, c, v) {
      forall r2, c2 | InBoard(r2, c2) && SameUnit(r, c, r2, c2)
        ensures h[r2][c2] != v
      {
        if r2 != r || c2 != c {
          assert Peers(r, c, r2, c2);
        }
      }
    }
  }

  // ----- the sparse overlay of the 5-blank solvers -----

  /** `getVirtualVal` / `FlyweightBoard.getValue`: the value of the first
      listed cell equal to (r, c), else the board's own value. */
  function VirtualAt(g: Grid, cells: seq<Pos>, vals: seq<int>, r: int, c: int): int
    requires IsGrid(g) && InBoard(r, c) && |cells| <= |vals|
  {
    if cells == [] then g[r][c]
    else if cells[0] == Pos(r, c) then vals[0]
    else VirtualAt(g, cells[1..], vals[1..], r, c)
  }

  /** The board the overlay stands for, cell by cell. */
  function Overlay(g: Grid, cells: seq<Pos>, vals: seq<int>): (h: Grid)
    requires IsGrid(g) && |cells| <= |vals|
    ensures IsGrid(h)
    ensures forall r, c :: 0 <= r < 9 && 0 <= c < 9 ==> h[r][c] == VirtualAt(g, cells, vals, r, c)
  {
    seq(9, r requires 0 <= r < 9 => seq(9, c requires 0 <= c < 9 => VirtualAt(g, cells, vals, r, c)))
  }

  predicate AllInBoard(cells: seq<Pos>) {
    forall i :: 0 <= i < |cells| ==> InBoard(cells[i].r, cells[i].c)
  }

  predicate Distinct(cells: seq<Pos>) {
    forall i, j :: 0 <= i < j < |cells| ==> cells[i] != cells[j]
  }

  /** The sssoduku copy-and-write overlay: the listed cells are written into
      a copy in list order, so a later entry for the same cell wins. */
  function WriteAll(g: Grid, cells: seq<Pos>, vals: seq<int>): (h: Grid)
    requires IsGrid(g) && AllInBoard(cells) && |cells| <= |vals|
    ensures IsGrid(h)
    decreases |cells|
  {
    if cells == [] then g
    else WriteAll(Put(g, cells[0].r, cells[0].c, vals[0]), cells[1..], vals[1..])
  }

  lemma {:induction false} VirtualAtMissing(g: Grid, cells: seq<Pos>, vals: seq<int>, r: int, c: int)
    requires IsGrid(g) && InBoard(r, c) && |cells| <= |vals| && Pos(r, c) !in cells
    ensures VirtualAt(g, cells, vals, r, c) == g[r][c]
  {
    if cells != [] {
      VirtualAtMissing(g, cells[1..], vals[1..], r, c);
    }
  }

  lemma {:induction false} VirtualAtBase(g: Grid, h: Grid, cells: seq<Pos>, vals: seq<int>, r: int, c: int)
    requires IsGrid(g) && IsGrid(h) && InBoard(r, c) && |cells| <= |vals| && g[r][c] == h[r][c]
    ensures VirtualAt(g, cells, vals, r, c) == VirtualAt(h, cells, vals, r, c)
  {
    if cells != [] && cells[0] != Pos(r, c) {
      VirtualAtBase(g, h, cells[1..], vals[1..], r, c);
    }
  }

  lemma {:induction false} WriteAllAt(g: Grid, cells: seq<Pos>, vals: seq<int>, r: int, c: int)
    requires IsGrid(g) && AllInBoard(cells) && Distinct(cells) && |cells| <= |vals| && InBoard(r, c)
    ensures WriteAll(g, cells, vals)[r][c] == VirtualAt(g, cells, vals, r, c)
    decreases |cells|
  {
    if cells != [] {
      var p := cells[0];
      var g' := Put(g, p.r, p.c, vals[0]);
      WriteAllAt(g', cells[1..], vals[1..], r, c);
      if p == Pos(r, c) {
        assert Pos(r, c) !in cells[1..] by {
          forall i | 0 <= i < |cells[1..]| ensures cells[1..][i] != p {
            assert cells[1..][i] == cells[i + 1];
          }
        }
        VirtualAtMissing(g', cells[1..], vals[1..], r, c);
      } else {
        VirtualAtBase(g', g, cells[1..], vals[1..], r, c);
      }
    }
  }

  /** With distinct cells the first-match overlay and the sequential writes
      give the same board. */
  lemma OverlayIsWriteAll(g: Grid, cells: seq<Pos>, vals: seq<int>)
    requires IsGrid(g) && AllInBoard(cells) && Distinct(cells) && |cells| <= |vals|
    ensures Overlay(g, cells, vals) == WriteAll(g, cells, vals)
  {
    var o, w := Overlay(g, cells, vals), WriteAll(g, cells, vals);
    forall r | 0 <= r < 9
      ensures o[r] == w[r]
    {
      forall c | 0 <= c < 9
        ensures o[r][c] == w[r][c]
      {
        WriteAllAt(g, cells, vals, r, c);
      }
    }
  }

  /** With a repeated cell the two overlays differ: the first entry wins in one,
      the last in the other. */
  lemma OverlayRepeatedCell(g: Grid)
    requires IsGrid(g)
    ensures Overlay(g, [Pos(0, 0), Pos(0, 0)], [1, 2])[0][0] == 1
    ensures WriteAll(g, [Pos(0, 0), Pos(0, 0)], [1, 2])[0][0] == 2
  {
    var cells, vals := [Pos(0, 0), Pos(0, 0)], [1, 2];
    assert cells[1..] == [Pos(0, 0)] && vals[1..] == [2];
    var g1 := Put(g, 0, 0, 1);
    assert WriteAll(g, cells, vals) == WriteAll(g1, [Pos(0, 0)], [2]);
    assert [Pos(0, 0)][1..] == [] && [2][1..] == [];
    assert WriteAll(g1, [Pos(0, 0)], [2]) == WriteAll(Put(g1, 0, 0, 2), [], []);
  }

  /** Overlaying digits on every empty cell leaves no empty cell. */
  lemma OverlayFillsEmpty(g: Grid, vals: seq<int>)
    requires IsGrid(g) && |vals| == |EmptyCells(g)|
    requires forall i :: 0 <= i < |vals| ==> 1 <= vals[i] <= 9
    ensures !HasZero(Overlay(g, EmptyCells(g), vals))
  {
    var h := Overlay(g, EmptyCells(g), vals);
    EmptyCellsSpec(g);
    forall r, c | InBoard(r, c)
      ensures h[r][c] != 0
    {
      if g[r][c] == 0 {
        VirtualAtListed(g, EmptyCells(g), vals, r, c);
      } else {
        assert Pos(r, c) !in EmptyCells(g);
        VirtualAtMissing(g, EmptyCells(g), vals, r, c);
      }
    }
  }

  lemma {:induction false} VirtualAtListed(g: Grid, cells: seq<Pos>, vals: seq<int>, r: int, c: int)
    requires IsGrid(g) && InBoard(r, c) && |cells| <= |vals| && Pos(r, c) in cells
    ensures exists i :: 0 <= i < |cells| && VirtualAt(g, cells, vals, r, c) == vals[i]
  {
    if cells[0] == Pos(r, c) {
      assert VirtualAt(g, cells, vals, r, c) == vals[0];
    } else {
      VirtualAtListed(g, cells[1..], vals[1..], r, c);
      var i :| 0 <= i < |cells[1..]| && VirtualAt(g, cells[1..], vals[1..], r, c) == vals[1..][i];
      assert vals[1..][i] == vals[i + 1];
    }
  }

  /** On a list without repeats, the i-th cell reads the i-th value. */
  lemma {:induction false} VirtualAtIndex(g: Grid, cells: seq<Pos>, vals: seq<int>, i: int)
    requires IsGrid(g) && Distinct(cells) && |cells| <= |vals| && 0 <= i < |cells|
    requires InBoard(cells[i].r, cells[i].c)
    ensures VirtualAt(g, cells, vals, cells[i].r, cells[i].c) == vals[i]
  {
    if i > 0 {
      assert cells[0] != cells[i];
      assert cells[1..][i - 1] == cells[i] && vals[1..][i - 1] == vals[i];
      assert Distinct(cells[1..]) by {
        forall a, b | 0 <= a < b < |cells[1..]|
          ensures cells[1..][a] != cells[1..][b]
        {
          assert cells[1..][a] == cells[a + 1] && cells[1..][b] == cells[b + 1];
        }
      }
      VirtualAtIndex(g, cells[1..], vals[1..], i - 1);
    }
  }

  /** The list of empty cells names board cells, each once. */
  lemma EmptyCellsOnBoard(g: Grid)
    requires IsGrid(g)
    ensures AllInBoard(EmptyCells(g)) && Distinct(EmptyCells(g))
  {
    var e := EmptyCells(g);
    EmptyCellsSpec(g);
    forall a, b | 0 <= a < b < |e|
      ensures e[a] != e[b]
    {
      RowMajorDistinct(e, a, b);
    }
  }

  /** Writing one more listed cell is one more `Put` after the others. */
  lemma {:induction false} WriteAllSnoc(g: Grid, cells: seq<Pos>, vals: seq<int>, p: Pos, v: int)
    requires IsGrid(g) && AllInBoard(cells) && |cells| == |vals| && InBoard(p.r, p.c)
    ensures AllInBoard(cells + [p])
    ensures WriteAll(g, cells + [p], vals + [v]) == Put(WriteAll(g, cells, vals), p.r, p.c, v)
    decreases |cells|
  {
    if cells != [] {
      var g' := Put(g, cells[0].r, cells[0].c, vals[0]);
      assert (cells + [p])[1..] == cells[1..] + [p];
      assert (vals + [v])[1..] == vals[1..] + [v];
      WriteAllSnoc(g', cells[1..], vals[1..], p, v);
    }
  }

  /** Values past the end of the cell list are never written. */
  lemma {:induction false} WriteAllPrefix(g: Grid, cells: seq<Pos>, vals: seq<int>)
    requires IsGrid(g) && AllInBoard(cells) && |cells| <= |vals|
    ensures WriteAll(g, cells, vals) == WriteAll(g, cells, vals[..|cells|])
    decreases |cells|
  {
    if cells != [] {
      assert vals[..|cells|][1..] == vals[1..][..|cells| - 1];
      WriteAllPrefix(Put(g, cells[0].r, cells[0].c, vals[0]), cells[1..], vals[1..]);
    }
  }

  // ----- blanking listed cells (puzzle derivation) -----

  /** The grid with every listed cell set to 0 and the rest kept. */
  function Zeroed(g: Grid, ps: seq<Pos>): (h: Grid)
    requires IsGrid(g)
    ensures IsGrid(h)
    ensures forall r, c :: InBoard(r, c) ==> h[r][c] == if Pos(r, c) in ps then 0 else g[r][c]
  {
    seq(9, r requires 0 <= r < 9 => seq(9, c requires 0 <= c < 9 => if Pos(r, c) in ps then 0 else g[r][c]))
  }

  lemma ZeroedNone(g: Grid)
    requires IsGrid(g)
    ensures Zeroed(g, []) == g
  {
    forall r | 0 <= r < 9
      ensures Zeroed(g, [])[r] == g[r]
    {
    }
  }

  /** Blanking one more listed cell is one more `Put` of 0. */
  lemma ZeroedSnoc(g: Grid, ps: seq<Pos>, p: Pos)
    requires IsGrid(g) && InBoard(p.r, p.c)
    ensures Zeroed(g, ps + [p]) == Put(Zeroed(g, ps), p.r, p.c, 0)
  {
    var a, b := Zeroed(g, ps + [p]), Put(Zeroed(g, ps), p.r, p.c, 0);
    forall r | 0 <= r < 9
      ensures a[r] == b[r]
    {
      forall c | 0 <= c < 9
        ensures a[r][c] == b[r][c]
      {
        assert Pos(r, c) in ps + [p] <==> Pos(r, c) in ps || Pos(r, c) == p;
      }
    }
  }

  /** Blanking distinct cells that all hold a digit removes exactly as many
      cells as are listed. */
  lemma {:induction false} ZeroedCount(g: Grid, ps: seq<Pos>)
    requires IsGrid(g) && AllInBoard(ps) && Distinct(ps)
    requires forall k :: 0 <= k < |ps| ==> g[ps[k].r][ps[k].c] != 0
    ensures Blanked(g, Zeroed(g, ps)) == |ps|
  {
    if ps == [] {
      ZeroedNone(g);
      BlankedSelf(g);
    } else {
      var n := |ps| - 1;
      var p := ps[n];
      ZeroedCount(g, ps[..n]);
      assert ps == ps[..n] + [p];
      ZeroedSnoc(g, ps[..n], p);
      assert p !in ps[..n];
      BlankedBlank(g, Zeroed(g, ps[..n]), p.r, p.c);
    }
  }
}
