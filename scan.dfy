/** The read-only loops over a board that several classes repeat: the
    overlay lookup (`getVirtualVal`, `FlyweightBoard.getValue`), the peer
    test (`isValidPlacement`, `isPossibleVirtual`), the `seen[]` unit scan
    and the three passes of `verifyState` / `FlyweightBoard.isValid`, the
    `isValid` free-digit test, and the row-major collection and count of
    empty cells. A plain board is the overlay with no listed cells. */
module Scans {
  import opened Base
  import opened Rules

  /** With no listed cells the overlay is the board itself. */
  lemma OverlayEmpty(g: Grid)
    requires IsGrid(g)
    ensures Overlay(g, [], []) == g
  {
    var h := Overlay(g, [], []);
    forall r | 0 <= r < 9
      ensures h[r] == g[r]
    {
      forall c | 0 <= c < 9
        ensures h[r][c] == g[r][c]
      {
      }
    }
  }

  /** The box rows (or columns) around x are BoxStart(x) .. BoxStart(x) + 2. */
  lemma SameBoxStart(x: int, y: int)
    requires 0 <= x < 9 && 0 <= y < 9
    ensures BoxStart(x) == 0 || BoxStart(x) == 3 || BoxStart(x) == 6
    ensures BoxStart(x) <= x < BoxStart(x) + 3
    ensures BoxStart(y) == BoxStart(x) <==> BoxStart(x) <= y < BoxStart(x) + 3
  {
  }

  /** The value of (r, c) on the overlaid board: the entry of the first
      listed cell equal to (r, c), else the board's own value. */
  method ValueAt(board: array2<int>, cells: seq<Pos>, vals: seq<int>, r: int, c: int) returns (v: int)
    requires Is9x9(board) && InBoard(r, c) && |cells| <= |vals|
    ensures v == VirtualAt(Cells(board), cells, vals, r, c)
    ensures v == Overlay(Cells(board), cells, vals)[r][c]
  {
    ghost var g := Cells(board);
    var i := 0;
    while i < |cells|
      invariant 0 <= i <= |cells|
      invariant VirtualAt(g, cells, vals, r, c) == VirtualAt(g, cells[i..], vals[i..], r, c)
    {
      if cells[i].r == r && cells[i].c == c {
        return vals[i];
      }
      assert cells[i..][1..] == cells[i + 1..] && vals[i..][1..] == vals[i + 1..];
      i := i + 1;
    }
    return board[r, c];
  }

  /** `val` is at no other cell of row `row` or column `col`. */
  ghost predicate LinesClear(h: Grid, row: int, col: int, val: int)
    requires IsGrid(h) && InBoard(row, col)
  {
    forall x :: 0 <= x < 9 ==> (x != col ==> h[row][x] != val) && (x != row ==> h[x][col] != val)
  }

  /** `val` is at no other cell of the box of (row, col). */
  ghost predicate BoxClear(h: Grid, row: int, col: int, val: int)
    requires IsGrid(h) && InBoard(row, col)
  {
    SameBoxStart(row, row);
    SameBoxStart(col, col);
    forall r2, c2 :: BoxStart(row) <= r2 < BoxStart(row) + 3 && BoxStart(col) <= c2 < BoxStart(col) + 3 && (r2 != row || c2 != col) ==> h[r2][c2] != val
  }

  /** A placement is clear of its peers exactly when it is clear of both
      lines and of the box. */
  lemma PlacementParts(h: Grid, row: int, col: int, val: int)
    requires IsGrid(h) && InBoard(row, col)
    ensures PlacementOk(h, row, col, val) <==> LinesClear(h, row, col, val) && BoxClear(h, row, col, val)
  {
    SameBoxStart(row, row);
    SameBoxStart(col, col);
    if LinesClear(h, row, col, val) && BoxClear(h, row, col, val) {
      forall r2, c2 | InBoard(r2, c2) && Peers(row, col, r2, c2)
        ensures h[r2][c2] != val
      {
        if r2 != row && c2 != col {
          SameBoxStart(row, r2);
          SameBoxStart(col, c2);
        }
      }
    }
    if PlacementOk(h, row, col, val) {
      forall x | 0 <= x < 9
        ensures (x != col ==> h[row][x] != val) && (x != row ==> h[x][col] != val)
      {
        assert x != col ==> Peers(row, col, row, x);
        assert x != row ==> Peers(row, col, x, col);
      }
      forall r2, c2 | BoxStart(row) <= r2 < BoxStart(row) + 3 && BoxStart(col) <= c2 < BoxStart(col) + 3 && (r2 != row || c2 != col)
        ensures h[r2][c2] != val
      {
        SameBoxStart(row, r2);
        SameBoxStart(col, c2);
        assert Peers(row, col, r2, c2);
      }
    }
  }

  /** The row-and-column loop of `isValidPlacement` / `isPossibleVirtual`. */
  method LinesAvoid(board: array2<int>, cells: seq<Pos>, vals: seq<int>, row: int, col: int, val: int) returns (b: bool)
    requires Is9x9(board) && InBoard(row, col) && |cells| <= |vals|
    ensures b == LinesClear(Overlay(Cells(board), cells, vals), row, col, val)
  {
    ghost var h := Overlay(Cells(board), cells, vals);
    var i := 0;
    while i < 9
      invariant 0 <= i <= 9
      invariant forall x :: 0 <= x < i ==> (x != col ==> h[row][x] != val) && (x != row ==> h[x][col] != val)
    {
      var v := ValueAt(board, cells, vals, row, i);
      if i != col && v == val {
        return false;
      }
      v := ValueAt(board, cells, vals, i, col);
      if i != row && v == val {
        return false;
      }
      i := i + 1;
    }
    return true;
  }

  /** Row `r2` of the box, columns `sc` to `sc + 2`, holds `val` nowhere but
      at (row, col). */
  ghost predicate BoxRowClear(h: Grid, row: int, col: int, val: int, r2: int, sc: int)
    requires IsGrid(h) && 0 <= r2 < 9 && 0 <= sc <= 6
  {
    forall c2 :: sc <= c2 < sc + 3 && (r2 != row || c2 != col) ==> h[r2][c2] != val
  }

  /** The inner loop of the box check, over one row of the box. */
  method BoxRowAvoid(board: array2<int>, cells: seq<Pos>, vals: seq<int>, row: int, col: int, val: int, r2: int, sc: int)
    returns (b: bool)
    requires Is9x9(board) && 0 <= r2 < 9 && 0 <= sc <= 6 && |cells| <= |vals|
    ensures b == BoxRowClear(Overlay(Cells(board), cells, vals), row, col, val, r2, sc)
  {
    ghost var h := Overlay(Cells(board), cells, vals);
    var j := 0;
    while j < 3
      invariant 0 <= j <= 3
      invariant forall c2 :: sc <= c2 < sc + j && (r2 != row || c2 != col) ==> h[r2][c2] != val
    {
      var v := ValueAt(board, cells, vals, r2, sc + j);
      if (r2 != row || sc + j != col) && v == val {
        return false;
      }
      j := j + 1;
    }
    return true;
  }

  /** The box loop of `isValidPlacement` / `isPossibleVirtual`. */
  method BoxAvoid(board: array2<int>, cells: seq<Pos>, vals: seq<int>, row: int, col: int, val: int) returns (b: bool)
    requires Is9x9(board) && InBoard(row, col) && |cells| <= |vals|
    ensures b == BoxClear(Overlay(Cells(board), cells, vals), row, col, val)
  {
    ghost var h := Overlay(Cells(board), cells, vals);
    var sr, sc := row - row % 3, col - col % 3;
    SameBoxStart(row, row);
    SameBoxStart(col, col);
    var i := 0;
    while i < 3
      invariant 0 <= i <= 3
      invariant forall r2 :: sr <= r2 < sr + i ==> BoxRowClear(h, row, col, val, r2, sc)
    {
      b := BoxRowAvoid(board, cells, vals, row, col, val, sr + i, sc);
      if !b {
        return false;
      }
      i := i + 1;
    }
    assert forall r2, c2 :: sr <= r2 < sr + 3 && sc <= c2 < sc + 3 && (r2 != row || c2 != col) ==> h[r2][c2] != val by {
      forall r2, c2 | sr <= r2 < sr + 3 && sc <= c2 < sc + 3 && (r2 != row || c2 != col)
        ensures h[r2][c2] != val
      {
        assert BoxRowClear(h, row, col, val, r2, sc);
      }
    }
    return true;
  }

  /** `isValidPlacement` / `isPossibleVirtual`: `val` is at no other cell of
      the row, the column or the box of (row, col) on the overlaid board. */
  method PeersAvoid(board: array2<int>, cells: seq<Pos>, vals: seq<int>, row: int, col: int, val: int) returns (b: bool)
    requires Is9x9(board) && InBoard(row, col) && |cells| <= |vals|
    ensures b == PlacementOk(Overlay(Cells(board), cells, vals), row, col, val)
  {
    PlacementParts(Overlay(Cells(board), cells, vals), row, col, val);
    b := LinesAvoid(board, cells, vals, row, col, val);
    if b {
      b := BoxAvoid(board, cells, vals, row, col, val);
    }
  }

  /** `Controller.isValid`: `num` is nowhere in the row, the column or the
      box of (row, col), the cell itself included. */
  method Free(grid: array2<int>, row: int, col: int, num: int) returns (b: bool)
    requires Is9x9(grid) && InBoard(row, col)
    ensures b == Rules.Free(Cells(grid), row, col, num)
  {
    ghost var g := Cells(grid);
    var x := 0;
    while x < 9
      invariant 0 <= x <= 9
      invariant forall y :: 0 <= y < x ==> g[row][y] != num
    {
      if grid[row, x] == num {
        assert SameUnit(row, col, row, x);
        return false;
      }
      x := x + 1;
    }
    x := 0;
    while x < 9
      invariant 0 <= x <= 9
      invariant forall y :: 0 <= y < x ==> g[y][col] != num
    {
      if grid[x, col] == num {
        assert SameUnit(row, col, x, col);
        return false;
      }
      x := x + 1;
    }
    var sr, sc := row - row % 3, col - col % 3;
    SameBoxStart(row, row);
    SameBoxStart(col, col);
    var i := 0;
    while i < 3
      invariant 0 <= i <= 3
      invariant forall r2, c2 :: sr <= r2 < sr + i && sc <= c2 < sc + 3 ==> g[r2][c2] != num
    {
      var j := 0;
      while j < 3
        invariant 0 <= j <= 3
        invariant forall r2, c2 :: sr <= r2 < sr + i && sc <= c2 < sc + 3 ==> g[r2][c2] != num
        invariant forall r2, c2 :: r2 == sr + i && sc <= c2 < sc + j ==> g[r2][c2] != num
      {
        if grid[sr + i, sc + j] == num {
          SameBoxStart(row, sr + i);
          SameBoxStart(col, sc + j);
          assert SameUnit(row, col, sr + i, sc + j);
          return false;
        }
        j := j + 1;
      }
      i := i + 1;
    }
    forall r2, c2 | InBoard(r2, c2) && SameUnit(row, col, r2, c2)
      ensures g[r2][c2] != num
    {
      if r2 != row && c2 != col {
        SameBoxStart(row, r2);
        SameBoxStart(col, c2);
      }
    }
    b := true;
  }

  /** The nine values of a unit, in scan order. */
  function UnitValues(g: Grid, f: Family, u: int): (vs: seq<int>)
    requires IsGrid(g) && 0 <= u < 9
    ensures |vs| == 9 && forall k :: 0 <= k < 9 ==> vs[k] == UnitValue(g, f, u, k)
  {
    seq(9, k requires 0 <= k < 9 => UnitValue(g, f, u, k))
  }

  /** What a `seen[]` scan accepts: no value outside 0..9 and no nonzero
      value twice. */
  predicate SeenOk(vs: seq<int>) {
    && (forall k :: 0 <= k < |vs| ==> !OutOfRange(vs[k]))
    && (forall k, k2 :: 0 <= k < k2 < |vs| && vs[k] != 0 ==> vs[k] != vs[k2])
  }

  lemma SeenOkUnit(g: Grid, f: Family, u: int)
    requires IsGrid(g) && 0 <= u < 9
    ensures SeenOk(UnitValues(g, f, u)) <==> UnitOk(g, f, u)
  {
  }

  lemma SeenOkExtend(vs: seq<int>, v: int)
    requires SeenOk(vs) && 1 <= v <= 9 && v !in vs
    ensures SeenOk(vs + [v])
  {
  }

  lemma SeenOkZero(vs: seq<int>)
    requires SeenOk(vs)
    ensures SeenOk(vs + [0])
  {
  }

  lemma TakeOneMore(vs: seq<int>, k: int)
    requires 0 <= k < |vs|
    ensures vs[..k + 1] == vs[..k] + [vs[k]]
  {
  }

  /** A value out of range, or a nonzero value met twice, fails the unit. */
  lemma SeenBad(vs: seq<int>, k1: int, k: int)
    requires 0 <= k1 <= k < |vs|
    requires OutOfRange(vs[k]) || (k1 < k && vs[k1] == vs[k] != 0)
    ensures !SeenOk(vs)
  {
  }

  /** A nonzero value already met earlier in the unit fails it. */
  lemma SeenDup(vs: seq<int>, k: int)
    requires 0 <= k < |vs| && vs[k] != 0 && vs[k] in vs[..k]
    ensures !SeenOk(vs)
  {
    var k1 :| 0 <= k1 < k && vs[..k][k1] == vs[k];
    SeenBad(vs, k1, k);
  }

  lemma SeenOkPrefix(vs: seq<int>, k: int)
    requires 0 <= k <= |vs| && SeenOk(vs)
    ensures SeenOk(vs[..k])
  {
  }

  /** One `seen[]` pass over unit u of family f of the overlaid board: skip
      zeros, reject a value outside 1..9 or one already seen. `zero` says,
      when the unit passes, whether it holds a 0. */
  method ScanUnit(board: array2<int>, cells: seq<Pos>, vals: seq<int>, f: Family, u: int) returns (ok: bool, zero: bool)
    requires Is9x9(board) && |cells| <= |vals| && 0 <= u < 9
    ensures ok == UnitOk(Overlay(Cells(board), cells, vals), f, u)
    ensures ok ==> (zero <==> 0 in UnitValues(Overlay(Cells(board), cells, vals), f, u))
  {
    ghost var h := Overlay(Cells(board), cells, vals);
    ghost var all := UnitValues(h, f, u);
    SeenOkUnit(h, f, u);
    var seen := new bool[10](_ => false);
    zero := false;
    var k := 0;
    while k < 9
      invariant 0 <= k <= 9
      invariant forall d :: 1 <= d <= 9 ==> (seen[d] <==> d in all[..k])
      invariant SeenOk(all[..k])
      invariant zero <==> 0 in all[..k]
    {
      var p := UnitCell(f, u, k);
      var v := ValueAt(board, cells, vals, p.r, p.c);
      assert v == all[k];
      TakeOneMore(all, k);
      if v == 0 {
        SeenOkZero(all[..k]);
        zero := true;
      } else if v < 1 || v > 9 {
        SeenBad(all, k, k);
        return false, zero;
      } else if seen[v] {
        SeenDup(all, k);
        return false, zero;
      } else {
        SeenOkExtend(all[..k], v);
        seen[v] := true;
      }
      k := k + 1;
    }
    assert all[..9] == all;
    return true, zero;
  }

  /** A 0 in some unit is a 0 of the board. */
  lemma UnitZero(g: Grid, f: Family, u: int)
    requires IsGrid(g) && 0 <= u < 9 && 0 in UnitValues(g, f, u)
    ensures HasZero(g)
  {
    var k :| 0 <= k < 9 && UnitValues(g, f, u)[k] == 0;
    var p := UnitCell(f, u, k);
    assert g[p.r][p.c] == 0;
  }

  /** The board has a 0 exactly when one of the rows before `n` does, for n = 9. */
  lemma RowZeros(g: Grid)
    requires IsGrid(g)
    ensures HasZero(g) <==> exists r :: 0 <= r < 9 && 0 in UnitValues(g, RowUnit, r)
  {
    if HasZero(g) {
      var r, c :| InBoard(r, c) && g[r][c] == 0;
      assert UnitValues(g, RowUnit, r)[c] == 0;
    }
  }

  /** The nine units of one family in order (for boxes: `br` then `bc`,
      unit 3 * br + bc), stopping at the first that fails. */
  method Pass(board: array2<int>, cells: seq<Pos>, vals: seq<int>, f: Family) returns (ok: bool, zero: bool)
    requires Is9x9(board) && |cells| <= |vals|
    ensures ok == FamilyOk(Overlay(Cells(board), cells, vals), f)
    ensures ok ==> (zero <==> exists u :: 0 <= u < 9 && 0 in UnitValues(Overlay(Cells(board), cells, vals), f, u))
  {
    ghost var h := Overlay(Cells(board), cells, vals);
    zero := false;
    var u := 0;
    while u < 9
      invariant 0 <= u <= 9
      invariant forall u2 :: 0 <= u2 < u ==> UnitOk(h, f, u2)
      invariant zero <==> exists u2 :: 0 <= u2 < u && 0 in UnitValues(h, f, u2)
    {
      var pass, z := ScanUnit(board, cells, vals, f, u);
      if !pass {
        return false, zero;
      }
      zero := zero || z;
      u := u + 1;
    }
    assert h == Overlay(Cells(board), cells, vals);
    return true, zero;
  }

  /** The rows, then the columns, then the boxes of the overlaid board.
      `ok` is false as soon as one unit fails; when all pass, `hasZero` says
      whether a 0 was met. */
  method ThreePass(board: array2<int>, cells: seq<Pos>, vals: seq<int>) returns (ok: bool, hasZero: bool)
    requires Is9x9(board) && |cells| <= |vals|
    ensures ok == ConflictFree(Overlay(Cells(board), cells, vals))
    ensures ok ==> hasZero == HasZero(Overlay(Cells(board), cells, vals))
  {
    ghost var h := Overlay(Cells(board), cells, vals);
    FamiliesOk(h);
    RowZeros(h);
    var z: bool;
    ok, hasZero := Pass(board, cells, vals, RowUnit);
    if !ok {
      return;
    }
    ok, z := Pass(board, cells, vals, ColumnUnit);
    if !ok {
      return;
    }
    ok, z := Pass(board, cells, vals, BoxUnit);
  }

  /** The `emptyCells` loop: every 0 cell, in row-major order. */
  method CollectEmpty(board: array2<int>) returns (cells: seq<Pos>)
    requires Is9x9(board)
    ensures cells == EmptyCells(Cells(board))
  {
    ghost var g := Cells(board);
    cells := [];
    ZerosStart(g);
    var r := 0;
    while r < 9
      invariant 0 <= r <= 9
      invariant cells == ZerosBefore(g, r, 0)
    {
      var c := 0;
      while c < 9
        invariant 0 <= c <= 9
        invariant cells == ZerosBefore(g, r, c)
      {
        ZerosStep(g, r, c);
        if board[r, c] == 0 {
          cells := cells + [Pos(r, c)];
        }
        c := c + 1;
      }
      ZerosWrap(g, r);
      r := r + 1;
    }
  }

  /** The counting loop of `countEmptyCells` / `getRemainingCells`. */
  method CountEmpty(board: array2<int>) returns (n: int)
    requires Is9x9(board)
    ensures n == ZeroCount(Cells(board))
  {
    ghost var g := Cells(board);
    n := 0;
    ZerosStart(g);
    var r := 0;
    while r < 9
      invariant 0 <= r <= 9
      invariant n == |ZerosBefore(g, r, 0)|
    {
      var c := 0;
      while c < 9
        invariant 0 <= c <= 9
        invariant n == |ZerosBefore(g, r, c)|
      {
        ZerosStep(g, r, c);
        if board[r, c] == 0 {
          n := n + 1;
        }
        c := c + 1;
      }
      ZerosWrap(g, r);
      r := r + 1;
    }
  }

  /** The write loop `board[cell[0]][cell[1]] = vals[i]` over the first n
      listed cells, in list order. */
  method WriteCells(board: array2<int>, cells: seq<Pos>, vals: seq<int>, n: int)
    requires Is9x9(board) && 0 <= n <= |cells| && n <= |vals| && AllInBoard(cells[..n])
    modifies board
    ensures Cells(board) == WriteAll(old(Cells(board)), cells[..n], vals[..n])
  {
    ghost var g := Cells(board);
    var i := 0;
    while i < n
      invariant 0 <= i <= n
      invariant AllInBoard(cells[..i])
      invariant Cells(board) == WriteAll(g, cells[..i], vals[..i])
    {
      assert cells[..n][i] == cells[i];
      WriteAllSnoc(g, cells[..i], vals[..i], cells[i], vals[i]);
      Write(board, cells[i].r, cells[i].c, vals[i]);
      assert cells[..i + 1] == cells[..i] + [cells[i]];
      assert vals[..i + 1] == vals[..i] + [vals[i]];
      i := i + 1;
    }
  }
}
