/** Shared vocabulary of both engines: the 9x9 grid as a value, its row-major
    geometry, the error kinds the engines throw, the snapshot of a Java
    `int[9][9]` (modelled as `array2<int>`) and a replayable random source. */
module Base {

  datatype Option<T> = None | Some(value: T)

  /** The exceptions the engines throw, by kind. */
  datatype Error =
    | InvalidDifficulty      // unrecognised level character
    | SourceInvalid          // a source solution that is not VALID
    | UnsupportedCellCount   // solver called without exactly 5 empty cells
    | NoSolution             // the 9^5 scan found nothing
    | NoSuchElement          // `next()` on an exhausted iterator
    | Malformed              // a text record or line that does not parse
    | NotFound               // no stored game for the requested level
    | OutOfBounds            // an array index outside the board
    | InvalidSave            // a save file whose section headers are wrong
    | NullPointer            // a field read before any game was set up

  datatype Result<T> = Ok(value: T) | Err(error: Error)

  /** A cell coordinate, `int[]{row, col}` in the source. */
  datatype Pos = Pos(r: int, c: int)

  /** A board as a value: 9 rows of 9 integers, 0 for an empty cell. */
  type Grid = seq<seq<int>>

  predicate InBoard(r: int, c: int) { 0 <= r < 9 && 0 <= c < 9 }

  predicate IsGrid<T>(g: seq<seq<T>>) {
    |g| == 9 && forall r :: 0 <= r < 9 ==> |g[r]| == 9
  }

  predicate Is9x9<T>(a: array2<T>) { a.Length0 == 9 && a.Length1 == 9 }

  /** The contents of a 9x9 array, row by row. */
  function Cells<T>(a: array2<T>): (g: seq<seq<T>>)
    requires Is9x9(a)
    reads a
    ensures IsGrid(g)
    ensures forall r, c :: 0 <= r < 9 && 0 <= c < 9 ==> g[r][c] == a[r, c]
  {
    RowsOf(a, a.Length0)
  }

  /** The first n rows of a 9x9 array. */
  function RowsOf<T>(a: array2<T>, n: int): (g: seq<seq<T>>)
    requires Is9x9(a) && 0 <= n <= 9
    reads a
    ensures |g| == n && forall r :: 0 <= r < n ==> |g[r]| == 9
    ensures forall r, c :: 0 <= r < n && 0 <= c < 9 ==> g[r][c] == a[r, c]
  {
    if n == 0 then [] else RowsOf(a, n - 1) + [RowOf(a, n - 1, a.Length1)]
  }

  /** The first n cells of row r of a 9x9 array. */
  function RowOf<T>(a: array2<T>, r: int, n: int): (s: seq<T>)
    requires Is9x9(a) && 0 <= r < 9 && 0 <= n <= 9
    reads a
    ensures |s| == n && forall c :: 0 <= c < n ==> s[c] == a[r, c]
  {
    if n == 0 then [] else RowOf(a, r, n - 1) + [a[r, n - 1]]
  }

  /** The grid `g` with cell (r, c) replaced by `v`. */
  function Put<T>(g: seq<seq<T>>, r: int, c: int, v: T): (h: seq<seq<T>>)
    requires IsGrid(g) && InBoard(r, c)
    ensures IsGrid(h)
  {
    g[r := g[r][c := v]]
  }

  /** A prefix one longer is the prefix and the next element. */
  lemma TakeSnoc<T>(s: seq<T>, n: int)
    requires 0 < n <= |s|
    ensures s[..n] == s[..n - 1] + [s[n - 1]]
  {
  }

  /** Writing back a cell's old value undoes a write. */
  lemma PutRestore<T>(g: seq<seq<T>>, r: int, c: int, v: T)
    requires IsGrid(g) && InBoard(r, c)
    ensures Put(Put(g, r, c, v), r, c, g[r][c]) == g
  {
    var h := Put(Put(g, r, c, v), r, c, g[r][c]);
    forall i | 0 <= i < 9
      ensures h[i] == g[i]
    {
    }
  }

  /** Writes one cell; the new contents are the old ones with that cell replaced. */
  method Write<T>(a: array2<T>, r: int, c: int, v: T)
    requires Is9x9(a) && InBoard(r, c)
    modifies a
    ensures Cells(a) == Put(old(Cells(a)), r, c, v)
  {
    ghost var before := Cells(a);
    a[r, c] := v;
    forall i | 0 <= i < 9
      ensures Cells(a)[i] == Put(before, r, c, v)[i]
    {
    }
  }

  /** `System.arraycopy` row by row into a fresh `new int[9][9]`. */
  method CopyBoard<T(0)>(src: array2<T>) returns (dst: array2<T>)
    requires Is9x9(src)
    ensures fresh(dst) && Is9x9(dst)
    ensures Cells(dst) == Cells(src)
  {
    dst := new T[9, 9];
    for i := 0 to 9
      invariant forall r, c :: 0 <= r < i && 0 <= c < 9 ==> dst[r, c] == src[r, c]
    {
      for j := 0 to 9
        invariant forall r, c :: 0 <= r < i && 0 <= c < 9 ==> dst[r, c] == src[r, c]
        invariant forall c :: 0 <= c < j ==> dst[i, c] == src[i, c]
      {
        dst[i, j] := src[i, j];
      }
    }
    forall i | 0 <= i < 9
      ensures Cells(dst)[i] == Cells(src)[i]
    {
    }
  }

  /** A fresh `new T[9][9]` holding the cells of a grid value. */
  method FromGrid<T(0)>(g: seq<seq<T>>) returns (a: array2<T>)
    requires IsGrid(g)
    ensures fresh(a) && Is9x9(a)
    ensures Cells(a) == g
  {
    a := new T[9, 9]((i, j) requires 0 <= i < 9 && 0 <= j < 9 => g[i][j]);
    forall i | 0 <= i < 9
      ensures Cells(a)[i] == g[i]
    {
    }
  }

  // ----- row-major order -----

  /** `p` comes strictly before `q` in row-major order. */
  predicate Precedes(p: Pos, q: Pos) { p.r < q.r || (p.r == q.r && p.c < q.c) }

  /** Strictly increasing in row-major order, hence without repetition. */
  predicate RowMajor(s: seq<Pos>) {
    forall i, j :: 0 <= i < j < |s| ==> Precedes(s[i], s[j])
  }

  /** A sorted list holds no position twice. */
  lemma RowMajorDistinct(s: seq<Pos>, i: int, j: int)
    requires RowMajor(s) && 0 <= i < |s| && 0 <= j < |s| && i != j
    ensures s[i] != s[j]
  {
    if i < j {
      assert Precedes(s[i], s[j]);
    } else {
      assert Precedes(s[j], s[i]);
    }
  }

  /** Cursor (i, j) is a position of the row-major scan: (9, 0) is the end. */
  predicate Cursor(i: int, j: int) { 0 <= i <= 9 && 0 <= j <= 9 && (i == 9 ==> j == 0) }

  /** A per-cell flag, row by row. */
  type Mask = seq<seq<bool>>

  /** The flagged cells of one row, as positions of row r, left to right. */
  function RowListed(row: seq<bool>, r: int): seq<Pos>
  {
    if row == [] then []
    else RowListed(row[..|row| - 1], r) + (if row[|row| - 1] then [Pos(r, |row| - 1)] else [])
  }

  /** The flagged cells of a list of rows, row by row. */
  function RowsListed(rows: seq<seq<bool>>): seq<Pos>
  {
    if rows == [] then [] else RowsListed(rows[..|rows| - 1]) + RowListed(rows[|rows| - 1], |rows| - 1)
  }

  /** The flagged cells that precede cursor (i, j), in row-major order. */
  function Listed(m: Mask, i: int, j: int): seq<Pos>
    requires IsGrid(m) && Cursor(i, j)
  {
    if i == 9 then RowsListed(m) else RowsListed(m[..i]) + RowListed(m[i][..j], i)
  }

  /** The scan starts with nothing listed. */
  lemma ListedStart(m: Mask)
    requires IsGrid(m)
    ensures Listed(m, 0, 0) == []
  {
    assert m[..0] == [] && m[0][..0] == [];
  }

  /** One step of the scan along a row lists the cell it passes when flagged. */
  lemma ListedStep(m: Mask, i: int, j: int)
    requires IsGrid(m) && 0 <= i < 9 && 0 <= j < 9
    ensures Listed(m, i, j + 1) == Listed(m, i, j) + (if m[i][j] then [Pos(i, j)] else [])
  {
    assert m[i][..j + 1][..j] == m[i][..j];
  }

  /** The end of a row is the start of the next. */
  lemma ListedWrap(m: Mask, i: int)
    requires IsGrid(m) && 0 <= i < 9
    ensures Listed(m, i + 1, 0) == Listed(m, i, 9)
  {
    assert m[..i + 1][..i] == m[..i];
    assert m[i][..9] == m[i];
    if i + 1 == 9 {
      assert m[..9] == m;
    } else {
      assert m[i + 1][..0] == [];
    }
  }

  /** All flagged cells, in row-major order. */
  function AllListed(m: Mask): seq<Pos>
    requires IsGrid(m)
  {
    Listed(m, |m|, 0)
  }

  lemma {:induction false} ListedSorted(m: Mask, i: int, j: int)
    requires IsGrid(m) && Cursor(i, j)
    ensures RowMajor(Listed(m, i, j))
    ensures forall k :: 0 <= k < |Listed(m, i, j)| ==>
      var p := Listed(m, i, j)[k]; InBoard(p.r, p.c) && m[p.r][p.c] && Precedes(p, Pos(i, j))
    decreases i, j
  {
    if j == 0 {
      if i > 0 {
        ListedSorted(m, i - 1, 9);
        ListedWrap(m, i - 1);
      } else {
        ListedStart(m);
      }
    } else {
      ListedSorted(m, i, j - 1);
      ListedStep(m, i, j - 1);
      if m[i][j - 1] {
        SnocSorted(Listed(m, i, j - 1), Pos(i, j - 1), Pos(i, j));
      }
    }
  }

  /** Appending a position after every listed one keeps the list sorted. */
  lemma SnocSorted(s: seq<Pos>, p: Pos, q: Pos)
    requires RowMajor(s) && forall k :: 0 <= k < |s| ==> Precedes(s[k], p)
    requires Precedes(p, q)
    ensures RowMajor(s + [p])
    ensures forall k :: 0 <= k < |s + [p]| ==> Precedes((s + [p])[k], q)
  {
  }

  lemma {:induction false} ListedComplete(m: Mask, i: int, j: int)
    requires IsGrid(m) && Cursor(i, j)
    ensures forall r, c :: InBoard(r, c) && m[r][c] && Precedes(Pos(r, c), Pos(i, j)) ==>
      Pos(r, c) in Listed(m, i, j)
    decreases i, j
  {
    if j == 0 {
      if i > 0 {
        ListedComplete(m, i - 1, 9);
        ListedWrap(m, i - 1);
      }
    } else {
      ListedComplete(m, i, j - 1);
      ListedStep(m, i, j - 1);
      var s := Listed(m, i, j - 1);
      var x := if m[i][j - 1] then [Pos(i, j - 1)] else [];
      forall r, c | InBoard(r, c) && m[r][c] && Precedes(Pos(r, c), Pos(i, j))
        ensures Pos(r, c) in s + x
      {
        if Precedes(Pos(r, c), Pos(i, j - 1)) {
          assert Pos(r, c) in s;
        } else {
          assert r == i && c == j - 1;
          assert Pos(r, c) in x;
        }
      }
    }
  }

  /** The list holds exactly the flagged cells before the cursor, in order. */
  lemma ListedSpec(m: Mask, i: int, j: int)
    requires IsGrid(m) && Cursor(i, j)
    ensures RowMajor(Listed(m, i, j))
    ensures forall k :: 0 <= k < |Listed(m, i, j)| ==>
      var p := Listed(m, i, j)[k]; InBoard(p.r, p.c) && m[p.r][p.c] && Precedes(p, Pos(i, j))
    ensures forall r, c :: InBoard(r, c) && m[r][c] && Precedes(Pos(r, c), Pos(i, j)) ==>
      Pos(r, c) in Listed(m, i, j)
  {
    ListedSorted(m, i, j);
    ListedComplete(m, i, j);
  }

  /** The whole list holds exactly the flagged cells, in row-major order. */
  lemma AllListedSpec(m: Mask)
    requires IsGrid(m)
    ensures RowMajor(AllListed(m))
    ensures forall k :: 0 <= k < |AllListed(m)| ==>
      InBoard(AllListed(m)[k].r, AllListed(m)[k].c) && m[AllListed(m)[k].r][AllListed(m)[k].c]
    ensures forall r, c :: InBoard(r, c) && m[r][c] ==> Pos(r, c) in AllListed(m)
  {
    ListedSpec(m, 9, 0);
  }

  /** A mask with no flag lists nothing, and a mask with a flag lists something. */
  lemma AllListedEmpty(m: Mask)
    requires IsGrid(m)
    ensures AllListed(m) == [] <==> forall r, c :: 0 <= r < 9 && 0 <= c < 9 ==> !m[r][c]
  {
    AllListedSpec(m);
    if AllListed(m) != [] {
      var p := AllListed(m)[0];
      assert InBoard(p.r, p.c) && m[p.r][p.c];
    }
  }

  /** Scanning on from a cursor only appends to the list. */
  lemma {:induction false} ListedPrefix(m: Mask, i: int, j: int, i2: int, j2: int)
    requires IsGrid(m) && Cursor(i, j) && Cursor(i2, j2)
    requires i < i2 || (i == i2 && j <= j2)
    ensures Listed(m, i, j) <= Listed(m, i2, j2)
    decreases i2, j2
  {
    if i == i2 && j == j2 {
    } else if j2 == 0 {
      ListedWrap(m, i2 - 1);
      if i == i2 - 1 && j == 9 {
      } else {
        ListedPrefix(m, i, j, i2 - 1, 9);
      }
    } else {
      ListedStep(m, i2, j2 - 1);
      ListedPrefix(m, i, j, i2, j2 - 1);
    }
  }

  /** A flagged cell with nothing flagged before it heads the whole list. */
  lemma ListedFirst(m: Mask, r: int, c: int)
    requires IsGrid(m) && InBoard(r, c) && m[r][c] && Listed(m, r, c) == []
    ensures |AllListed(m)| > 0 && AllListed(m)[0] == Pos(r, c)
  {
    ListedStep(m, r, c);
    assert Listed(m, r, c + 1) == [Pos(r, c)];
    ListedPrefix(m, r, c + 1, 9, 0);
  }

  /** Nothing is listed before a cursor that every flagged cell follows. */
  lemma {:induction false} ListedNoneBefore(m: Mask, i: int, j: int)
    requires IsGrid(m) && Cursor(i, j)
    requires forall r, c :: InBoard(r, c) && Precedes(Pos(r, c), Pos(i, j)) ==> !m[r][c]
    ensures Listed(m, i, j) == []
    decreases i, j
  {
    if j == 0 {
      if i > 0 {
        ListedNoneBefore(m, i - 1, 9);
        ListedWrap(m, i - 1);
      } else {
        ListedStart(m);
      }
    } else {
      ListedNoneBefore(m, i, j - 1);
      ListedStep(m, i, j - 1);
      assert !m[i][j - 1];
    }
  }

  /** Raise the flag of cell (r, c). */
  function Flag(m: Mask, r: int, c: int): (m2: Mask)
    requires IsGrid(m) && InBoard(r, c)
    ensures IsGrid(m2)
  {
    m[r := m[r][c := true]]
  }

  lemma {:induction false} ListedFlag(m: Mask, r: int, c: int, i: int, j: int)
    requires IsGrid(m) && InBoard(r, c) && !m[r][c] && Cursor(i, j)
    ensures |Listed(Flag(m, r, c), i, j)| ==
      |Listed(m, i, j)| + (if Precedes(Pos(r, c), Pos(i, j)) then 1 else 0)
    decreases i, j
  {
    if j == 0 {
      if i > 0 {
        ListedFlag(m, r, c, i - 1, 9);
        ListedWrap(m, i - 1);
        ListedWrap(Flag(m, r, c), i - 1);
      } else {
        ListedStart(m);
        ListedStart(Flag(m, r, c));
      }
    } else {
      ListedFlag(m, r, c, i, j - 1);
      ListedStep(m, i, j - 1);
      ListedStep(Flag(m, r, c), i, j - 1);
    }
  }

  /** Raising one flag lengthens the whole list by exactly one. */
  lemma AllListedFlag(m: Mask, r: int, c: int)
    requires IsGrid(m) && InBoard(r, c) && !m[r][c]
    ensures |AllListed(Flag(m, r, c))| == |AllListed(m)| + 1
  {
    ListedFlag(m, r, c, 9, 0);
  }

  // ----- empty cells -----

  function ZeroMask(g: Grid): (m: Mask)
    requires IsGrid(g)
    ensures IsGrid(m)
    ensures forall r, c :: 0 <= r < 9 && 0 <= c < 9 ==> (m[r][c] <==> g[r][c] == 0)
  {
    seq(9, r requires 0 <= r < 9 => seq(9, c requires 0 <= c < 9 => g[r][c] == 0))
  }

  /** The empty cells that precede cursor (i, j), in row-major order. */
  function ZerosBefore(g: Grid, i: int, j: int): seq<Pos>
    requires IsGrid(g) && Cursor(i, j)
  {
    Listed(ZeroMask(g), i, j)
  }

  /** The row-major scan for 0 cells, one cell at a time. */
  lemma ZerosStep(g: Grid, i: int, j: int)
    requires IsGrid(g) && 0 <= i < 9 && 0 <= j < 9
    ensures ZerosBefore(g, i, j + 1) == ZerosBefore(g, i, j) + (if g[i][j] == 0 then [Pos(i, j)] else [])
  {
    ListedStep(ZeroMask(g), i, j);
  }

  lemma ZerosWrap(g: Grid, i: int)
    requires IsGrid(g) && 0 <= i < 9
    ensures ZerosBefore(g, i + 1, 0) == ZerosBefore(g, i, 9)
  {
    ListedWrap(ZeroMask(g), i);
  }

  lemma ZerosStart(g: Grid)
    requires IsGrid(g)
    ensures ZerosBefore(g, 0, 0) == []
  {
    ListedStart(ZeroMask(g));
  }

  /** The `emptyCells` list every solver builds: all 0 cells, row-major. */
  function EmptyCells(g: Grid): seq<Pos>
    requires IsGrid(g)
  {
    AllListed(ZeroMask(g))
  }

  /** Number of empty cells (`countEmptyCells`, `getRemainingCells`). */
  function ZeroCount(g: Grid): nat
    requires IsGrid(g)
  {
    |EmptyCells(g)|
  }

  /** The list of empty cells holds exactly the 0 cells, in row-major order. */
  lemma EmptyCellsSpec(g: Grid)
    requires IsGrid(g)
    ensures RowMajor(EmptyCells(g))
    ensures forall k :: 0 <= k < |EmptyCells(g)| ==>
      InBoard(EmptyCells(g)[k].r, EmptyCells(g)[k].c) && g[EmptyCells(g)[k].r][EmptyCells(g)[k].c] == 0
    ensures forall r, c :: InBoard(r, c) && g[r][c] == 0 ==> Pos(r, c) in EmptyCells(g)
  {
    AllListedSpec(ZeroMask(g));
  }

  /** Blanking one nonzero cell adds exactly one empty cell. */
  lemma ZeroCountBlank(g: Grid, r: int, c: int)
    requires IsGrid(g) && InBoard(r, c) && g[r][c] != 0
    ensures ZeroCount(Put(g, r, c, 0)) == ZeroCount(g) + 1
  {
    var m, m2 := ZeroMask(g), ZeroMask(Put(g, r, c, 0));
    var f := Flag(m, r, c);
    forall i | 0 <= i < 9
      ensures m2[i] == f[i]
    {
      forall j | 0 <= j < 9
        ensures m2[i][j] == f[i][j]
      {
      }
    }
    assert m2 == f;
    AllListedFlag(ZeroMask(g), r, c);
  }

  /** Filling one empty cell with a nonzero value removes exactly one empty cell. */
  lemma ZeroCountFill(g: Grid, r: int, c: int, v: int)
    requires IsGrid(g) && InBoard(r, c) && g[r][c] == 0 && v != 0
    ensures ZeroCount(Put(g, r, c, v)) + 1 == ZeroCount(g)
  {
    ZeroCountBlank(Put(g, r, c, v), r, c);
    PutRestore(g, r, c, v);
  }

  /** A grid has no empty cell exactly when its empty-cell count is 0. */
  lemma ZeroCountNone(g: Grid)
    requires IsGrid(g)
    ensures ZeroCount(g) == 0 <==> forall r, c :: 0 <= r < 9 && 0 <= c < 9 ==> g[r][c] != 0
  {
    AllListedEmpty(ZeroMask(g));
  }

  // ----- cells blanked between two grids (`countRemovedCells`) -----

  function BlankedMask(src: Grid, mod: Grid): (m: Mask)
    requires IsGrid(src) && IsGrid(mod)
    ensures IsGrid(m)
    ensures forall r, c :: 0 <= r < 9 && 0 <= c < 9 ==> (m[r][c] <==> src[r][c] != 0 && mod[r][c] == 0)
  {
    seq(9, r requires 0 <= r < 9 => seq(9, c requires 0 <= c < 9 => src[r][c] != 0 && mod[r][c] == 0))
  }

  /** Cells before cursor (i, j) that are nonzero in `src` and 0 in `mod`. */
  function BlankedBefore(src: Grid, mod: Grid, i: int, j: int): nat
    requires IsGrid(src) && IsGrid(mod) && Cursor(i, j)
  {
    |Listed(BlankedMask(src, mod), i, j)|
  }

  /** Number of cells that are nonzero in `src` and 0 in `mod`. */
  function Blanked(src: Grid, mod: Grid): nat
    requires IsGrid(src) && IsGrid(mod)
  {
    BlankedBefore(src, mod, |src|, 0)
  }

  /** Blanking a cell that is nonzero in both grids adds one blanked cell. */
  lemma BlankedBlank(src: Grid, g: Grid, r: int, c: int)
    requires IsGrid(src) && IsGrid(g) && InBoard(r, c) && src[r][c] != 0 && g[r][c] != 0
    ensures Blanked(src, Put(g, r, c, 0)) == Blanked(src, g) + 1
  {
    var m, m2 := BlankedMask(src, g), BlankedMask(src, Put(g, r, c, 0));
    var f := Flag(m, r, c);
    forall i | 0 <= i < 9
      ensures m2[i] == f[i]
    {
      forall j | 0 <= j < 9
        ensures m2[i][j] == f[i][j]
      {
      }
    }
    assert m2 == f;
    AllListedFlag(BlankedMask(src, g), r, c);
  }

  /** No cell is blanked between a grid and itself. */
  lemma BlankedSelf(g: Grid)
    requires IsGrid(g)
    ensures Blanked(g, g) == 0
  {
    AllListedEmpty(BlankedMask(g, g));
  }
}
