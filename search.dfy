/** The search tree the backtracking methods of JavaApplication31's
    `Controller` explore: fill the first empty cell (row-major) with each
    digit 1..9 that `isValid` accepts there, and recurse; a grid without
    empty cells is one leaf. `Leaves` counts the leaves, and the lemmas
    relate it to the solutions of the puzzle. */
module Search {
  import opened Base
  import opened Rules

  /** `h` keeps every nonzero cell of `g`. */
  ghost predicate Extends(h: Grid, g: Grid)
    requires IsGrid(h) && IsGrid(g)
  {
    forall r, c :: InBoard(r, c) && g[r][c] != 0 ==> h[r][c] == g[r][c]
  }

  /** `h` solves the puzzle `g`: it keeps the givens, has no empty cell and
      no value outside 1..9 or repeated in a unit (it classifies VALID). */
  ghost predicate Solution(h: Grid, g: Grid)
    requires IsGrid(h) && IsGrid(g)
  {
    Extends(h, g) && ConflictFree(h) && !HasZero(h)
  }

  lemma FirstEmpty(g: Grid)
    requires IsGrid(g) && EmptyCells(g) != []
    ensures InBoard(EmptyCells(g)[0].r, EmptyCells(g)[0].c)
    ensures g[EmptyCells(g)[0].r][EmptyCells(g)[0].c] == 0
  {
    EmptyCellsSpec(g);
  }

  /** Number of leaves of the search from `g`. */
  ghost function Leaves(g: Grid): nat
    requires IsGrid(g)
    decreases ZeroCount(g), 2
  {
    if EmptyCells(g) == [] then 1
    else
      FirstEmpty(g);
      Total(Kids(g, EmptyCells(g)[0]))
  }

  /** The leaves below each digit 1..9 at the empty cell p. */
  ghost function Kids(g: Grid, p: Pos): (s: seq<nat>)
    requires IsGrid(g) && InBoard(p.r, p.c) && g[p.r][p.c] == 0
    ensures |s| == 9
    decreases ZeroCount(g), 1
  {
    seq(9, k requires 0 <= k < 9 => Child(g, p, k + 1))
  }

  /** Leaves below digit n at the empty cell p: none when `isValid` rejects it. */
  ghost function Child(g: Grid, p: Pos, n: int): nat
    requires IsGrid(g) && InBoard(p.r, p.c) && g[p.r][p.c] == 0 && 1 <= n <= 9
    decreases ZeroCount(g), 0
  {
    if Free(g, p.r, p.c, n) then
      ZeroCountFill(g, p.r, p.c, n);
      Leaves(Put(g, p.r, p.c, n))
    else 0
  }

  /** The first n entries of s added up. */
  function Sum(s: seq<nat>, n: int): nat
    requires 0 <= n <= |s|
  {
    if n == 0 then 0 else Sum(s, n - 1) + s[n - 1]
  }

  /** All entries of s added up. */
  function Total(s: seq<nat>): nat {
    Sum(s, |s|)
  }

  function Min(a: int, b: int): int { if a <= b then a else b }

  function Max(a: int, b: int): int { if a >= b then a else b }

  // ----- arithmetic of the branches -----

  lemma KidsAt(g: Grid, p: Pos, k: int)
    requires IsGrid(g) && InBoard(p.r, p.c) && g[p.r][p.c] == 0 && 1 <= k <= 9
    ensures Kids(g, p)[k - 1] == if Free(g, p.r, p.c, k) then Leaves(Put(g, p.r, p.c, k)) else 0
  {
  }

  lemma {:induction false} SumMono(s: seq<nat>, n: int, m: int)
    requires 0 <= n <= m <= |s|
    ensures Sum(s, n) <= Sum(s, m)
    decreases m
  {
    if n < m {
      SumMono(s, n, m - 1);
    }
  }

  /** One entry among the first n contributes to their sum. */
  lemma SumAtLeast(s: seq<nat>, k: int, n: int)
    requires 0 <= k < n <= |s|
    ensures Sum(s, n) >= s[k]
  {
    SumMono(s, k + 1, n);
  }

  /** So do two. */
  lemma SumAtLeastTwo(s: seq<nat>, k1: int, k2: int, n: int)
    requires 0 <= k1 < k2 < n <= |s|
    ensures Sum(s, n) >= s[k1] + s[k2]
  {
    SumAtLeast(s, k1, k2);
    SumMono(s, k2 + 1, n);
  }

  /** The sum is 0 exactly when every one of the first n entries is. */
  lemma {:induction false} SumNone(s: seq<nat>, n: int)
    requires 0 <= n <= |s|
    ensures Sum(s, n) == 0 <==> forall k :: 0 <= k < n ==> s[k] == 0
  {
    if n > 0 {
      SumNone(s, n - 1);
    }
  }

  /** A positive sum has a positive entry. */
  lemma SumZeroStep(s: seq<nat>, n: int)
    requires 1 <= n <= |s| && Sum(s, n - 1) == 0 && s[n - 1] == 0
    ensures Sum(s, n) == 0
  {
  }

  lemma {:induction false} SumSome(s: seq<nat>, n: int) returns (k: int)
    requires 0 <= n <= |s| && Sum(s, n) > 0
    ensures 0 <= k < n && s[k] > 0
  {
    if s[n - 1] > 0 {
      k := n - 1;
    } else {
      k := SumSome(s, n - 1);
    }
  }

  // ----- leaves and solutions -----

  lemma ExtendsPut(h: Grid, g: Grid, r: int, c: int, v: int)
    requires IsGrid(h) && IsGrid(g) && InBoard(r, c) && g[r][c] == 0 && Extends(h, Put(g, r, c, v))
    ensures Extends(h, g)
  {
  }

  /** A full grid keeps only itself. */
  lemma FullExtends(h: Grid, g: Grid)
    requires IsGrid(h) && IsGrid(g) && !HasZero(g) && Extends(h, g)
    ensures h == g
  {
    forall r | 0 <= r < 9
      ensures h[r] == g[r]
    {
      forall c | 0 <= c < 9
        ensures h[r][c] == g[r][c]
      {
        assert g[r][c] != 0;
      }
    }
  }

  /** A solution's digit at an empty cell is one the search accepts there. */
  lemma SolutionDigitFree(h: Grid, g: Grid, r: int, c: int)
    requires IsGrid(h) && IsGrid(g) && InBoard(r, c) && g[r][c] == 0 && Solution(h, g)
    ensures 1 <= h[r][c] <= 9 && Free(g, r, c, h[r][c])
    ensures Solution(h, Put(g, r, c, h[r][c]))
  {
    var k := h[r][c];
    assert !OutOfRange(k) && k != 0;
    assert !Clashes(h, r, c);
    forall r2, c2 | InBoard(r2, c2) && SameUnit(r, c, r2, c2)
      ensures g[r2][c2] != k
    {
      if (r2 != r || c2 != c) && g[r2][c2] != 0 {
        assert Peers(r, c, r2, c2);
        assert h[r2][c2] != k;
      }
    }
  }

  /** The search from a duplicate-free grid has a leaf exactly when the
      puzzle has a solution; the solution is built by following a branch
      with leaves. */
  lemma {:induction false} SolutionOfLeaves(g: Grid) returns (h: Grid)
    requires IsGrid(g) && ConflictFree(g) && Leaves(g) > 0
    ensures IsGrid(h) && Solution(h, g)
    decreases ZeroCount(g)
  {
    if EmptyCells(g) == [] {
      NoZeroIff(g);
      h := g;
    } else {
      FirstEmpty(g);
      var p := EmptyCells(g)[0];
      var i := SumSome(Kids(g, p), |Kids(g, p)|);
      var k := i + 1;
      KidsAt(g, p, k);
      var g2 := Put(g, p.r, p.c, k);
      PlaceKeepsConflictFree(g, p.r, p.c, k);
      ZeroCountFill(g, p.r, p.c, k);
      h := SolutionOfLeaves(g2);
      ExtendsPut(h, g, p.r, p.c, k);
    }
  }

  /** `p` is the first empty cell of `g`, where the search branches. */
  predicate BranchCell(g: Grid, p: Pos)
    requires IsGrid(g)
  {
    EmptyCells(g) != [] && p == EmptyCells(g)[0] && InBoard(p.r, p.c) && g[p.r][p.c] == 0
  }

  /** The leaves of the search are those below the digits at its first empty cell. */
  lemma LeavesAt(g: Grid, p: Pos)
    requires IsGrid(g) && BranchCell(g, p)
    ensures Leaves(g) == Total(Kids(g, p))
  {
  }

  /** The same, with the length of the digit list given by the caller. */
  lemma LeavesSum(g: Grid, p: Pos, n: int)
    requires IsGrid(g) && BranchCell(g, p) && n == |Kids(g, p)|
    ensures Leaves(g) == Sum(Kids(g, p), n)
  {
  }

  /** Below a rejected digit there is nothing; below an accepted one, the
      leaves of the grid with that digit written. */
  lemma KidsFree(g: Grid, p: Pos, k: int)
    requires IsGrid(g) && InBoard(p.r, p.c) && g[p.r][p.c] == 0 && 1 <= k <= 9
    ensures !Free(g, p.r, p.c, k) ==> Kids(g, p)[k - 1] == 0
    ensures Free(g, p.r, p.c, k) ==> Kids(g, p)[k - 1] == Leaves(Put(g, p.r, p.c, k))
  {
    KidsAt(g, p, k);
  }

  /** An accepted digit at the first empty cell brings its leaves to the search. */
  lemma LeavesAtLeast(g: Grid, p: Pos, k: int)
    requires IsGrid(g) && BranchCell(g, p) && 1 <= k <= 9 && Free(g, p.r, p.c, k)
    ensures Leaves(g) >= Leaves(Put(g, p.r, p.c, k))
  {
    KidsAt(g, p, k);
    SumAtLeast(Kids(g, p), k - 1, |Kids(g, p)|);
  }

  /** Two accepted digits bring the leaves of both. */
  lemma LeavesAtLeastTwo(g: Grid, p: Pos, k1: int, k2: int)
    requires IsGrid(g) && BranchCell(g, p) && 1 <= k1 <= 9 && 1 <= k2 <= 9 && k1 != k2
    requires Free(g, p.r, p.c, k1) && Free(g, p.r, p.c, k2)
    ensures Leaves(g) >= Leaves(Put(g, p.r, p.c, k1)) + Leaves(Put(g, p.r, p.c, k2))
  {
    KidsAt(g, p, k1);
    KidsAt(g, p, k2);
    if k1 < k2 {
      SumAtLeastTwo(Kids(g, p), k1 - 1, k2 - 1, |Kids(g, p)|);
    } else {
      SumAtLeastTwo(Kids(g, p), k2 - 1, k1 - 1, |Kids(g, p)|);
    }
  }

  /** The search has no leaf when no accepted digit at the first empty cell has one. */
  lemma LeavesNone(g: Grid, p: Pos)
    requires IsGrid(g) && BranchCell(g, p)
    requires forall k :: 1 <= k <= 9 && Free(g, p.r, p.c, k) ==> Leaves(Put(g, p.r, p.c, k)) == 0
    ensures Leaves(g) == 0
  {
    forall i | 0 <= i < 9
      ensures Kids(g, p)[i] == 0
    {
      KidsAt(g, p, i + 1);
    }
    SumNone(Kids(g, p), |Kids(g, p)|);
  }

  /** Every cell before (row, col) in row-major order is filled: the
      precondition under which the scanning methods meet their first empty
      cell at or after (row, col). */
  ghost predicate FilledBefore(g: Grid, row: int, col: int)
    requires IsGrid(g)
  {
    forall r, c :: InBoard(r, c) && Precedes(Pos(r, c), Pos(row, col)) ==> g[r][c] != 0
  }

  /** The scan moves past a filled cell. */
  lemma FilledBeforeStep(g: Grid, r: int, c: int)
    requires IsGrid(g) && InBoard(r, c) && FilledBefore(g, r, c) && g[r][c] != 0
    ensures FilledBefore(g, r, c + 1)
    ensures c + 1 == 9 ==> FilledBefore(g, r + 1, 0)
  {
  }

  /** The end of a row is the start of the next. */
  lemma FilledBeforeWrap(g: Grid, r: int)
    requires IsGrid(g) && 0 <= r < 9 && FilledBefore(g, r, 9)
    ensures FilledBefore(g, r + 1, 0)
  {
  }

  /** Writing a digit at the scan position moves the scan past it. */
  lemma FilledBeforePut(g: Grid, r: int, c: int, v: int)
    requires IsGrid(g) && InBoard(r, c) && FilledBefore(g, r, c) && v != 0
    ensures FilledBefore(Put(g, r, c, v), r, c + 1)
    ensures c + 1 == 9 ==> FilledBefore(Put(g, r, c, v), r + 1, 0)
  {
    var h := Put(g, r, c, v);
    forall r2, c2 | InBoard(r2, c2) && Precedes(Pos(r2, c2), Pos(r, c + 1))
      ensures h[r2][c2] != 0
    {
      if r2 != r || c2 != c {
        assert Precedes(Pos(r2, c2), Pos(r, c));
      }
    }
  }

  /** With every earlier cell filled, an empty (row, col) is the first empty cell. */
  lemma FirstEmptyAt(g: Grid, row: int, col: int)
    requires IsGrid(g) && InBoard(row, col) && FilledBefore(g, row, col) && g[row][col] == 0
    ensures BranchCell(g, Pos(row, col))
  {
    ListedNoneBefore(ZeroMask(g), row, col);
    ListedFirst(ZeroMask(g), row, col);
  }

  /** A grid with a 0 cell has an empty cell to branch on. */
  lemma HasEmpty(g: Grid, r: int, c: int)
    requires IsGrid(g) && InBoard(r, c) && g[r][c] == 0
    ensures EmptyCells(g) != []
  {
    EmptyCellsSpec(g);
  }

  /** With every cell filled, there is no empty cell and the search is one leaf. */
  lemma FilledAll(g: Grid)
    requires IsGrid(g) && FilledBefore(g, 9, 0)
    ensures EmptyCells(g) == [] && Leaves(g) == 1 && !HasZero(g)
  {
    ListedNoneBefore(ZeroMask(g), 9, 0);
    NoZeroIff(g);
  }

  /** Every solution lies below some leaf, and two different solutions below
      two different leaves: the leaves are at least the solutions, up to two. */
  lemma {:induction false} LeavesCoverSolutions(g: Grid, h1: Grid, h2: Grid)
    requires IsGrid(g) && IsGrid(h1) && IsGrid(h2) && Solution(h1, g) && Solution(h2, g)
    ensures Leaves(g) >= if h1 == h2 then 1 else 2
    decreases ZeroCount(g)
  {
    if EmptyCells(g) == [] {
      NoZeroIff(g);
      FullExtends(h1, g);
      FullExtends(h2, g);
    } else {
      FirstEmpty(g);
      var p := EmptyCells(g)[0];
      SolutionDigitFree(h1, g, p.r, p.c);
      SolutionDigitFree(h2, g, p.r, p.c);
      var k1, k2 := h1[p.r][p.c], h2[p.r][p.c];
      ZeroCountFill(g, p.r, p.c, k1);
      ZeroCountFill(g, p.r, p.c, k2);
      if k1 == k2 {
        LeavesCoverSolutions(Put(g, p.r, p.c, k1), h1, h2);
        LeavesAtLeast(g, p, k1);
      } else {
        LeavesCoverSolutions(Put(g, p.r, p.c, k1), h1, h1);
        LeavesCoverSolutions(Put(g, p.r, p.c, k2), h2, h2);
        LeavesAtLeastTwo(g, p, k1, k2);
      }
    }
  }

  /** From a duplicate-free grid: the search has a leaf iff a solution exists. */
  lemma LeavesIffSolvable(g: Grid)
    requires IsGrid(g) && ConflictFree(g)
    ensures Leaves(g) > 0 <==> exists h :: IsGrid(h) && Solution(h, g)
  {
    if Leaves(g) > 0 {
      var h := SolutionOfLeaves(g);
    }
    if exists h :: IsGrid(h) && Solution(h, g) {
      var h :| IsGrid(h) && Solution(h, g);
      LeavesCoverSolutions(g, h, h);
    }
  }

  /** One leaf means at most one solution: what `countSolutions(.., 2) == 1`
      establishes for a puzzle `removeNumbers` keeps. */
  lemma UniqueSolution(g: Grid, h1: Grid, h2: Grid)
    requires IsGrid(g) && IsGrid(h1) && IsGrid(h2) && Leaves(g) == 1
    requires Solution(h1, g) && Solution(h2, g)
    ensures h1 == h2
  {
    LeavesCoverSolutions(g, h1, h2);
  }

  /** A solved grid solves every puzzle made from it by blanking cells. */
  lemma SolvesBlanked(src: Grid, g: Grid)
    requires IsGrid(src) && IsGrid(g) && ConflictFree(src) && !HasZero(src)
    requires forall r, c :: InBoard(r, c) ==> g[r][c] == src[r][c] || g[r][c] == 0
    ensures Solution(src, g)
  {
  }

  // ----- the empty board has a solution -----

  /** Row r of the witness is 1..9 rotated by 3 * (r % 3) + r / 3. */
  function WitnessValue(r: int, c: int): int {
    (Shift(r) + c) % 9 + 1
  }

  function Witness(): (w: Grid)
    ensures IsGrid(w) && forall r, c :: InBoard(r, c) ==> w[r][c] == WitnessValue(r, c)
  {
    seq(9, r requires 0 <= r < 9 => seq(9, c requires 0 <= c < 9 => WitnessValue(r, c)))
  }

  /** The rotation of row r: a permutation of 0..8. */
  function Shift(r: int): int {
    3 * (r % 3) + r / 3
  }

  lemma ShiftRange(r: int)
    requires 0 <= r < 9
    ensures 0 <= Shift(r) < 9
  {
  }

  lemma ShiftDistinct(k: int, k2: int)
    requires 0 <= k < k2 < 9
    ensures Shift(k) != Shift(k2)
  {
    var a, b, c, d := k / 3, k % 3, k2 / 3, k2 % 3;
    assert k == 3 * a + b && k2 == 3 * c + d;
    assert Shift(k) == 3 * b + a && Shift(k2) == 3 * d + c;
  }

  /** Two numbers less than 9 apart leave different remainders. */
  lemma ModDistinct(x: int, y: int)
    requires 0 <= x && x != y && -9 < x - y < 9 && 0 <= y
    ensures x % 9 != y % 9
  {
  }

  /** Every row, column and box of the witness holds 1..9 without repeats. */
  lemma WitnessUnit(f: Family, u: int)
    requires 0 <= u < 9
    ensures UnitOk(Witness(), f, u)
  {
    forall k, k2 | 0 <= k < k2 < 9
      ensures UnitValue(Witness(), f, u, k) != UnitValue(Witness(), f, u, k2)
    {
      WitnessPair(f, u, k, k2);
    }
  }

  /** Two cells of one unit of the witness hold different values. */
  lemma WitnessPair(f: Family, u: int, k: int, k2: int)
    requires 0 <= u < 9 && 0 <= k < k2 < 9
    ensures UnitValue(Witness(), f, u, k) != UnitValue(Witness(), f, u, k2)
  {
    var w := Witness();
    var p, q := UnitCell(f, u, k), UnitCell(f, u, k2);
    var x, y := Shift(p.r) + p.c, Shift(q.r) + q.c;
    assert UnitValue(w, f, u, k) == x % 9 + 1 && UnitValue(w, f, u, k2) == y % 9 + 1;
    match f
    case RowUnit =>
      ShiftRange(u);
      ModDistinct(x, y);
    case ColumnUnit =>
      ShiftRange(k);
      ShiftRange(k2);
      ShiftDistinct(k, k2);
      ModDistinct(x, y);
    case BoxUnit =>
      BoxShift(u, k);
      BoxShift(u, k2);
      ModDistinct(x, y);
  }

  /** Cell k of box u holds the box's offset plus k, modulo 9. */
  lemma BoxShift(u: int, k: int)
    requires 0 <= u < 9 && 0 <= k < 9
    ensures var p := UnitCell(BoxUnit, u, k);
      Shift(p.r) + p.c == k + u / 3 + 3 * (u % 3)
  {
    var a, b, i, j := u / 3, u % 3, k / 3, k % 3;
    assert k == 3 * i + j;
    var p := UnitCell(BoxUnit, u, k);
    assert p.r == 3 * a + i && p.c == 3 * b + j;
    DivMod3(a, i);
    assert Shift(p.r) == 3 * i + a;
  }

  /** The witness is a solved board. */
  lemma WitnessSolved()
    ensures ConflictFree(Witness()) && !HasZero(Witness())
  {
    var w := Witness();
    forall f: Family, u | 0 <= u < 9
      ensures UnitOk(w, f, u)
    {
      WitnessUnit(f, u);
    }
    UnitsOkIff(w);
  }

  /** On the empty board the search always has a leaf: a solution exists. */
  lemma EmptySolvable(g: Grid)
    requires IsGrid(g) && forall r, c :: InBoard(r, c) ==> g[r][c] == 0
    ensures Leaves(g) > 0
  {
    WitnessSolved();
    assert Solution(Witness(), g);
    assert ConflictFree(g);
    LeavesIffSolvable(g);
  }
}
