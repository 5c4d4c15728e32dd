/** The private backtracking routines of JavaApplication31's `Controller`:
    the randomized fill `generateSolvedPuzzle`, the deterministic fill
    `solveSudoku`, the bounded counter `countSolutions` and the uniqueness
    preserving `removeNumbers`. Each works in place on the grid and writes
    back what it tried, so each is specified against `Search.Leaves`, the
    number of leaves of the search tree they all walk. */
module JaBacktrack {
  import opened Base
  import opened Rules
  import opened Search
  import Scans
  import Random

  /** The digit list `{1, 2, ..., 9}` that `generateSolvedPuzzle` shuffles. */
  function OneToNine(): seq<int> {
    [1, 2, 3, 4, 5, 6, 7, 8, 9]
  }

  /** `s` lists the digits 1..9 in some order. */
  predicate DigitOrder(s: seq<int>) {
    |s| == 9 && (forall i :: 0 <= i < |s| ==> 1 <= s[i] <= 9) && forall d :: 1 <= d <= 9 ==> d in s
  }

  /** A rearrangement of 1..9 lists the digits 1..9. */
  lemma ShuffledDigits(s: seq<int>, s0: seq<int>)
    requires s0 == OneToNine() && multiset(s) == multiset(s0)
    ensures DigitOrder(s)
  {
    assert |s| == |multiset(s)| == |multiset(s0)| == 9;
    forall i | 0 <= i < |s|
      ensures 1 <= s[i] <= 9
    {
      assert s[i] in multiset(s);
      assert s[i] in s0;
    }
    forall d | 1 <= d <= 9
      ensures d in s
    {
      assert d in s0;
      assert d in multiset(s);
    }
  }

  /** A full grid that keeps the givens of `g`, free of duplicates when `g` is. */
  ghost predicate Filled(h: Grid, g: Grid)
    requires IsGrid(h) && IsGrid(g)
  {
    !HasZero(h) && Extends(h, g) && (ConflictFree(g) ==> ConflictFree(h))
  }

  /** A fill of the grid after an accepted digit is a fill of the grid before it. */
  lemma FilledPut(g: Grid, r: int, c: int, v: int, h: Grid)
    requires IsGrid(g) && IsGrid(h) && InBoard(r, c) && g[r][c] == 0
    requires 1 <= v <= 9 && Free(g, r, c, v) && Filled(h, Put(g, r, c, v))
    ensures Filled(h, g)
  {
    ExtendsPut(h, g, r, c, v);
    if ConflictFree(g) {
      PlaceKeepsConflictFree(g, r, c, v);
    }
  }

  /** The digits tried so far, `order[..i]`, have no leaf below them. */
  ghost predicate Dead(s: seq<nat>, order: seq<int>, i: int)
  {
    0 <= i <= |order| && forall j :: 0 <= j < i ==> 1 <= order[j] <= |s| && s[order[j] - 1] == 0
  }

  lemma DeadStep(s: seq<nat>, order: seq<int>, i: int, d: int)
    requires Dead(s, order, i) && i < |order| && d == order[i] && 1 <= d <= |s| && s[d - 1] == 0
    ensures Dead(s, order, i + 1)
  {
  }

  /** Once every digit of a shuffled 1..9 has been tried without a leaf,
      there is no leaf at all. */
  lemma DeadAll(s: seq<nat>, order: seq<int>)
    requires |s| == 9 && DigitOrder(order) && Dead(s, order, |order|)
    ensures Sum(s, |s|) == 0
  {
    forall k | 0 <= k < |s|
      ensures s[k] == 0
    {
      assert k + 1 in order;
      var j :| 0 <= j < |order| && order[j] == k + 1;
    }
    SumNone(s, |s|);
  }

  /** `generateSolvedPuzzle(grid, row, col)`: fill the empty cells from
      (row, col) on, trying the digits at each empty cell in a freshly
      shuffled order. It succeeds exactly when the search has a leaf, and
      then leaves a filled grid; on failure the grid is as it was. */
  method GenerateSolvedPuzzle(grid: array2<int>, row: int, col: int, rng: Random.Rng) returns (b: bool)
    requires Is9x9(grid) && 0 <= row < 9 && 0 <= col <= 9
    requires FilledBefore(Cells(grid), row, col)
    modifies grid, rng
    ensures b <==> Leaves(old(Cells(grid))) > 0
    ensures b ==> Filled(Cells(grid), old(Cells(grid)))
    ensures !b ==> Cells(grid) == old(Cells(grid))
    decreases 81 - 9 * row - col, 2
  {
    var r, c := row, col;
    if c == 9 {
      FilledBeforeWrap(Cells(grid), r);
      c := 0;
      r := r + 1;
      if r == 9 {
        FilledAll(Cells(grid));
        return true;
      }
    }
    if grid[r, c] != 0 {
      FilledBeforeStep(Cells(grid), r, c);
      b := GenerateSolvedPuzzle(grid, r, c + 1, rng);
      return;
    }
    FirstEmptyAt(Cells(grid), r, c);
    b := FillAt(grid, r, c, rng);
  }

  /** `nums = {1, ..., 9}; shuffleArray(nums)`: the digits in the order the
      draws give. */
  method ShuffledNums(rng: Random.Rng) returns (nums: array<int>)
    modifies rng
    ensures fresh(nums) && DigitOrder(nums[..])
  {
    nums := new int[9];
    nums[0], nums[1], nums[2], nums[3], nums[4], nums[5], nums[6], nums[7], nums[8] := 1, 2, 3, 4, 5, 6, 7, 8, 9;
    ghost var s0 := nums[..];
    assert s0 == OneToNine();
    Random.Shuffle(nums, rng);
    ShuffledDigits(nums[..], s0);
  }

  /** The digit loop of `generateSolvedPuzzle` at its first empty cell
      (r, c): shuffle 1..9 and try the digits in that order. */
  method FillAt(grid: array2<int>, r: int, c: int, rng: Random.Rng) returns (b: bool)
    requires Is9x9(grid) && InBoard(r, c)
    requires FilledBefore(Cells(grid), r, c) && BranchCell(Cells(grid), Pos(r, c))
    modifies grid, rng
    ensures b <==> Leaves(old(Cells(grid))) > 0
    ensures b ==> Filled(Cells(grid), old(Cells(grid)))
    ensures !b ==> Cells(grid) == old(Cells(grid))
    decreases 81 - 9 * r - c, 1
  {
    ghost var g := Cells(grid);
    ghost var p := Pos(r, c);
    var nums := ShuffledNums(rng);
    ghost var order := nums[..];
    var i := 0;
    while i < 9
      invariant 0 <= i <= 9
      invariant Cells(grid) == g && nums[..] == order
      invariant Dead(Kids(g, p), order, i)
    {
      var d := nums[i];
      assert d == order[i] && 1 <= d <= 9;
      b := PlaceAndFill(grid, r, c, d, rng);
      if b {
        return;
      }
      DeadStep(Kids(g, p), order, i, d);
      i := i + 1;
    }
    DeadAll(Kids(g, p), order);
    LeavesAt(g, p);
    b := false;
  }

  /** The body of the digit loop of `generateSolvedPuzzle`: if `isValid`
      accepts v at the first empty cell, write it and fill the rest; on
      failure write the 0 back. */
  method PlaceAndFill(grid: array2<int>, r: int, c: int, v: int, rng: Random.Rng) returns (done: bool)
    requires Is9x9(grid) && InBoard(r, c) && 1 <= v <= 9
    requires FilledBefore(Cells(grid), r, c) && BranchCell(Cells(grid), Pos(r, c))
    modifies grid, rng
    ensures done ==> Leaves(old(Cells(grid))) > 0 && Filled(Cells(grid), old(Cells(grid)))
    ensures !done ==> Cells(grid) == old(Cells(grid)) && Kids(old(Cells(grid)), Pos(r, c))[v - 1] == 0
    decreases 81 - 9 * r - c, 0
  {
    ghost var g := Cells(grid);
    KidsFree(g, Pos(r, c), v);
    var ok := Scans.Free(grid, r, c, v);
    if !ok {
      return false;
    }
    FilledBeforePut(g, r, c, v);
    Write(grid, r, c, v);
    done := GenerateSolvedPuzzle(grid, r, c + 1, rng);
    if done {
      LeavesAtLeast(g, Pos(r, c), v);
      FilledPut(g, r, c, v, Cells(grid));
      return;
    }
    Write(grid, r, c, 0);
    PutRestore(g, r, c, v);
  }

  /** `solveSudoku(grid)`: fill the first empty cell with each accepted digit
      1..9 in turn and recurse. Same outcome as the randomized fill. */
  method SolveSudoku(grid: array2<int>) returns (b: bool)
    requires Is9x9(grid)
    modifies grid
    ensures b <==> Leaves(old(Cells(grid))) > 0
    ensures b ==> Filled(Cells(grid), old(Cells(grid)))
    ensures !b ==> Cells(grid) == old(Cells(grid))
    decreases ZeroCount(Cells(grid)), 2
  {
    ghost var g := Cells(grid);
    var row := 0;
    while row < 9
      invariant 0 <= row <= 9 && Cells(grid) == g && FilledBefore(g, row, 0)
    {
      var col := 0;
      while col < 9
        invariant 0 <= col <= 9 && Cells(grid) == g && FilledBefore(g, row, col)
      {
        if grid[row, col] == 0 {
          FirstEmptyAt(g, row, col);
          b := SolveAt(grid, row, col);
          return;
        }
        col := col + 1;
      }
      row := row + 1;
    }
    FilledAll(g);
    b := true;
  }

  /** The digit loop of `solveSudoku` at its first empty cell (row, col). */
  method SolveAt(grid: array2<int>, row: int, col: int) returns (b: bool)
    requires Is9x9(grid) && InBoard(row, col) && BranchCell(Cells(grid), Pos(row, col))
    modifies grid
    ensures b <==> Leaves(old(Cells(grid))) > 0
    ensures b ==> Filled(Cells(grid), old(Cells(grid)))
    ensures !b ==> Cells(grid) == old(Cells(grid))
    decreases ZeroCount(Cells(grid)), 1
  {
    ghost var g := Cells(grid);
    ghost var p := Pos(row, col);
    ghost var kids := Kids(g, p);
    var num := 1;
    while num <= 9
      invariant 1 <= num <= 10 && Cells(grid) == g
      invariant Sum(kids, num - 1) == 0
    {
      b := PlaceAndSolve(grid, row, col, num);
      if b {
        return;
      }
      assert kids[num - 1] == 0;
      SumZeroStep(kids, num);
      num := num + 1;
    }
    LeavesSum(g, p, num - 1);
    b := false;
  }

  /** One digit of `solveSudoku`: write it when `isValid` accepts it and
      recurse; on failure write the 0 back. */
  method PlaceAndSolve(grid: array2<int>, row: int, col: int, num: int) returns (done: bool)
    requires Is9x9(grid) && InBoard(row, col) && 1 <= num <= 9 && BranchCell(Cells(grid), Pos(row, col))
    modifies grid
    ensures done ==> Leaves(old(Cells(grid))) > 0 && Filled(Cells(grid), old(Cells(grid)))
    ensures !done ==> Cells(grid) == old(Cells(grid)) && Kids(old(Cells(grid)), Pos(row, col))[num - 1] == 0
    decreases ZeroCount(Cells(grid)), 0
  {
    ghost var g := Cells(grid);
    KidsFree(g, Pos(row, col), num);
    var ok := Scans.Free(grid, row, col, num);
    if !ok {
      return false;
    }
    Write(grid, row, col, num);
    ZeroCountFill(g, row, col, num);
    done := SolveSudoku(grid);
    if done {
      LeavesAtLeast(g, Pos(row, col), num);
      FilledPut(g, row, col, num, Cells(grid));
      return;
    }
    Write(grid, row, col, 0);
    PutRestore(g, row, col, num);
  }

  /** What `countSolutions` returns for `g`: 1 for a filled grid, otherwise
      the leaves of the search cut off at `limit`. */
  ghost function Counted(g: Grid, limit: int): int
    requires IsGrid(g)
  {
    if EmptyCells(g) == [] then 1 else Min(Max(limit, 0), Leaves(g))
  }

  /** `countSolutions(grid, row, col, limit)`, where every cell before (row,
      col) is filled: the leaves of the search, cut off at `limit`. The grid
      is restored on return. */
  method CountSolutions(grid: array2<int>, row: int, col: int, limit: int) returns (count: int)
    requires Is9x9(grid) && Cursor(row, col) && col < 9 && FilledBefore(Cells(grid), row, col)
    modifies grid
    ensures Cells(grid) == old(Cells(grid))
    ensures count == Counted(old(Cells(grid)), limit)
    decreases ZeroCount(Cells(grid)), 1
  {
    ghost var g := Cells(grid);
    var r, c := row, col;
    while r < 9 && grid[r, c] != 0
      invariant Cursor(r, c) && c < 9 && FilledBefore(g, r, c) && Cells(grid) == g
      decreases 81 - 9 * r - c
    {
      FilledBeforeStep(g, r, c);
      c := c + 1;
      if c == 9 {
        c := 0;
        r := r + 1;
      }
    }
    if r >= 9 {
      FilledAll(g);
      return 1;
    }
    FirstEmptyAt(g, r, c);
    ghost var p := Pos(r, c);
    ghost var kids := Kids(g, p);
    count := 0;
    var num := 1;
    while num <= 9 && count < limit
      invariant 1 <= num <= 10 && Cells(grid) == g
      invariant count == Min(Max(limit, 0), Sum(kids, num - 1))
    {
      var sub := CountDigit(grid, r, c, num, limit - count);
      CappedStep(kids, num, limit, count);
      count := count + sub;
      num := num + 1;
    }
    CappedEnd(kids, num - 1, limit, count);
    LeavesSum(g, p, |kids|);
  }

  /** One digit of `countSolutions`: when `isValid` accepts it, write it,
      count below it with the remaining (positive) limit, and write the 0
      back. The count is the digit's leaves, cut off at the limit. */
  method CountDigit(grid: array2<int>, r: int, c: int, num: int, limit: int) returns (sub: int)
    requires Is9x9(grid) && InBoard(r, c) && 1 <= num <= 9 && limit >= 1
    requires FilledBefore(Cells(grid), r, c) && BranchCell(Cells(grid), Pos(r, c))
    modifies grid
    ensures Cells(grid) == old(Cells(grid))
    ensures sub == Min(limit, Kids(old(Cells(grid)), Pos(r, c))[num - 1])
    decreases ZeroCount(Cells(grid)), 0
  {
    ghost var g := Cells(grid);
    KidsFree(g, Pos(r, c), num);
    var ok := Scans.Free(grid, r, c, num);
    if !ok {
      return 0;
    }
    FilledBeforePut(g, r, c, num);
    Write(grid, r, c, num);
    var nr, nc := r, c + 1;
    if nc == 9 {
      nc := 0;
      nr := nr + 1;
    }
    ZeroCountFill(g, r, c, num);
    sub := CountSolutions(grid, nr, nc, limit);
    Write(grid, r, c, 0);
    PutRestore(g, r, c, num);
  }

  /** The running count of `countSolutions`: below the limit, adding the
      next entry cut off at the remaining limit keeps the count equal to
      the running sum cut off at the limit. */
  lemma CappedStep(s: seq<nat>, num: int, limit: int, count: int)
    requires 1 <= num <= |s| && count < limit
    requires count == Min(Max(limit, 0), Sum(s, num - 1))
    ensures count + Min(limit - count, s[num - 1]) == Min(Max(limit, 0), Sum(s, num))
  {
  }

  /** When the digit loop of `countSolutions` stops, early at the limit or
      after the last digit, the count is the whole sum cut off at the limit. */
  lemma CappedEnd(s: seq<nat>, n: int, limit: int, count: int)
    requires 0 <= n <= |s| && count == Min(Max(limit, 0), Sum(s, n))
    requires n == |s| || count >= limit
    ensures count == Min(Max(limit, 0), Sum(s, |s|))
  {
    SumMono(s, n, |s|);
  }

  /** `countSolutions` with a positive limit returns a count between 0 and the limit. */
  lemma CountedRange(g: Grid, limit: int)
    requires IsGrid(g) && limit >= 1
    ensures 0 <= Counted(g, limit) <= limit
  {
  }

  /** The cells of `mod` either equal those of `src` or are digits of `src`
      turned into 0: `mod` is `src` with some givens removed. */
  ghost predicate Cleared(src: Grid, mod: Grid)
    requires IsGrid(src) && IsGrid(mod)
  {
    forall r, c :: InBoard(r, c) ==> mod[r][c] == src[r][c] || (src[r][c] != 0 && mod[r][c] == 0)
  }

  /** The `RandomPairs` generator, which is not part of this model, as the
      lists of cells it hands out, in order: `generateDistinctPairs(n)` for
      the k-th time yields at most n cells of the k-th list; past the end of
      the lists it yields none. */
  function Batch(batches: seq<seq<Pos>>, k: int, n: int): (cells: seq<Pos>)
    ensures 0 <= k < |batches| ==> |cells| <= |batches[k]| && cells == batches[k][..|cells|]
    ensures |cells| <= n || cells == []
    ensures 0 <= k < |batches| && n >= 0 ==> |cells| == n || |cells| == |batches[k]|
    ensures !(0 <= k < |batches|) ==> cells == []
  {
    if 0 <= k < |batches| then Take(batches[k], n) else []
  }

  /** Every cell of every list is on the board. */
  ghost predicate OnBoard(batches: seq<seq<Pos>>) {
    forall i, j :: 0 <= i < |batches| && 0 <= j < |batches[i]| ==> InBoard(batches[i][j].r, batches[i][j].c)
  }

  lemma BatchOnBoard(batches: seq<seq<Pos>>, k: int, n: int)
    requires OnBoard(batches)
    ensures forall j :: 0 <= j < |Batch(batches, k, n)| ==> InBoard(Batch(batches, k, n)[j].r, Batch(batches, k, n)[j].c)
  {
  }

  /** The first n entries of s (all of s when it is shorter). */
  function Take(s: seq<Pos>, n: int): (t: seq<Pos>)
    ensures |t| <= |s| && (n >= 0 ==> |t| <= n)
    ensures forall j :: 0 <= j < |t| ==> t[j] == s[j]
  {
    if n <= 0 then [] else if n >= |s| then s else s[..n]
  }

  /** The uniqueness test of `removeNumbers` on a grid with an empty cell:
      copy the grid (`System.arraycopy` per row) and ask
      `countSolutions(testGrid, 0, 0, 2) == 1`, which holds exactly when the
      search has a single leaf. The grid itself is not touched. */
  method UniqueOnCopy(grid: array2<int>) returns (u: bool)
    requires Is9x9(grid) && EmptyCells(Cells(grid)) != []
    ensures u <==> Leaves(Cells(grid)) == 1
  {
    var test := CopyBoard(grid);
    var n := CountSolutions(test, 0, 0, 2);
    u := n == 1;
  }

  /** One candidate of `removeNumbers`: skip an empty cell; otherwise blank
      it and keep the blank exactly when the uniqueness test passes, else
      put the digit back. */
  method TryBlank(grid: array2<int>, row: int, col: int) returns (kept: bool)
    requires Is9x9(grid) && InBoard(row, col)
    modifies grid
    ensures kept <==> old(grid[row, col]) != 0 && Leaves(Put(old(Cells(grid)), row, col, 0)) == 1
    ensures kept ==> Cells(grid) == Put(old(Cells(grid)), row, col, 0)
    ensures !kept ==> Cells(grid) == old(Cells(grid))
  {
    if grid[row, col] == 0 {
      return false;
    }
    var temp := grid[row, col];
    ghost var g := Cells(grid);
    Write(grid, row, col, 0);
    HasEmpty(Cells(grid), row, col);
    kept := UniqueOnCopy(grid);
    if !kept {
      Write(grid, row, col, temp);
      PutRestore(g, row, col, 0);
    }
  }

  /** The state `removeNumbers` keeps: `cur` is `g0` with `removed` digits
      blanked, and once one is blanked the search from `cur` has exactly one
      leaf. */
  ghost predicate Derived(g0: Grid, cur: Grid, removed: int)
    requires IsGrid(g0) && IsGrid(cur)
  {
    Cleared(g0, cur) && removed == Blanked(g0, cur) && (removed > 0 ==> Leaves(cur) == 1)
  }

  /** A blank that `TryBlank` keeps adds one to the count and keeps the state. */
  lemma BlankStep(g0: Grid, cur: Grid, row: int, col: int, removed: int)
    requires IsGrid(g0) && IsGrid(cur) && InBoard(row, col) && Derived(g0, cur, removed)
    requires cur[row][col] != 0 && Leaves(Put(cur, row, col, 0)) == 1
    ensures Derived(g0, Put(cur, row, col, 0), removed + 1)
  {
    ClearedStep(g0, cur, row, col);
    BlankedBlank(g0, cur, row, col);
  }

  lemma ClearedStep(g0: Grid, cur: Grid, row: int, col: int)
    requires IsGrid(g0) && IsGrid(cur) && InBoard(row, col) && Cleared(g0, cur) && cur[row][col] != 0
    ensures Cleared(g0, Put(cur, row, col, 0))
  {
  }

  /** `removeNumbers(grid, count)`: try the cells of one batch of pairs,
      then of further batches until `count` cells are blank. Only digits
      are removed, the number removed is the number of cells blanked, and
      once any cell is removed the search from the puzzle has exactly one
      leaf. The source's retry loop ends only when `count` is reached; here
      it also ends when the lists of cells run out. `used` is the number of
      lists taken. */
  method RemoveNumbers(grid: array2<int>, count: int, batches: seq<seq<Pos>>) returns (removed: int, used: int)
    requires Is9x9(grid) && OnBoard(batches)
    modifies grid
    ensures Derived(old(Cells(grid)), Cells(grid), removed)
    ensures count >= 0 ==> removed <= count
    ensures 0 <= used <= |batches| && (removed >= count || used == |batches|)
  {
    ghost var g0 := Cells(grid);
    BlankedSelf(g0);
    BatchOnBoard(batches, 0, count);
    removed := TryCells(grid, Batch(batches, 0, count), false, count, 0, g0);
    used := if batches == [] then 0 else 1;
    while removed < count && used < |batches|
      invariant 0 <= removed && (count >= 0 ==> removed <= count)
      invariant 0 <= used <= |batches| && Derived(g0, Cells(grid), removed)
      decreases |batches| - used
    {
      BatchOnBoard(batches, used, count - removed);
      removed := TryCells(grid, Batch(batches, used, count - removed), true, count, removed, g0);
      used := used + 1;
    }
  }

  /** The body of the loops of `removeNumbers`: try blanking one cell and
      count it when the blank is kept. */
  method TryCell(grid: array2<int>, cell: Pos, removed0: int, ghost g0: Grid) returns (removed: int)
    requires Is9x9(grid) && IsGrid(g0) && InBoard(cell.r, cell.c) && Derived(g0, Cells(grid), removed0)
    modifies grid
    ensures Derived(g0, Cells(grid), removed)
    ensures removed == removed0 || removed == removed0 + 1
  {
    ghost var cur := Cells(grid);
    var kept := TryBlank(grid, cell.r, cell.c);
    removed := removed0;
    if kept {
      BlankStep(g0, cur, cell.r, cell.c, removed);
      removed := removed + 1;
    }
  }

  /** One pass of `removeNumbers` over a list of cells, each tried with
      `TryBlank`; the retry passes (`capped`) stop once `count` cells are
      blank. */
  method TryCells(grid: array2<int>, cells: seq<Pos>, capped: bool, count: int, removed0: int, ghost g0: Grid)
      returns (removed: int)
    requires Is9x9(grid) && IsGrid(g0) && 0 <= removed0 && Derived(g0, Cells(grid), removed0)
    requires forall j :: 0 <= j < |cells| ==> InBoard(cells[j].r, cells[j].c)
    requires capped ==> removed0 <= count
    modifies grid
    ensures Derived(g0, Cells(grid), removed)
    ensures removed0 <= removed <= removed0 + |cells|
    ensures capped ==> removed <= count
  {
    removed := removed0;
    var i := 0;
    while i < |cells| && !(capped && removed >= count)
      invariant 0 <= i <= |cells| && removed0 <= removed <= removed0 + i
      invariant capped ==> removed <= count
      invariant Derived(g0, Cells(grid), removed)
    {
      removed := TryCell(grid, cells[i], removed, g0);
      i := i + 1;
    }
  }
}
