/** `GameGenerator` of sssoduku (the live class): from a VALID source, three
    puzzles on fresh copies, each with the first `min(k, #digits)` cells of a
    shuffled list of the source's digit cells blanked, k = 25, 20, 10. The
    random source is the tape of `Random.Rng`. */
module SsGameGenerator {
  import opened Base
  import opened Rules
  import opened Random
  import opened SsGame
  import SsVerifier
  import Scans

  /** A position as the list stores it: `i * 9 + j`. */
  function Code(p: Pos): int { p.r * 9 + p.c }

  /** `row = pos / 9`, `col = pos % 9`. */
  function Decode(pos: int): Pos { Pos(pos / 9, pos % 9) }

  lemma CodeDecode(p: Pos)
    requires InBoard(p.r, p.c)
    ensures 0 <= Code(p) < 81 && Decode(Code(p)) == p
  {
    assert 0 <= p.r * 9 <= 72;
  }

  lemma DecodeOnBoard(x: int)
    requires 0 <= x < 81
    ensures InBoard(Decode(x).r, Decode(x).c) && Code(Decode(x)) == x
  {
  }

  /** Earlier in row-major order means a smaller code. */
  lemma CodeOrder(p: Pos, q: Pos)
    requires InBoard(p.r, p.c) && InBoard(q.r, q.c) && Precedes(p, q)
    ensures Code(p) < Code(q)
  {
    if p.r < q.r {
      assert p.r * 9 + 9 <= q.r * 9;
    }
  }

  function Codes(ps: seq<Pos>): (s: seq<int>)
    ensures |s| == |ps|
  {
    seq(|ps|, k requires 0 <= k < |ps| => Code(ps[k]))
  }

  function Decoded(s: seq<int>): (ps: seq<Pos>)
    ensures |ps| == |s|
  {
    seq(|s|, k requires 0 <= k < |s| => Decode(s[k]))
  }

  /** The cells that hold anything but 0. */
  function DigitMask(g: Grid): (m: Mask)
    requires IsGrid(g)
    ensures IsGrid(m)
    ensures forall r, c :: 0 <= r < 9 && 0 <= c < 9 ==> (m[r][c] <==> g[r][c] != 0)
  {
    seq(9, r requires 0 <= r < 9 => seq(9, c requires 0 <= c < 9 => g[r][c] != 0))
  }

  /** The `positions` list: the codes of the nonzero cells, row-major. */
  function Positions(g: Grid): seq<int>
    requires IsGrid(g)
  {
    Codes(AllListed(DigitMask(g)))
  }

  predicate NoRepeats(s: seq<int>) {
    forall i, j :: 0 <= i < j < |s| ==> s[i] != s[j]
  }

  /** Every position names a board cell holding a digit, once. */
  lemma PositionsSpec(g: Grid)
    requires IsGrid(g)
    ensures NoRepeats(Positions(g))
    ensures forall x :: x in Positions(g) ==> 0 <= x < 81 && g[Decode(x).r][Decode(x).c] != 0
  {
    var m := DigitMask(g);
    var l := AllListed(m);
    AllListedSpec(m);
    forall i, j | 0 <= i < j < |l|
      ensures Code(l[i]) != Code(l[j])
    {
      CodeOrder(l[i], l[j]);
    }
    forall x | x in Positions(g)
      ensures 0 <= x < 81 && g[Decode(x).r][Decode(x).c] != 0
    {
      var k :| 0 <= k < |l| && Positions(g)[k] == x;
      CodeDecode(l[k]);
    }
  }

  /** With every flag set, the scan lists every cell it has passed. */
  lemma {:induction false} ListedAll(m: Mask, i: int, j: int)
    requires IsGrid(m) && Cursor(i, j) && forall r, c :: 0 <= r < 9 && 0 <= c < 9 ==> m[r][c]
    ensures |Listed(m, i, j)| == 9 * i + j
    decreases i, j
  {
    if j == 0 {
      if i == 0 {
        ListedStart(m);
      } else {
        ListedWrap(m, i - 1);
        ListedAll(m, i - 1, 9);
      }
    } else {
      ListedStep(m, i, j - 1);
      ListedAll(m, i, j - 1);
    }
  }

  /** A board without 0 has all 81 positions. */
  lemma PositionsFull(g: Grid)
    requires IsGrid(g) && !HasZero(g)
    ensures |Positions(g)| == 81
  {
    ListedAll(DigitMask(g), 9, 0);
  }

  /** A value that occurs once, or not at all. */
  lemma {:induction false} NoRepeatsCount(s: seq<int>, x: int)
    requires NoRepeats(s)
    ensures multiset(s)[x] <= 1
  {
    if s != [] {
      assert s == [s[0]] + s[1..];
      NoRepeatsCount(s[1..], x);
      if s[0] == x {
        assert x !in s[1..];
      }
    }
  }

  /** A permutation of a list without repeats has none. */
  lemma PermNoRepeats(a: seq<int>, b: seq<int>)
    requires NoRepeats(a) && multiset(a) == multiset(b)
    ensures NoRepeats(b)
  {
    forall i, j | 0 <= i < j < |b|
      ensures b[i] != b[j]
    {
      if b[i] == b[j] {
        assert b == b[..j] + b[j..];
        assert b[i] in b[..j] && b[j] in b[j..];
        assert multiset(b)[b[i]] == multiset(b[..j])[b[i]] + multiset(b[j..])[b[i]];
        NoRepeatsCount(a, b[i]);
        assert false;
      }
    }
  }

  /** How many cells `generateLevel` blanks: `Math.min(cellsToRemove,
      positions.size())`, none when that is negative. */
  function RemovalCount(cellsToRemove: int, available: int): (n: int)
    ensures 0 <= n && (available >= 0 ==> n <= available)
  {
    var k := if cellsToRemove <= available then cellsToRemove else available;
    if k < 0 then 0 else k
  }

  /** The board `generateLevel` leaves: the shuffled positions, of which the
      first `RemovalCount` are set to 0. */
  ghost function LevelBoard(g: Grid, tape: seq<int>, cellsToRemove: int): (h: Grid)
    requires IsGrid(g)
    ensures IsGrid(h)
  {
    var ps := Positions(g);
    FisherYatesPerm(ps, tape, |ps| - 1);
    var order := FisherYates(ps, tape, |ps| - 1);
    Zeroed(g, Decoded(order[..RemovalCount(cellsToRemove, |ps|)]))
  }

  /** Whatever the draws, `generateLevel` blanks exactly
      `min(cellsToRemove, #digits)` cells, each held a digit, and keeps the
      rest. */
  lemma LevelRemoves(g: Grid, tape: seq<int>, cellsToRemove: int)
    requires IsGrid(g)
    ensures Blanked(g, LevelBoard(g, tape, cellsToRemove)) == RemovalCount(cellsToRemove, |Positions(g)|)
    ensures forall r, c :: InBoard(r, c) ==>
      LevelBoard(g, tape, cellsToRemove)[r][c] == g[r][c]
      || (g[r][c] != 0 && LevelBoard(g, tape, cellsToRemove)[r][c] == 0)
  {
    var ps := Positions(g);
    FisherYatesPerm(ps, tape, |ps| - 1);
    var order := FisherYates(ps, tape, |ps| - 1);
    var n := RemovalCount(cellsToRemove, |ps|);
    var cells := Decoded(order[..n]);
    PositionsSpec(g);
    PermNoRepeats(ps, order);
    forall k | 0 <= k < n
      ensures order[k] in ps
    {
      assert order[k] in multiset(order);
    }
    forall k | 0 <= k < n
      ensures InBoard(cells[k].r, cells[k].c) && g[cells[k].r][cells[k].c] != 0
    {
      DecodeOnBoard(order[k]);
    }
    forall a, b | 0 <= a < b < n
      ensures cells[a] != cells[b]
    {
      DecodeOnBoard(order[a]);
      DecodeOnBoard(order[b]);
    }
    ZeroedCount(g, cells);
  }

  /** From a VALID source every level removes exactly its count: 25, 20, 10. */
  lemma ValidLevelCounts(g: Grid, tape: seq<int>, cellsToRemove: int)
    requires IsGrid(g) && SsClassify(g) == VALID && 0 <= cellsToRemove <= 81
    ensures Blanked(g, LevelBoard(g, tape, cellsToRemove)) == cellsToRemove
  {
    PositionsFull(g);
    LevelRemoves(g, tape, cellsToRemove);
  }

  /** The loop collecting `i * 9 + j` for every nonzero cell. */
  method CollectPositions(board: array2<int>) returns (positions: seq<int>)
    requires Is9x9(board)
    ensures positions == Positions(Cells(board))
  {
    ghost var m := DigitMask(Cells(board));
    positions := [];
    ListedStart(m);
    var i := 0;
    while i < 9
      invariant 0 <= i <= 9
      invariant positions == Codes(Listed(m, i, 0))
    {
      var j := 0;
      while j < 9
        invariant 0 <= j <= 9
        invariant positions == Codes(Listed(m, i, j))
      {
        ListedStep(m, i, j);
        if board[i, j] != 0 {
          CodesSnoc(Listed(m, i, j), Pos(i, j));
          positions := positions + [i * 9 + j];
        } else {
          assert Listed(m, i, j + 1) == Listed(m, i, j);
        }
        j := j + 1;
      }
      ListedWrap(m, i);
      i := i + 1;
    }
  }

  lemma CodesSnoc(ps: seq<Pos>, p: Pos)
    ensures Codes(ps + [p]) == Codes(ps) + [Code(p)]
  {
  }

  lemma DecodedSnoc(s: seq<int>, i: int)
    requires 0 <= i < |s|
    ensures Decoded(s[..i + 1]) == Decoded(s[..i]) + [Decode(s[i])]
  {
  }

  /** `generateLevel`: collects the positions, shuffles them with the
      generator's `Random`, zeroes the first `min(cellsToRemove, size)` in
      the game's own board, and wraps that board in a new `Game`. */
  method GenerateLevel(game: Game, cellsToRemove: int, level: Difficulty, rng: Rng) returns (result: Game)
    requires Is9x9(game.board)
    modifies game.board, rng
    ensures fresh(result) && result.board == game.board && result.difficulty == level
    ensures Cells(game.board) == LevelBoard(old(Cells(game.board)), old(rng.tape), cellsToRemove)
    ensures rng.tape == Drawn(old(rng.tape), |Positions(old(Cells(game.board)))| - 1)
  {
    ghost var g := Cells(game.board);
    ghost var tape := rng.tape;
    var positions := CollectPositions(game.board);
    var n := RemovalCount(cellsToRemove, |positions|);
    var list := new int[|positions|](k requires 0 <= k < |positions| => positions[k]);
    assert list[..] == positions;
    Shuffle(list, rng);
    ShuffledOnBoard(g, list[..]);
    RemoveFirst(game.board, list, n);
    assert Cells(game.board) == LevelBoard(g, tape, cellsToRemove);
    result := new Game(game.board, level);
  }

  /** The shuffled list still holds only board codes. */
  lemma ShuffledOnBoard(g: Grid, s: seq<int>)
    requires IsGrid(g) && multiset(s) == multiset(Positions(g))
    ensures forall k :: 0 <= k < |s| ==> 0 <= s[k] < 81
  {
    PositionsSpec(g);
    forall k | 0 <= k < |s|
      ensures 0 <= s[k] < 81
    {
      assert s[k] in multiset(s);
      assert s[k] in multiset(Positions(g));
      assert s[k] in Positions(g);
    }
  }

  /** The removal loop: `board[pos / 9][pos % 9] = 0` for the first n entries. */
  method RemoveFirst(board: array2<int>, list: array<int>, n: int)
    requires Is9x9(board) && 0 <= n <= list.Length
    requires forall k :: 0 <= k < list.Length ==> 0 <= list[k] < 81
    modifies board
    ensures Cells(board) == Zeroed(old(Cells(board)), Decoded(list[..n]))
  {
    ghost var g := Cells(board);
    ZeroedNone(g);
    assert Decoded(list[..0]) == [];
    var i := 0;
    while i < n
      invariant 0 <= i <= n
      invariant Cells(board) == Zeroed(g, Decoded(list[..i]))
    {
      var pos := list[i];
      DecodeOnBoard(pos);
      DecodedSnoc(list[..], i);
      assert list[..i + 1] == list[..][..i + 1] && list[..i] == list[..][..i];
      ZeroedSnoc(g, Decoded(list[..i]), Decode(pos));
      Write(board, pos / 9, pos % 9, 0);
      i := i + 1;
    }
  }

  /** `countRemovedCells`: the cells nonzero in the source and 0 in the
      modified game. */
  method CountRemovedCells(source: Game, modified: Game) returns (removed: int)
    requires Is9x9(source.board) && Is9x9(modified.board)
    ensures removed == Blanked(Cells(source.board), Cells(modified.board))
  {
    ghost var m := BlankedMask(Cells(source.board), Cells(modified.board));
    removed := 0;
    ListedStart(m);
    var i := 0;
    while i < 9
      invariant 0 <= i <= 9
      invariant removed == |Listed(m, i, 0)|
    {
      var j := 0;
      while j < 9
        invariant 0 <= j <= 9
        invariant removed == |Listed(m, i, j)|
      {
        ListedStep(m, i, j);
        if source.board[i, j] != 0 && modified.board[i, j] == 0 {
          removed := removed + 1;
        }
        j := j + 1;
      }
      ListedWrap(m, i);
      i := i + 1;
    }
  }

  /** A game of the given level whose board is `generateLevel`'s board for
      the source g, the tape and the count. */
  ghost predicate LevelGame(game: Game, level: Difficulty, g: Grid, tape: seq<int>, k: int)
    requires IsGrid(g)
    reads game.board
  {
    Is9x9(game.board) && game.difficulty == level && Cells(game.board) == LevelBoard(g, tape, k)
  }

  /** `generateGames`: an empty map unless the source is VALID; otherwise
      HARD, MEDIUM and EASY, in that order, each from a fresh copy of the
      source with 25, 20 and 10 cells removed. The source is not changed. */
  method GenerateGames(source: Game, rng: Rng) returns (games: map<Difficulty, Game>)
    requires Is9x9(source.board)
    modifies rng
    ensures SsClassify(Cells(source.board)) != VALID ==> games == map[] && rng.tape == old(rng.tape)
    ensures SsClassify(Cells(source.board)) == VALID ==>
      games.Keys == {HARD, MEDIUM, EASY}
      && (forall d :: d in games ==> fresh(games[d]) && fresh(games[d].board))
      && LevelGame(games[HARD], HARD, Cells(source.board), old(rng.tape), 25)
      && LevelGame(games[MEDIUM], MEDIUM, Cells(source.board), Drawn(old(rng.tape), 80), 20)
      && LevelGame(games[EASY], EASY, Cells(source.board), Drawn(Drawn(old(rng.tape), 80), 80), 10)
  {
    var ok := SsVerifier.VerifySourceSolution(source.board);
    if ok.Err? {
      return map[];
    }
    ghost var g := Cells(source.board);
    ghost var t0 := rng.tape;
    PositionsFull(g);
    var hard := Level(source, g, 25, HARD, rng);
    var medium := Level(source, g, 20, MEDIUM, rng);
    var easy := Level(source, g, 10, EASY, rng);
    games := map[HARD := hard, MEDIUM := medium, EASY := easy];
    assert games.Keys == {HARD, MEDIUM, EASY};
    forall d | d in games
      ensures fresh(games[d]) && fresh(games[d].board)
    {
      assert d == HARD || d == MEDIUM || d == EASY;
    }
  }

  /** `generateLevel(new Game(source), k, level)`. */
  method Level(source: Game, ghost g: Grid, k: int, level: Difficulty, rng: Rng) returns (game: Game)
    requires Is9x9(source.board) && Cells(source.board) == g
    modifies rng
    ensures fresh(game) && fresh(game.board) && LevelGame(game, level, g, old(rng.tape), k)
    ensures rng.tape == Drawn(old(rng.tape), |Positions(g)| - 1)
  {
    var copy := new Game.Copy(source);
    game := GenerateLevel(copy, k, level, rng);
  }
}
