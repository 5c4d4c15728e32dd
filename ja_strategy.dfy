/** `PermutationSolveStrategy` of JavaApplication31: the flyweight search over
    the 9^5 readings, driven by its own counter-based iterator, writing the
    first accepted reading into the puzzle. */
module JaStrategy {
  import opened Base
  import opened Rules
  import opened Odometer
  import JaFlyweight
  import Scans

  /** The private iterator: `next()` decodes the counter into base-9 digits
      plus one, in the one `values` array it hands out every time. */
  class CounterIterator {
    const values: array<int>
    var counter: int

    ghost predicate Valid()
      reads this
    {
      values.Length == 5 && 0 <= counter <= Total
    }

    constructor ()
      ensures Valid() && counter == 0 && fresh(values)
    {
      values := new int[5];
      counter := 0;
    }

    /** `hasNext()`: fewer than 9^5 readings handed out. */
    function HasNext(): (b: bool)
      reads this
      ensures b <==> counter < Total
    {
      counter < Total
    }

    /** `next()`: `NoSuchElementException` once the counter reaches 9^5;
        otherwise the counter's reading, written into `values`, which is
        returned itself, not a copy. */
    method Next() returns (r: Result<array<int>>)
      requires Valid()
      modifies this, values
      ensures Valid()
      ensures old(counter) >= Total ==> r == Err(NoSuchElement) && counter == old(counter)
      ensures old(counter) >= Total ==> values[..] == old(values[..])
      ensures old(counter) < Total ==> counter == old(counter) + 1 && r == Ok(values)
      ensures old(counter) < Total ==> values[..] == Combo(old(counter))
    {
      if !HasNext() {
        return Err(NoSuchElement);
      }
      var x := counter;
      counter := counter + 1;
      Decode(values, x);
      return Ok(values);
    }
  }

  /** The decoding loop `values[i] = x % 9 + 1; x /= 9` for i from 4 down to 0. */
  method Decode(values: array<int>, x: int)
    requires values.Length == 5 && x >= 0
    modifies values
    ensures values[..] == DigitsOf(x, 5)
  {
    var y, i := x, 4;
    while i >= 0
      invariant -1 <= i <= 4 && y >= 0
      invariant DigitsOf(x, 5) == DigitsOf(y, i + 1) + values[i + 1..]
      decreases i
    {
      ghost var tail := values[i + 1..];
      values[i] := y % 9 + 1;
      assert values[i..] == [y % 9 + 1] + tail;
      y := y / 9;
      i := i - 1;
    }
  }

  /** The k-th reading, overlaid on the empty cells, passes `isValid`. */
  ghost predicate Passes(g: Grid, k: nat)
    requires IsGrid(g)
    requires ZeroCount(g) <= 5
  {
    ConflictFree(Overlay(g, EmptyCells(g), Combo(k)))
  }

  ghost predicate FirstPass(g: Grid, k: nat)
    requires IsGrid(g) && ZeroCount(g) <= 5
  {
    k < Total && Passes(g, k) && forall j :: 0 <= j < k ==> !Passes(g, j)
  }

  /** `solve`: unless exactly five cells are empty, an exception and the board
      untouched. Otherwise the first reading the flyweight accepts is written
      into the empty cells and the same board is returned; if none is
      accepted, "No solution exists" and the board untouched. */
  method Solve(game: array2<int>) returns (r: Result<array2<int>>, ghost k: nat)
    requires Is9x9(game)
    modifies game
    ensures old(ZeroCount(Cells(game))) != 5 <==> r == Err(UnsupportedCellCount)
    ensures r.Err? ==> Cells(game) == old(Cells(game))
    ensures r.Err? && old(ZeroCount(Cells(game))) == 5 ==>
      r == Err(NoSolution) && forall j :: 0 <= j < Total ==> !Passes(old(Cells(game)), j)
    ensures r.Ok? ==> r.value == game && old(ZeroCount(Cells(game))) == 5 && FirstPass(old(Cells(game)), k)
    ensures r.Ok? ==> Cells(game) == Overlay(old(Cells(game)), EmptyCells(old(Cells(game))), Combo(k))
  {
    k := 0;
    ghost var g := Cells(game);
    var cells := Scans.CollectEmpty(game);
    if |cells| != 5 {
      return Err(UnsupportedCellCount), 0;
    }
    var flyweight := new JaFlyweight.FlyweightBoard(game, cells);
    var iter := new CounterIterator();
    while iter.HasNext()
      invariant fresh(iter) && fresh(iter.values) && iter.Valid()
      invariant Cells(game) == g && flyweight.originalBoard == game && flyweight.emptyCells == cells
      invariant forall j :: 0 <= j < iter.counter ==> !Passes(g, j)
      decreases Total - iter.counter
    {
      ghost var n := iter.counter;
      var candidate := iter.Next();
      var ok := flyweight.IsValid(candidate.value[..]);
      if ok {
        Apply(game, cells, candidate.value[..]);
        return Ok(game), n;
      }
    }
    return Err(NoSolution), 0;
  }

  /** "Apply the solution to the original board": the reading written into
      the listed cells, which on the empty cells is their overlay. */
  method Apply(game: array2<int>, cells: seq<Pos>, candidate: seq<int>)
    requires Is9x9(game) && cells == EmptyCells(Cells(game)) && |cells| <= |candidate|
    modifies game
    ensures Cells(game) == Overlay(old(Cells(game)), cells, candidate)
  {
    EmptyCellsOnBoard(Cells(game));
    OverlayIsWriteAll(Cells(game), cells, candidate);
    assert cells[..|cells|] == cells;
    Scans.WriteCells(game, cells, candidate, |cells|);
    WriteAllPrefix(old(Cells(game)), cells, candidate);
  }

  /** An accepted reading fills the puzzle to a VALID board. */
  lemma PassesFills(g: Grid, k: nat)
    requires IsGrid(g) && ZeroCount(g) == 5 && k < Total && Passes(g, k)
    ensures Classify(Overlay(g, EmptyCells(g), Combo(k))) == VALID
  {
    ComboSpec(k);
    OverlayFillsEmpty(g, Combo(k));
  }
}
