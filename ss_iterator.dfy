/** `PermutationIterator` of sssoduku: the same odometer over five digits
    1..9, except that `next()` on an exhausted iterator throws
    `NoSuchElementException` and changes nothing. */
module SsIterator {
  import opened Base
  import opened Odometer

  class PermutationIterator {
    const currentCombination: array<int>
    var hasNext: bool
    /** How many readings `next()` has handed out. */
    ghost var calls: nat

    /** The reading is the `calls`-th one; at most 9^5 are handed out. */
    ghost predicate Valid()
      reads this, currentCombination
    {
      currentCombination.Length == 5 && calls <= Total
        && currentCombination[..] == Combo(calls % Total) && (hasNext <==> calls < Total)
    }

    /** `Arrays.fill(currentCombination, 1)`, `hasNext` set. */
    constructor ()
      ensures Valid() && calls == 0 && fresh(currentCombination)
    {
      currentCombination := new int[5](_ => 1);
      hasNext := true;
      calls := 0;
      new;
      ComboEnds();
      assert currentCombination[..] == [1, 1, 1, 1, 1];
    }

    /** `hasNext()`: some of the 9^5 readings are still to come. */
    function HasNext(): (b: bool)
      requires Valid()
      reads this, currentCombination
      ensures b <==> calls < Total
    {
      hasNext
    }

    /** `next()`: throws once exhausted; otherwise a copy of the reading, then
        the carry loop, and `hasNext` cleared when the carry ran off the left. */
    method Next() returns (r: Result<array<int>>)
      requires Valid()
      modifies this, currentCombination
      ensures Valid()
      ensures !old(hasNext) ==> r == Err(NoSuchElement) && calls == old(calls)
      ensures !old(hasNext) ==> hasNext == old(hasNext) && currentCombination[..] == old(currentCombination[..])
      ensures old(hasNext) ==> calls == old(calls) + 1 && r.Ok?
      ensures old(hasNext) ==> r.Ok? && fresh(r.value) && r.value[..] == Combo(old(calls))
    {
      if !hasNext {
        return Err(NoSuchElement);
      }
      var result := Copy(currentCombination);
      ghost var before := currentCombination[..];
      assert calls % Total == calls;
      ComboSpec(calls % Total);
      var i := Carry(currentCombination);
      NextIndex(calls, before, currentCombination[..]);
      if i < 0 {
        hasNext := false;
      }
      calls := calls + 1;
      r := Ok(result);
    }
  }
}
