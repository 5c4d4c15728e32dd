/** `PermutationIterator` of JavaApplication31: an odometer over five digits
    1..9 that hands out a copy of its reading and then advances it. It never
    refuses a call; after the last reading it starts over at 1,1,1,1,1. */
module JaIterator {
  import opened Odometer

  class PermutationIterator {
    const current: array<int>
    var hasNext: bool
    /** How many readings `next()` has handed out. */
    ghost var calls: nat

    /** The reading is the `calls`-th one, counting round the 9^5 cycle, and
        `hasNext` turns false once all 9^5 have been handed out. */
    ghost predicate Valid()
      reads this, current
    {
      current.Length == 5 && current[..] == Combo(calls % Total) && (hasNext <==> calls < Total)
    }

    /** Starts at 1,1,1,1,1 with `hasNext` set. */
    constructor ()
      ensures Valid() && calls == 0 && fresh(current)
    {
      current := new int[5](_ => 1);
      hasNext := true;
      calls := 0;
      new;
      ComboEnds();
      assert current[..] == [1, 1, 1, 1, 1];
    }

    /** `hasNext()`: some of the 9^5 readings are still to come. */
    function HasNext(): (b: bool)
      requires Valid()
      reads this, current
      ensures b <==> calls < Total
    {
      hasNext
    }

    /** `next()`: a fresh copy of the reading, then the carry loop from the
        last digit; a carry off the left end clears `hasNext`. */
    method Next() returns (result: array<int>)
      requires Valid()
      modifies this, current
      ensures Valid() && calls == old(calls) + 1
      ensures fresh(result) && result[..] == Combo(old(calls) % Total)
    {
      result := Copy(current);
      ghost var before := current[..];
      ComboSpec(calls % Total);
      var i := Carry(current);
      if i < 0 {
        hasNext := false;
      }
      NextIndex(calls, before, current[..]);
      calls := calls + 1;
    }
  }
}
