/** `java.util.Random` as an explicit input, and the Fisher-Yates shuffle both
    projects use: `Controller.shuffleArray` and `Collections.shuffle`. */
module Random {

  /** A tape of draws: `NextInt(n)` consumes one draw and reduces it into
      0..n-1; an empty tape yields 0. */
  class Rng {
    var tape: seq<int>

    constructor (tape: seq<int>)
      ensures this.tape == tape
    {
      this.tape := tape;
    }

    method NextInt(bound: int) returns (v: int)
      requires bound > 0
      modifies this
      ensures v == DrawValue(old(tape), bound) && tape == DrawRest(old(tape))
    {
      if tape == [] {
        v := 0;
      } else {
        v := tape[0] % bound;
        tape := tape[1..];
      }
    }
  }

  /** The value `NextInt(bound)` returns on a given tape. */
  function DrawValue(tape: seq<int>, bound: int): (v: int)
    requires bound > 0
    ensures 0 <= v < bound
  {
    if tape == [] then 0 else tape[0] % bound
  }

  /** The tape left after one draw. */
  function DrawRest(tape: seq<int>): seq<int> {
    if tape == [] then [] else tape[1..]
  }

  /** The tape left after n draws. */
  function Drawn(tape: seq<int>, n: int): seq<int>
    decreases n
  {
    if n <= 0 then tape else Drawn(DrawRest(tape), n - 1)
  }

  function Swap(s: seq<int>, i: int, j: int): seq<int>
    requires 0 <= i < |s| && 0 <= j < |s|
  {
    s[i := s[j]][j := s[i]]
  }

  /** The shuffle loop from index `top` down to 1: swap `s[i]` with
      `s[nextInt(i + 1)]`. */
  function FisherYates(s: seq<int>, tape: seq<int>, top: int): seq<int>
    requires top < |s|
    decreases top
  {
    if top <= 0 then s
    else FisherYates(Swap(s, top, DrawValue(tape, top + 1)), DrawRest(tape), top - 1)
  }

  lemma SwapPerm(s: seq<int>, i: int, j: int)
    requires 0 <= i < |s| && 0 <= j < |s|
    ensures |Swap(s, i, j)| == |s| && multiset(Swap(s, i, j)) == multiset(s)
  {
  }

  /** Whatever the draws, a shuffle is a permutation of its input. */
  lemma {:induction false} FisherYatesPerm(s: seq<int>, tape: seq<int>, top: int)
    requires top < |s|
    ensures |FisherYates(s, tape, top)| == |s|
    ensures multiset(FisherYates(s, tape, top)) == multiset(s)
    decreases top
  {
    if top > 0 {
      SwapPerm(s, top, DrawValue(tape, top + 1));
      FisherYatesPerm(Swap(s, top, DrawValue(tape, top + 1)), DrawRest(tape), top - 1);
    }
  }

  /** `shuffleArray` / `Collections.shuffle`: for i from the last index down
      to 1, swap entry i with entry `nextInt(i + 1)`. */
  method Shuffle(a: array<int>, rng: Rng)
    modifies a, rng
    ensures a[..] == FisherYates(old(a[..]), old(rng.tape), a.Length - 1)
    ensures rng.tape == Drawn(old(rng.tape), a.Length - 1)
    ensures multiset(a[..]) == multiset(old(a[..]))
  {
    ghost var s0, t0 := a[..], rng.tape;
    var i := a.Length - 1;
    while i > 0
      invariant i < a.Length
      invariant FisherYates(a[..], rng.tape, i) == FisherYates(s0, t0, a.Length - 1)
      invariant Drawn(rng.tape, i) == Drawn(t0, a.Length - 1)
      invariant multiset(a[..]) == multiset(s0)
      decreases i
    {
      var k := rng.NextInt(i + 1);
      ghost var before := a[..];
      a[i], a[k] := a[k], a[i];
      assert a[..] == Swap(before, i, k);
      SwapPerm(before, i, k);
      i := i - 1;
    }
  }
}
