/** The 9^5 enumeration behind both `PermutationIterator` classes and the
    counter-based iterator of `PermutationSolveStrategy`: a reading is a
    sequence of digits 1..9, read as base-9 digits 0..8, most significant
    first. */
module Odometer {

  /** Number of 5-digit readings: 9^5. */
  const Total: int := 59049

  /** Every entry is a digit 1..9. */
  predicate Digits(s: seq<int>) {
    forall i :: 0 <= i < |s| ==> 1 <= s[i] <= 9
  }

  function Pow9(n: nat): (p: nat)
    ensures p >= 1
  {
    if n == 0 then 1 else 9 * Pow9(n - 1)
  }

  /** The number a reading stands for. */
  function Val(s: seq<int>): int {
    if s == [] then 0 else Val(s[..|s| - 1]) * 9 + (s[|s| - 1] - 1)
  }

  /** The n lowest base-9 digits of x, most significant first, each plus 1:
      what the loop `values[i] = x % 9 + 1; x /= 9` for i = n-1 down to 0
      leaves in `values`. */
  function DigitsOf(x: nat, n: nat): (s: seq<int>)
    ensures |s| == n
  {
    if n == 0 then [] else DigitsOf(x / 9, n - 1) + [x % 9 + 1]
  }

  /** The k-th reading, counting from 0. */
  function Combo(k: nat): (s: seq<int>)
    ensures |s| == 5
  {
    DigitsOf(k, 5)
  }

  /** `s` comes strictly before `t` in lexicographic order: at the first
      position where they differ, `s` is smaller. */
  ghost predicate LexLess(s: seq<int>, t: seq<int>)
    requires |s| == |t|
  {
    exists i :: 0 <= i < |s| && s[..i] == t[..i] && s[i] < t[i]
  }

  function Repeat(d: int, n: nat): (s: seq<int>)
    ensures |s| == n && forall i :: 0 <= i < n ==> s[i] == d
  {
    if n == 0 then [] else Repeat(d, n - 1) + [d]
  }

  lemma Pow9Five()
    ensures Pow9(5) == Total
  {
  }

  // ----- readings and their values -----

  lemma {:induction false} ValBound(s: seq<int>)
    requires Digits(s)
    ensures 0 <= Val(s) < Pow9(|s|)
  {
    if s != [] {
      ValBound(s[..|s| - 1]);
    }
  }

  /** `DigitsOf` inverts `Val` on the numbers below 9^n. */
  lemma {:induction false} DigitsOfSpec(x: nat, n: nat)
    requires x < Pow9(n)
    ensures Digits(DigitsOf(x, n))
    ensures Val(DigitsOf(x, n)) == x
  {
    if n > 0 {
      DigitsOfSpec(x / 9, n - 1);
      var s := DigitsOf(x, n);
      assert s[..n - 1] == DigitsOf(x / 9, n - 1);
    }
  }

  /** Equal values mean equal readings. */
  lemma {:induction false} ValInjective(s: seq<int>, t: seq<int>)
    requires Digits(s) && Digits(t) && |s| == |t| && Val(s) == Val(t)
    ensures s == t
  {
    if s != [] {
      var n := |s| - 1;
      ValBound(s[..n]);
      ValBound(t[..n]);
      assert s[n] == t[n];
      ValInjective(s[..n], t[..n]);
      assert s == s[..n] + [s[n]];
      assert t == t[..n] + [t[n]];
    }
  }

  /** A smaller value means an earlier reading in lexicographic order. */
  lemma {:induction false} ValLex(s: seq<int>, t: seq<int>)
    requires Digits(s) && Digits(t) && |s| == |t| && Val(s) < Val(t)
    ensures LexLess(s, t)
  {
    var n := |s| - 1;
    ValBound(s[..n]);
    ValBound(t[..n]);
    if Val(s[..n]) < Val(t[..n]) {
      ValLex(s[..n], t[..n]);
      var i :| 0 <= i < n && s[..n][..i] == t[..n][..i] && s[..n][i] < t[..n][i];
      assert s[..i] == s[..n][..i] && t[..i] == t[..n][..i];
      assert s[i] < t[i];
    } else {
      assert Val(s[..n]) == Val(t[..n]);
      ValInjective(s[..n], t[..n]);
      assert s[n] < t[n];
    }
  }

  /** Every index below 9^5 names a reading whose value is that index. */
  lemma ComboSpec(k: nat)
    requires k < Total
    ensures Digits(Combo(k)) && Val(Combo(k)) == k
  {
    Pow9Five();
    DigitsOfSpec(k, 5);
  }

  /** Every reading occurs in the enumeration, exactly at the index of its value. */
  lemma ComboOfVal(s: seq<int>)
    requires Digits(s) && |s| == 5
    ensures 0 <= Val(s) < Total && Combo(Val(s)) == s
  {
    ValBound(s);
    Pow9Five();
    ComboSpec(Val(s));
    ValInjective(Combo(Val(s)), s);
  }

  /** The enumeration is strictly increasing in lexicographic order. */
  lemma ComboIncreasing(j: nat, k: nat)
    requires j < k < Total
    ensures LexLess(Combo(j), Combo(k))
  {
    ComboSpec(j);
    ComboSpec(k);
    ValLex(Combo(j), Combo(k));
  }

  lemma {:induction false} AllOnes(n: nat)
    ensures Val(Repeat(1, n)) == 0
  {
    if n > 0 {
      AllOnes(n - 1);
      assert Repeat(1, n)[..n - 1] == Repeat(1, n - 1);
    }
  }

  lemma {:induction false} AllNines(n: nat)
    ensures Val(Repeat(9, n)) == Pow9(n) - 1
  {
    if n > 0 {
      AllNines(n - 1);
      assert Repeat(9, n)[..n - 1] == Repeat(9, n - 1);
    }
  }

  /** It starts at 1,1,1,1,1 and ends at 9,9,9,9,9. */
  lemma ComboEnds()
    ensures Combo(0) == [1, 1, 1, 1, 1]
    ensures Combo(Total - 1) == [9, 9, 9, 9, 9]
  {
    assert Repeat(1, 5) == [1, 1, 1, 1, 1];
    assert Repeat(9, 5) == [9, 9, 9, 9, 9];
    AllOnes(5);
    AllNines(5);
    ComboOfVal([1, 1, 1, 1, 1]);
    ComboOfVal([9, 9, 9, 9, 9]);
  }

  // ----- one odometer step -----

  /** The state of the carry loop when it stops at digit i: everything left
      of i untouched, digit i raised by one, everything right of i wrapped
      from 9 to 1. The reading's value goes up by one. */
  lemma {:induction false} StepAt(before: seq<int>, after: seq<int>, i: int)
    requires Digits(before) && |after| == |before| && 0 <= i < |before|
    requires after[..i] == before[..i] && before[i] < 9 && after[i] == before[i] + 1
    requires forall k :: i < k < |before| ==> before[k] == 9 && after[k] == 1
    ensures Digits(after) && Val(after) == Val(before) + 1
    decreases |before|
  {
    var n := |before| - 1;
    if i == n {
      assert after[..n] == before[..n];
    } else {
      var b, a := before[..n], after[..n];
      assert a[..i] == after[..i] && b[..i] == before[..i];
      assert a[i] == after[i] && b[i] == before[i];
      assert forall k :: i < k < n ==> b[k] == 9 && a[k] == 1;
      StepAt(b, a, i);
    }
  }

  /** The carry runs off the left end only from 9,...,9, the last reading,
      and leaves 1,...,1. */
  lemma StepWrap(before: seq<int>, after: seq<int>)
    requires |after| == |before|
    requires forall k :: 0 <= k < |before| ==> before[k] == 9 && after[k] == 1
    ensures Digits(after) && Val(after) == 0 && Val(before) == Pow9(|before|) - 1
  {
    assert before == Repeat(9, |before|);
    assert after == Repeat(1, |before|);
    AllNines(|before|);
    AllOnes(|before|);
  }

  /** Where one odometer step leads: from the reading of `calls mod 9^5`,
      a reading one higher, or 1,...,1 after 9,...,9, is the reading of
      `calls + 1 mod 9^5`; the wrap happens exactly when that index is 0. */
  lemma NextIndex(calls: nat, before: seq<int>, after: seq<int>)
    requires before == Combo(calls % Total) && |after| == 5 && Digits(after)
    requires Val(after) == Val(before) + 1 || (Val(after) == 0 && Val(before) == Total - 1)
    ensures after == Combo((calls + 1) % Total)
    ensures Val(after) == 0 <==> (calls + 1) % Total == 0
    ensures Val(after) != 0 ==> (calls < Total <==> calls + 1 < Total)
    ensures Val(after) == 0 ==> calls + 1 >= Total
  {
    ComboSpec(calls % Total);
    ComboOfVal(after);
    ModNext(calls);
    CycleStep(calls);
  }

  /** Within the first cycle the index is the count itself. */
  lemma CycleStep(x: nat)
    ensures x % Total == Total - 1 ==> x + 1 >= Total
    ensures x % Total != Total - 1 ==> (x < Total <==> x + 1 < Total)
  {
    if x < Total {
      assert x % Total == x;
    }
  }

  /** Counting round the cycle of 9^5. */
  lemma ModNext(x: nat)
    ensures (x + 1) % Total == if x % Total == Total - 1 then 0 else x % Total + 1
  {
    var q, r := x / Total, x % Total;
    assert x == q * Total + r && 0 <= r < Total;
    if r == Total - 1 {
      assert x + 1 == (q + 1) * Total;
    } else {
      assert x + 1 == q * Total + (r + 1);
    }
  }

  /** The carry loop both iterators run on their reading: from the last digit
      leftwards, a 9 becomes 1 and carries, any other digit goes up by one and
      stops the loop. Returns where it stopped, -1 when the carry ran off the
      left end. */
  method Carry(a: array<int>) returns (i: int)
    requires a.Length == 5 && Digits(a[..])
    modifies a
    ensures -1 <= i < 5 && Digits(a[..])
    ensures i >= 0 ==> Val(a[..]) == Val(old(a[..])) + 1
    ensures i < 0 ==> Val(a[..]) == 0 && Val(old(a[..])) == Total - 1
  {
    ghost var before := a[..];
    i := 4;
    while i >= 0
      invariant -1 <= i <= 4
      invariant a[..i + 1] == before[..i + 1]
      invariant forall k :: i < k < 5 ==> before[k] == 9 && a[k] == 1
      decreases i
    {
      if a[i] < 9 {
        assert a[i] == before[i];
        a[i] := a[i] + 1;
        assert a[..i] == before[..i] by {
          assert a[..i] == old(a[..])[..i + 1][..i];
        }
        StepAt(before, a[..], i);
        return;
      }
      a[i] := 1;
      i := i - 1;
    }
    StepWrap(before, a[..]);
    Pow9Five();
  }

  /** `clone()` / `Arrays.copyOf` of a reading. */
  method Copy(a: array<int>) returns (b: array<int>)
    ensures fresh(b) && b[..] == a[..]
  {
    b := new int[a.Length](k reads a requires 0 <= k < a.Length => a[k]);
    assert b[..] == a[..];
  }
}
