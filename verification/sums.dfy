/** Sums and counts over sequences of reals, used for the glyph and window statistics. */
module Sums {

  /** The sum of all elements of `s`. */
  function Sum(s: seq<real>): real
  {
    if |s| == 0 then 0.0 else s[0] + Sum(s[1..])
  }

  /** The number of elements of `s` equal to `v`. */
  function Count(s: seq<real>, v: real): nat
  {
    if |s| == 0 then 0 else (if s[0] == v then 1 else 0) + Count(s[1..], v)
  }

  /** The arithmetic mean of a non-empty sequence. */
  function Average(s: seq<real>): real
    requires |s| > 0
  {
    Sum(s) / |s| as real
  }

  /** Every element of `s` lies in the unit interval. */
  ghost predicate InUnit(s: seq<real>)
  {
    forall i :: 0 <= i < |s| ==> 0.0 <= s[i] <= 1.0
  }

  /** Every element of `s` is 0 or 1. */
  ghost predicate IsBits(s: seq<real>)
  {
    forall i :: 0 <= i < |s| ==> s[i] == 0.0 || s[i] == 1.0
  }

  /** A sum of values in [0,1] lies between 0 and the length. */
  lemma {:induction false} SumInUnitBounds(s: seq<real>)
    requires InUnit(s)
    ensures 0.0 <= Sum(s) <= |s| as real
  {
    if |s| > 0 {
      assert InUnit(s[1..]) by {
        forall i | 0 <= i < |s[1..]| ensures 0.0 <= s[1..][i] <= 1.0 {
          assert s[1..][i] == s[i + 1];
        }
      }
      SumInUnitBounds(s[1..]);
    }
  }

  /** The mean of values in [0,1] lies in [0,1]. */
  lemma AverageInUnit(s: seq<real>)
    requires |s| > 0 && InUnit(s)
    ensures 0.0 <= Average(s) <= 1.0
  {
    SumInUnitBounds(s);
    var n := |s| as real;
    assert Sum(s) / n <= n / n;
  }

  /** The sum of a 0/1 sequence is the number of ones in it. */
  lemma {:induction false} SumOfBits(s: seq<real>)
    requires IsBits(s)
    ensures Sum(s) == Count(s, 1.0) as real
  {
    if |s| > 0 {
      assert IsBits(s[1..]) by {
        forall i | 0 <= i < |s[1..]| ensures s[1..][i] == 0.0 || s[1..][i] == 1.0 {
          assert s[1..][i] == s[i + 1];
        }
      }
      SumOfBits(s[1..]);
    }
  }

  /** Subtracting `m` from each of `n` elements lowers the sum by `n * m`. */
  lemma {:induction false} SumShifted(s: seq<real>, m: real)
    ensures Sum(seq(|s|, i requires 0 <= i < |s| => s[i] - m)) == Sum(s) - |s| as real * m
  {
    var t := seq(|s|, i requires 0 <= i < |s| => s[i] - m);
    if |s| > 0 {
      var u := seq(|s[1..]|, i requires 0 <= i < |s[1..]| => s[1..][i] - m);
      assert t[1..] == u;
      SumShifted(s[1..], m);
    }
  }

  /** Every element of a constant sequence equals its mean. */
  lemma {:induction false} SumConstant(s: seq<real>, v: real)
    requires forall i :: 0 <= i < |s| ==> s[i] == v
    ensures Sum(s) == |s| as real * v
  {
    if |s| > 0 {
      SumConstant(s[1..], v);
    }
  }

  /** One more copy of `a`: a step the solver does not take by itself. */
  lemma MulSucc(a: nat, n: nat)
    ensures a * (n + 1) == a * n + a
  {
  }
}
