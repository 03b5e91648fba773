/** The reductions the trace code applies to sequences of numbers: Python's
    `sum`, `max` and `min` and numpy's `max`, all over exact reals. */
module Reductions {

  /** `v` is the largest element of `s`: no element exceeds it and it occurs. */
  ghost predicate IsMaximum(v: real, s: seq<real>)
  {
    (forall i :: 0 <= i < |s| ==> s[i] <= v) && (exists i :: 0 <= i < |s| && s[i] == v)
  }

  /** `v` is the smallest element of `s`: no element is below it and it occurs. */
  ghost predicate IsMinimum(v: real, s: seq<real>)
  {
    (forall i :: 0 <= i < |s| ==> v <= s[i]) && (exists i :: 0 <= i < |s| && s[i] == v)
  }

  function Sum(s: seq<real>): real
  {
    if s == [] then 0.0 else s[0] + Sum(s[1..])
  }

  /** Python's `max(s)` and numpy's `s.max()`; both raise on an empty
      sequence, which callers here rule out first. */
  function MaxOf(s: seq<real>): (m: real)
    requires |s| > 0
    ensures IsMaximum(m, s)
  {
    if |s| == 1 then s[0]
    else
      var rest := MaxOf(s[1..]);
      assert forall i :: 1 <= i < |s| ==> s[i] == s[1..][i - 1];
      if s[0] >= rest then s[0] else rest
  }

  /** Python's `min(s)`. */
  function MinOf(s: seq<real>): (m: real)
    requires |s| > 0
    ensures IsMinimum(m, s)
  {
    if |s| == 1 then s[0]
    else
      var rest := MinOf(s[1..]);
      assert forall i :: 1 <= i < |s| ==> s[i] == s[1..][i - 1];
      if s[0] <= rest then s[0] else rest
  }

  /** A sum of `|s|` terms that all lie in `[lo, hi]` lies in
      `[|s| * lo, |s| * hi]`. */
  lemma {:induction false} SumBetween(s: seq<real>, lo: real, hi: real)
    requires forall i :: 0 <= i < |s| ==> lo <= s[i] <= hi
    ensures |s| as real * lo <= Sum(s) <= |s| as real * hi
  {
    if s != [] {
      assert forall i :: 0 <= i < |s| - 1 ==> s[1..][i] == s[i + 1];
      SumBetween(s[1..], lo, hi);
      assert |s| as real * lo == lo + (|s| - 1) as real * lo;
      assert |s| as real * hi == hi + (|s| - 1) as real * hi;
    }
  }

  /** The arithmetic mean of a non-empty sequence (Python's
      `sum(s) / len(s)`). It lies between the minimum and the maximum. */
  function Mean(s: seq<real>): (m: real)
    requires |s| > 0
    ensures MinOf(s) <= m <= MaxOf(s)
  {
    MeanBounds(s, MinOf(s), MaxOf(s));
    Sum(s) / |s| as real
  }

  /** When every element lies in `[lo, hi]`, so does the mean. */
  lemma MeanBounds(s: seq<real>, lo: real, hi: real)
    requires |s| > 0
    requires forall i :: 0 <= i < |s| ==> lo <= s[i] <= hi
    ensures lo <= Sum(s) / |s| as real <= hi
  {
    SumBetween(s, lo, hi);
    DivideBounds(Sum(s), |s|, lo, hi);
  }

  lemma DivideBounds(total: real, n: nat, lo: real, hi: real)
    requires n > 0 && n as real * lo <= total <= n as real * hi
    ensures lo <= total / n as real <= hi
  {
  }
}
