/**
 * The closest-to-zero selection that app.js, scripts/populate.js and
 * scripts/sync-populate.js each carry a copy of: one pass over the series
 * that keeps the current best sample and its distance from zero.
 */
module Selector {

  function Abs(x: real): (r: real)
    ensures r >= 0.0 && (r == x || r == -x)
  {
    if x < 0.0 then -x else x
  }

  /** `c` is at least as good a choice as `x`: strictly closer to zero, or
      equally close and not smaller. */
  predicate AtLeastAsClose(c: real, x: real)
  {
    Abs(c) < Abs(x) || (Abs(c) == Abs(x) && x <= c)
  }

  /** `c` is a sample of `s` of minimal absolute value, and the largest
      sample among those of that absolute value. */
  predicate IsClosestToZero(s: seq<real>, c: real)
  {
    c in s && forall x :: x in s ==> AtLeastAsClose(c, x)
  }

  /** The better of two candidates under `AtLeastAsClose`. */
  function Better(a: real, b: real): (r: real)
    ensures AtLeastAsClose(r, a) && AtLeastAsClose(r, b)
    ensures r == a || r == b
  {
    if AtLeastAsClose(a, b) then a else b
  }

  /** Reference definition of the selected value, independent of the scan
      order of the loop below: it folds the series from the right. */
  function ClosestToZero(s: seq<real>): (r: real)
    requires |s| > 0
    ensures IsClosestToZero(s, r)
  {
    if |s| == 1 then s[0]
    else
      var rest := ClosestToZero(s[1..]);
      assert forall x :: x in s ==> x == s[0] || x in s[1..];
      Better(s[0], rest)
  }

  /** At most one value satisfies `IsClosestToZero`: the choice is fully
      determined by the set of samples. */
  lemma ClosestToZeroUnique(s: seq<real>, a: real, b: real)
    requires IsClosestToZero(s, a) && IsClosestToZero(s, b)
    ensures a == b
  {
    assert AtLeastAsClose(a, b) && AtLeastAsClose(b, a);
  }

  /** The selected value depends only on which values occur, so any
      reordering of the series selects the same value. */
  lemma {:induction false} ClosestToZeroPermutation(s: seq<real>, t: seq<real>)
    requires |s| > 0 && multiset(s) == multiset(t)
    ensures |t| > 0 && ClosestToZero(s) == ClosestToZero(t)
  {
    assert |t| == |multiset(t)| == |multiset(s)| == |s|;
    var c := ClosestToZero(s);
    forall x | x in t ensures x in s {
      assert x in multiset(t);
    }
    assert c in multiset(s);
    assert c in t;
    ClosestToZeroUnique(t, c, ClosestToZero(t));
  }

  /** The tie-break favours the positive sample: a negative result means
      its mirror image does not occur in the series. */
  lemma NegativeOnlyWithoutMirror(s: seq<real>)
    requires |s| > 0
    ensures ClosestToZero(s) < 0.0 ==> -ClosestToZero(s) !in s
  {
  }

  /** A zero sample is always selected when present. */
  lemma ZeroWins(s: seq<real>)
    requires 0.0 in s
    ensures ClosestToZero(s) == 0.0
  {
  }

  /**
   * The loop shared by the three copies: `closest` and `minDistance` start
   * from the first sample, and every sample, the first included, is then
   * compared in order. A strictly smaller distance always replaces the
   * current best; an equal distance replaces it only for a strictly
   * greater sample.
   */
  method Scan(temperatures: seq<real>) returns (closest: real)
    requires |temperatures| > 0
    ensures IsClosestToZero(temperatures, closest)
    ensures closest == ClosestToZero(temperatures)
  {
    closest := temperatures[0];
    var minDistance := Abs(closest);
    var i := 0;
    while i < |temperatures|
      invariant 0 <= i <= |temperatures|
      invariant closest in temperatures && minDistance == Abs(closest)
      invariant forall j :: 0 <= j < i ==> AtLeastAsClose(closest, temperatures[j])
    {
      var temp := temperatures[i];
      var distance := Abs(temp);
      if distance < minDistance {
        closest := temp;
        minDistance := distance;
      } else if distance == minDistance && temp > closest {
        closest := temp;
      }
      i := i + 1;
    }
    ClosestToZeroUnique(temperatures, closest, ClosestToZero(temperatures));
  }

  /** The unit-test cases with samples of both signs. */
  lemma {:induction false} TestedMixedSigns()
    ensures ClosestToZero([5.0, -3.0, 2.0, -1.0]) == -1.0
    ensures ClosestToZero([10.0, -5.0, 3.0, -2.0]) == -2.0
    ensures ClosestToZero([1.0, -1.0, 0.5, -0.5]) == 0.5
    ensures ClosestToZero([5.0, -5.0, 3.0, -3.0]) == 3.0
    ensures ClosestToZero([2.0, -2.0, 1.0, -1.0]) == 1.0
  {
    ClosestToZeroUnique([5.0, -3.0, 2.0, -1.0], -1.0, ClosestToZero([5.0, -3.0, 2.0, -1.0]));
    ClosestToZeroUnique([10.0, -5.0, 3.0, -2.0], -2.0, ClosestToZero([10.0, -5.0, 3.0, -2.0]));
    ClosestToZeroUnique([1.0, -1.0, 0.5, -0.5], 0.5, ClosestToZero([1.0, -1.0, 0.5, -0.5]));
    ClosestToZeroUnique([5.0, -5.0, 3.0, -3.0], 3.0, ClosestToZero([5.0, -5.0, 3.0, -3.0]));
    ClosestToZeroUnique([2.0, -2.0, 1.0, -1.0], 1.0, ClosestToZero([2.0, -2.0, 1.0, -1.0]));
  }

  /** The unit-test cases with a single sample, a zero, or tiny values. */
  lemma {:induction false} TestedEdgeCases()
    ensures ClosestToZero([37.2]) == 37.2
    ensures ClosestToZero([-5.3]) == -5.3
    ensures ClosestToZero([0.0, 1.0, -1.0]) == 0.0
    ensures ClosestToZero([0.1, -0.1]) == 0.1
    ensures ClosestToZero([-0.1, 0.1]) == 0.1
  {
    ClosestToZeroUnique([0.0, 1.0, -1.0], 0.0, ClosestToZero([0.0, 1.0, -1.0]));
    ClosestToZeroUnique([0.1, -0.1], 0.1, ClosestToZero([0.1, -0.1]));
    ClosestToZeroUnique([-0.1, 0.1], 0.1, ClosestToZero([-0.1, 0.1]));
  }
}
