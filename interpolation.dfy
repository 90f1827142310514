/**
 * The income -> percentile mapping that the comparator builds with
 * `interp1d(incomes, percentiles, bounds_error=False, fill_value=(1, 99))`:
 * linear interpolation between knots, a fixed fill value below the first
 * knot and another above the last one.
 */
module Interpolation {

  ghost predicate Sorted(xs: seq<real>) {
    forall i, j :: 0 <= i < j < |xs| ==> xs[i] <= xs[j]
  }

  ghost predicate StrictlyIncreasing(xs: seq<real>) {
    forall i, j :: 0 <= i < j < |xs| ==> xs[i] < xs[j]
  }

  ghost predicate InRange(ys: seq<real>, lo: real, hi: real) {
    forall i :: 0 <= i < |ys| ==> lo <= ys[i] <= hi
  }

  /** The fill values the comparator passes for incomes outside the table. */
  const FillBelow: real := 1.0
  const FillAbove: real := 99.0

  /** A linear interpolant over knots (xs[i], ys[i]) with out-of-range fill values. */
  datatype Interp1d = Interp1d(xs: seq<real>, ys: seq<real>, below: real, above: real)
  {
    /** Two or more knots with distinct, increasing abscissae. */
    ghost predicate Valid() {
      |xs| == |ys| && |xs| >= 2 && StrictlyIncreasing(xs)
    }
  }

  /**
   * numpy's `searchsorted(xs, x, side='left')`: the number of knots strictly
   * below x, which on a sorted sequence is the first index whose knot is >= x.
   */
  function SearchSortedLeft(xs: seq<real>, x: real): (i: nat)
    requires Sorted(xs)
    ensures i <= |xs|
    ensures forall j :: 0 <= j < i ==> xs[j] < x
    ensures forall j :: i <= j < |xs| ==> x <= xs[j]
  {
    if |xs| == 0 || x <= xs[0] then 0
    else
      var i' := SearchSortedLeft(xs[1..], x);
      assert forall j :: 1 <= j < |xs| ==> xs[j] == xs[1..][j - 1];
      1 + i'
  }

  /**
   * The interpolating line of segment [xs[lo], xs[lo + 1]] evaluated at x;
   * it passes through both knots of the segment.
   */
  function Lerp(f: Interp1d, lo: nat, x: real): (r: real)
    requires f.Valid() && lo + 1 < |f.xs|
    ensures x == f.xs[lo] ==> r == f.ys[lo]
    ensures x == f.xs[lo + 1] ==> r == f.ys[lo + 1]
  {
    var dx := f.xs[lo + 1] - f.xs[lo];
    var slope := (f.ys[lo + 1] - f.ys[lo]) / dx;
    assert slope * dx == f.ys[lo + 1] - f.ys[lo];
    slope * (x - f.xs[lo]) + f.ys[lo]
  }

  /**
   * The segment scipy uses for an in-range x: `searchsorted` clipped to
   * [1, n - 1], minus one.
   */
  function SegmentOf(f: Interp1d, x: real): (lo: nat)
    requires f.Valid() && f.xs[0] <= x <= f.xs[|f.xs| - 1]
    ensures lo + 1 < |f.xs|
    ensures f.xs[lo] <= x <= f.xs[lo + 1]
  {
    var n := |f.xs|;
    var idx := SearchSortedLeft(f.xs, x);
    var clipped := if idx < 1 then 1 else if idx > n - 1 then n - 1 else idx;
    clipped - 1
  }

  /**
   * Calling the interpolant on one income: the lower fill strictly below the
   * first knot, the upper fill strictly above the last, the segment's line in
   * between.
   */
  function Eval(f: Interp1d, x: real): (r: real)
    requires f.Valid()
    ensures x < f.xs[0] ==> r == f.below
    ensures x > f.xs[|f.xs| - 1] ==> r == f.above
  {
    if x < f.xs[0] then f.below
    else if x > f.xs[|f.xs| - 1] then f.above
    else Lerp(f, SegmentOf(f, x), x)
  }

  /** On a segment the line stays between the percentiles of its two knots. */
  lemma LerpBetween(f: Interp1d, lo: nat, x: real)
    requires f.Valid() && lo + 1 < |f.xs|
    requires f.xs[lo] <= x <= f.xs[lo + 1]
    ensures f.ys[lo] <= f.ys[lo + 1] ==> f.ys[lo] <= Lerp(f, lo, x) <= f.ys[lo + 1]
    ensures f.ys[lo + 1] <= f.ys[lo] ==> f.ys[lo + 1] <= Lerp(f, lo, x) <= f.ys[lo]
  {
    var dx := f.xs[lo + 1] - f.xs[lo];
    var slope := (f.ys[lo + 1] - f.ys[lo]) / dx;
    var t := x - f.xs[lo];
    assert 0.0 <= t <= dx;
    assert slope * dx == f.ys[lo + 1] - f.ys[lo];
    assert Lerp(f, lo, x) == slope * t + f.ys[lo];
    if slope >= 0.0 {
      assert 0.0 <= slope * t <= slope * dx;
    } else {
      assert slope * dx <= slope * t <= 0.0;
    }
  }

  /** Within one segment the line is non-decreasing when the segment rises. */
  lemma LerpMonotone(f: Interp1d, lo: nat, x1: real, x2: real)
    requires f.Valid() && lo + 1 < |f.xs|
    requires f.ys[lo] <= f.ys[lo + 1] && x1 <= x2
    ensures Lerp(f, lo, x1) <= Lerp(f, lo, x2)
  {
    var dx := f.xs[lo + 1] - f.xs[lo];
    var slope := (f.ys[lo + 1] - f.ys[lo]) / dx;
    assert slope >= 0.0;
    assert slope * (x1 - f.xs[lo]) <= slope * (x2 - f.xs[lo]);
  }

  /**
   * Any segment that contains x gives the value the interpolant returns:
   * at a knot shared by two segments both lines agree.
   */
  lemma {:induction false} EvalOnSegment(f: Interp1d, k: nat, x: real)
    requires f.Valid() && k + 1 < |f.xs|
    requires f.xs[k] <= x <= f.xs[k + 1]
    ensures Eval(f, x) == Lerp(f, k, x)
  {
    var lo := SegmentOf(f, x);
    if lo != k {
      // searchsorted(side='left') puts a shared knot in the segment on its left
      assert lo + 1 == k && x == f.xs[k];
    }
  }

  /** At every knot the interpolant returns exactly that knot's percentile. */
  lemma EvalAtKnot(f: Interp1d, i: nat)
    requires f.Valid() && i < |f.xs|
    ensures Eval(f, f.xs[i]) == f.ys[i]
  {
    if i + 1 < |f.xs| {
      EvalOnSegment(f, i, f.xs[i]);
    } else {
      EvalOnSegment(f, i - 1, f.xs[i]);
    }
  }

  /** Between two adjacent knots the result lies between their percentiles. */
  lemma EvalBetweenKnots(f: Interp1d, k: nat, x: real)
    requires f.Valid() && k + 1 < |f.xs|
    requires f.xs[k] <= x <= f.xs[k + 1]
    ensures f.ys[k] <= f.ys[k + 1] ==> f.ys[k] <= Eval(f, x) <= f.ys[k + 1]
    ensures f.ys[k + 1] <= f.ys[k] ==> f.ys[k + 1] <= Eval(f, x) <= f.ys[k]
  {
    EvalOnSegment(f, k, x);
    LerpBetween(f, k, x);
  }

  /** When every percentile lies between the two fill values, so does every result. */
  lemma EvalInRange(f: Interp1d, x: real)
    requires f.Valid() && f.below <= f.above
    requires InRange(f.ys, f.below, f.above)
    ensures f.below <= Eval(f, x) <= f.above
  {
    if f.xs[0] <= x <= f.xs[|f.xs| - 1] {
      var lo := SegmentOf(f, x);
      LerpBetween(f, lo, x);
    }
  }

  /**
   * With non-decreasing percentiles that all lie between the fill values,
   * a larger income never gets a smaller percentile.
   */
  lemma EvalMonotone(f: Interp1d, x1: real, x2: real)
    requires f.Valid() && f.below <= f.above
    requires Sorted(f.ys) && InRange(f.ys, f.below, f.above)
    requires x1 <= x2
    ensures Eval(f, x1) <= Eval(f, x2)
  {
    var n := |f.xs|;
    if x1 < f.xs[0] {
      EvalInRange(f, x2);
    } else if x2 > f.xs[n - 1] {
      EvalInRange(f, x1);
    } else {
      var k1 := SegmentOf(f, x1);
      var k2 := SegmentOf(f, x2);
      if k1 == k2 {
        LerpMonotone(f, k1, x1, x2);
      } else {
        assert k1 < k2;
        LerpBetween(f, k1, x1);
        LerpBetween(f, k2, x2);
        assert f.ys[k1 + 1] <= f.ys[k2];
      }
    }
  }

  /**
   * Monotonicity needs every percentile within [1, 99]: a row at percentile
   * 100 makes the value at the largest income exceed the fill just above it.
   */
  lemma PercentileAboveFillBreaksMonotonicity()
    ensures var f := Interp1d([10.0, 20.0], [50.0, 100.0], FillBelow, FillAbove);
            f.Valid() && Eval(f, 20.0) == 100.0 && Eval(f, 21.0) == 99.0
  {
    var f := Interp1d([10.0, 20.0], [50.0, 100.0], FillBelow, FillAbove);
    EvalAtKnot(f, 1);
  }

  /** A three-row table: US incomes 20000/50000/120000 at percentiles 10/50/90. */
  lemma ExampleTableLookups()
    ensures var f := Interp1d([20000.0, 50000.0, 120000.0], [10.0, 50.0, 90.0], FillBelow, FillAbove);
            f.Valid() && Eval(f, 50000.0) == 50.0 && Eval(f, 20000.0) == 10.0 && Eval(f, 500.0) == 1.0
            && Eval(f, 35000.0) == 30.0
  {
    var f := Interp1d([20000.0, 50000.0, 120000.0], [10.0, 50.0, 90.0], FillBelow, FillAbove);
    EvalAtKnot(f, 0);
    EvalAtKnot(f, 1);
    EvalOnSegment(f, 0, 35000.0);
  }
}
