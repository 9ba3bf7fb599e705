/** The reductions the views apply to a column of samples: Python's `round`,
    `sum`, `max`, `min`, and the mean `sum(xs) / len(xs)`. Samples are exact
    reals; binary floating point is not modelled. */
module Numeric {

  function Pow10(digits: nat): (p: nat)
    ensures p >= 1
  {
    if digits == 0 then 1 else 10 * Pow10(digits - 1)
  }

  /** The nearest integer to `x`, ties going to the even neighbour. */
  function RoundHalfEven(x: real): (n: int)
    ensures x - 0.5 <= n as real <= x + 0.5
  {
    var f := x.Floor;
    var frac := x - f as real;
    if frac < 0.5 then f
    else if frac > 0.5 then f + 1
    else if f % 2 == 0 then f
    else f + 1
  }

  /** `x` with the decimal point moved `digits` places to the right. */
  function Scale(x: real, digits: nat): real
  {
    x * Pow10(digits) as real
  }

  /** `round(x, digits)`: the multiple of 10^-digits nearest to `x`, ties to even. */
  function Round(x: real, digits: nat): real
  {
    RoundHalfEven(Scale(x, digits)) as real / Pow10(digits) as real
  }

  /** `round(x, 1)` has at most one decimal: ten times it is a whole number. */
  lemma RoundOneDecimal(x: real)
    ensures var f := Round(x, 1); f * 10.0 == (f * 10.0).Floor as real
  {
    var n := RoundHalfEven(Scale(x, 1));
    assert Pow10(1) == 10;
    assert Round(x, 1) * 10.0 == n as real;
  }

  lemma MulMonotone(a: real, b: real, p: real)
    requires a <= b && p > 0.0
    ensures a * p <= b * p
  {
    assert b * p - a * p == (b - a) * p;
  }

  lemma DivMonotone(a: real, b: real, p: real)
    requires a <= b && p > 0.0
    ensures a / p <= b / p
  {
    assert b / p - a / p == (b - a) / p;
  }

  /** A number whose `n`-fold lies between `n * lo` and `n * hi` lies between `lo` and `hi`. */
  lemma DivBounds(s: real, n: real, lo: real, hi: real)
    requires n > 0.0 && n * lo <= s <= n * hi
    ensures lo <= s / n <= hi
  {
    assert s / n - lo == (s - n * lo) / n;
    assert hi - s / n == (n * hi - s) / n;
  }

  lemma RoundHalfEvenMonotone(x: real, y: real)
    requires x <= y
    ensures RoundHalfEven(x) <= RoundHalfEven(y)
  {
    assert x.Floor <= y.Floor;
  }

  /** Rounding never reverses the order of two samples. */
  lemma RoundMonotone(x: real, y: real, digits: nat)
    requires x <= y
    ensures Round(x, digits) <= Round(y, digits)
  {
    var p := Pow10(digits) as real;
    MulMonotone(x, y, p);
    assert Scale(x, digits) <= Scale(y, digits);
    RoundHalfEvenMonotone(Scale(x, digits), Scale(y, digits));
    DivMonotone(RoundHalfEven(Scale(x, digits)) as real, RoundHalfEven(Scale(y, digits)) as real, p);
  }

  /** Rounding moves a value by at most half a unit of the last kept digit. */
  lemma RoundClose(x: real, digits: nat)
    ensures -0.5 / Pow10(digits) as real <= Round(x, digits) - x <= 0.5 / Pow10(digits) as real
  {
    var p := Pow10(digits) as real;
    var s := Scale(x, digits);
    var n := RoundHalfEven(s) as real;
    DivMonotone(-0.5, n - s, p);
    DivMonotone(n - s, 0.5, p);
    assert (n - s) / p == n / p - s / p;
    assert s / p == x;
  }

  /** `sum(xs)`: left to right, starting from 0. */
  function Sum(xs: seq<real>): real
  {
    if |xs| == 0 then 0.0 else Sum(xs[..|xs| - 1]) + xs[|xs| - 1]
  }

  lemma SumSnoc(xs: seq<real>, x: real)
    ensures Sum(xs + [x]) == Sum(xs) + x
  {
    assert (xs + [x])[..|xs|] == xs;
  }

  /** Summing two runs separately and adding the totals gives the same total. */
  lemma {:induction false} SumAppend(xs: seq<real>, ys: seq<real>)
    ensures Sum(xs + ys) == Sum(xs) + Sum(ys)
    decreases |ys|
  {
    if |ys| == 0 {
      assert xs + ys == xs;
    } else {
      var n := |ys| - 1;
      assert (xs + ys)[..|xs| + n] == xs + ys[..n];
      assert Sum(xs + ys) == Sum(xs + ys[..n]) + ys[n];
      assert Sum(ys) == Sum(ys[..n]) + ys[n];
      SumAppend(xs, ys[..n]);
      assert Sum(xs + ys[..n]) == Sum(xs) + Sum(ys[..n]);
    }
  }

  /** A run of zeros sums to zero. */
  lemma {:induction false} SumZeros(xs: seq<real>)
    requires forall i :: 0 <= i < |xs| ==> xs[i] == 0.0
    ensures Sum(xs) == 0.0
    decreases |xs|
  {
    if |xs| > 0 { SumZeros(xs[..|xs| - 1]); }
  }

  /** Raising one element by `d` raises the sum by `d`. */
  lemma {:induction false} SumUpdate(xs: seq<real>, k: nat, d: real)
    requires k < |xs|
    ensures Sum(xs[k := xs[k] + d]) == Sum(xs) + d
    decreases |xs|
  {
    var n := |xs| - 1;
    var ys := xs[k := xs[k] + d];
    if k == n {
      assert ys[..n] == xs[..n];
    } else {
      assert ys[..n] == xs[..n][k := xs[k] + d];
      SumUpdate(xs[..n], k, d);
    }
  }

  /** A sum of `n` samples lies between `n` times their lower and upper bounds. */
  lemma {:induction false} SumBounds(xs: seq<real>, lo: real, hi: real)
    requires forall i :: 0 <= i < |xs| ==> lo <= xs[i] <= hi
    ensures |xs| as real * lo <= Sum(xs) <= |xs| as real * hi
    decreases |xs|
  {
    if |xs| > 0 {
      var n := |xs| - 1;
      SumBounds(xs[..n], lo, hi);
      assert |xs| as real * lo == n as real * lo + lo;
      assert |xs| as real * hi == n as real * hi + hi;
    }
  }

  /** `max(xs)` */
  function Max(xs: seq<real>): (m: real)
    requires |xs| > 0
    ensures m in xs
    ensures forall i :: 0 <= i < |xs| ==> xs[i] <= m
  {
    if |xs| == 1 then xs[0]
    else
      var rest := Max(xs[..|xs| - 1]);
      if xs[|xs| - 1] > rest then xs[|xs| - 1] else rest
  }

  /** `min(xs)` */
  function Min(xs: seq<real>): (m: real)
    requires |xs| > 0
    ensures m in xs
    ensures forall i :: 0 <= i < |xs| ==> m <= xs[i]
  {
    if |xs| == 1 then xs[0]
    else
      var rest := Min(xs[..|xs| - 1]);
      if xs[|xs| - 1] < rest then xs[|xs| - 1] else rest
  }

  /** `sum(xs) / len(xs)`: always between the smallest and the largest sample. */
  function Mean(xs: seq<real>): (m: real)
    requires |xs| > 0
    ensures Min(xs) <= m <= Max(xs)
  {
    SumBounds(xs, Min(xs), Max(xs));
    DivBounds(Sum(xs), |xs| as real, Min(xs), Max(xs));
    Sum(xs) / |xs| as real
  }
}
