/** Aggregates over price lists shared by lib/area-price-api.ts and
    lib/calculate-regional-average.ts: sum, extremes and the mean rounded the
    way `Math.round(sum / n)` rounds a non-negative quotient. */
module Stats {

  function Sum(xs: seq<int>): (s: int)
    ensures (forall i :: 0 <= i < |xs| ==> xs[i] >= 0) ==> s >= 0
  {
    if xs == [] then 0 else Sum(xs[..|xs| - 1]) + xs[|xs| - 1]
  }

  /** `Math.max(...xs)` for a non-empty list. */
  function MaxOf(xs: seq<int>): (m: int)
    requires xs != []
    ensures m in xs
    ensures forall i :: 0 <= i < |xs| ==> xs[i] <= m
  {
    if |xs| == 1 then xs[0]
    else
      var rest := MaxOf(xs[..|xs| - 1]);
      if xs[|xs| - 1] > rest then xs[|xs| - 1] else rest
  }

  /** `Math.min(...xs)` for a non-empty list. */
  function MinOf(xs: seq<int>): (m: int)
    requires xs != []
    ensures m in xs
    ensures forall i :: 0 <= i < |xs| ==> m <= xs[i]
  {
    if |xs| == 1 then xs[0]
    else
      var rest := MinOf(xs[..|xs| - 1]);
      if xs[|xs| - 1] < rest then xs[|xs| - 1] else rest
  }

  /** `Math.round(sum / n)` for `sum >= 0`: the integer nearest to the
      quotient, halves rounded up. */
  function RoundHalfUp(sum: nat, n: nat): (r: nat)
    requires n > 0
    ensures 2 * n * r <= 2 * sum + n < 2 * n * (r + 1)
  {
    (2 * sum + n) / (2 * n)
  }

  /** The sum lies between `n` times the least and `n` times the greatest
      element. */
  lemma {:induction false} SumBounds(xs: seq<int>, lo: int, hi: int)
    requires forall i :: 0 <= i < |xs| ==> lo <= xs[i] <= hi
    ensures |xs| * lo <= Sum(xs) <= |xs| * hi
  {
    if xs != [] {
      SumBounds(xs[..|xs| - 1], lo, hi);
      assert |xs| * lo == (|xs| - 1) * lo + lo;
      assert |xs| * hi == (|xs| - 1) * hi + hi;
    }
  }

  /** A rounded mean lies between the bounds of what it averages. */
  lemma RoundedMeanBetween(sum: nat, n: nat, lo: int, hi: int)
    requires n > 0 && n * lo <= sum <= n * hi
    ensures lo <= RoundHalfUp(sum, n) <= hi
  {
    var m := 2 * n;
    var x := 2 * sum + n;
    assert m * lo == 2 * (n * lo);
    assert m * (hi + 1) == 2 * (n * hi) + 2 * n;
    DivBetween(x, m, lo, hi + 1);
  }

  /** `q <= x / m < p` whenever `m * q <= x < m * p`. */
  lemma DivBetween(x: nat, m: nat, q: int, p: int)
    requires m > 0 && m * q <= x < m * p
    ensures q <= x / m < p
  {
    var d := x / m;
    assert x == m * d + x % m && 0 <= x % m < m;
    assert m * q < m * (d + 1);
    assert m * d < m * p;
    LessByFactor(m, q, d + 1);
    LessByFactor(m, d, p);
  }

  lemma LessByFactor(m: nat, a: int, b: int)
    requires m > 0 && m * a < m * b
    ensures a < b
  {
    assert m * (b - a) > 0;
    PositiveFactor(m, b - a);
  }

  lemma PositiveFactor(m: nat, c: int)
    requires m > 0 && m * c > 0
    ensures c > 0
  {
  }

  /** The rounded mean of a non-empty list of non-negative values lies
      between its least and greatest element. */
  lemma MeanBetweenExtremes(xs: seq<int>)
    requires xs != [] && forall i :: 0 <= i < |xs| ==> xs[i] >= 0
    ensures Sum(xs) >= 0
    ensures MinOf(xs) <= RoundHalfUp(Sum(xs), |xs|) <= MaxOf(xs)
  {
    SumBounds(xs, MinOf(xs), MaxOf(xs));
    SumBounds(xs, 0, MaxOf(xs));
    RoundedMeanBetween(Sum(xs), |xs|, MinOf(xs), MaxOf(xs));
  }
}
