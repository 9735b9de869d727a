/** The precision-weighted mixture of per-tree Gaussian predictions
    (`getDistribParameters` in src/test_gp_approximations.cpp; the library copy
    `rosban_gp::getDistribParameters` used by the forest solver computes the same).

    Every predictor contributes its precision `1 / var_i` as a weight. The mixture
    mean is `sum_i p_i * m_i / sum_i p_i` and the mixture variance is
    `n / sum_i p_i`: the harmonic mean of the variances, which is `n` times the
    standard inverse-variance-weighting variance `1 / sum_i p_i`. */
module Mixture {

  /** The (mean, variance) pair a local Gaussian process reports at a query point. */
  datatype Gaussian = Gaussian(mean: real, variance: real)

  predicate PositiveVariances(ps: seq<Gaussian>) {
    forall i :: 0 <= i < |ps| ==> ps[i].variance > 0.0
  }

  function Precision(g: Gaussian): (p: real)
    requires g.variance > 0.0
    ensures p > 0.0
  {
    1.0 / g.variance
  }

  /** `sum_i 1 / var_i`, accumulated in list order. */
  function TotalPrecision(ps: seq<Gaussian>): (total: real)
    requires PositiveVariances(ps)
    ensures total >= 0.0
    ensures |ps| > 0 ==> total > 0.0
  {
    if ps == [] then 0.0 else TotalPrecision(ps[..|ps| - 1]) + Precision(ps[|ps| - 1])
  }

  /** One term of the dot product `weights.dot(means)`. */
  function WeightedMean(g: Gaussian): real
    requires g.variance > 0.0
  {
    Precision(g) * g.mean
  }

  /** `sum_i (1 / var_i) * mean_i`, accumulated in list order. */
  function WeightedMeanSum(ps: seq<Gaussian>): real
    requires PositiveVariances(ps)
  {
    if ps == [] then 0.0 else WeightedMeanSum(ps[..|ps| - 1]) + WeightedMean(ps[|ps| - 1])
  }

  /** Plain sum of the means (the reference for the equal-variance case). */
  function SumOfMeans(ps: seq<Gaussian>): real {
    if ps == [] then 0.0 else SumOfMeans(ps[..|ps| - 1]) + ps[|ps| - 1].mean
  }

  function MixtureMean(ps: seq<Gaussian>): real
    requires |ps| > 0 && PositiveVariances(ps)
  {
    WeightedMeanSum(ps) / TotalPrecision(ps)
  }

  function MixtureVariance(ps: seq<Gaussian>): real
    requires |ps| > 0 && PositiveVariances(ps)
  {
    (|ps| as real) / TotalPrecision(ps)
  }

  /** The free function of the source: fills `means` and `precisions` predictor by
      predictor, then mixes them with a sum and a dot product. */
  method DistribParameters(gps: seq<Gaussian>) returns (mean: real, variance: real)
    requires |gps| > 0 && PositiveVariances(gps)
    ensures mean == MixtureMean(gps)
    ensures variance == MixtureVariance(gps)
  {
    var n := |gps|;
    var means := new real[n];
    var precisions := new real[n];
    var i := 0;
    while i < n
      invariant 0 <= i <= n
      invariant forall j :: 0 <= j < i ==> means[j] == gps[j].mean && precisions[j] == Precision(gps[j])
    {
      means[i] := gps[i].mean;
      precisions[i] := 1.0 / gps[i].variance;
      i := i + 1;
    }
    // weights.sum() and weights.dot(means)
    var totalWeight, dot := 0.0, 0.0;
    i := 0;
    while i < n
      invariant 0 <= i <= n
      invariant totalWeight == TotalPrecision(gps[..i])
      invariant dot == WeightedMeanSum(gps[..i])
    {
      assert gps[..i + 1][..i] == gps[..i];
      totalWeight := totalWeight + precisions[i];
      assert precisions[i] * means[i] == WeightedMean(gps[i]);
      dot := dot + precisions[i] * means[i];
      i := i + 1;
    }
    assert gps[..n] == gps;
    mean := dot / totalWeight;
    var finalPrecision := totalWeight / (n as real);
    variance := 1.0 / finalPrecision;
    ReciprocalOfQuotient(totalWeight, n as real);
  }

  // ---------------------------------------------------------------------------
  // Facts about real arithmetic, kept apart so that each is proved on its own.

  lemma MulLeftMono(p: real, a: real, b: real)
    requires p >= 0.0 && a <= b
    ensures p * a <= p * b
  {
  }

  lemma Distribute(a: real, x: real, y: real)
    ensures a * (x + y) == a * x + a * y
  {
  }

  lemma DivideBounds(w: real, t: real, lo: real, hi: real)
    requires t > 0.0 && lo * t <= w <= hi * t
    ensures lo <= w / t <= hi
  {
    assert w / t - lo == (w - lo * t) / t;
    assert hi - w / t == (hi * t - w) / t;
  }

  lemma ReciprocalAntitone(a: real, b: real)
    requires 0.0 < a <= b
    ensures 1.0 / b <= 1.0 / a
  {
  }

  lemma ReciprocalOfQuotient(t: real, n: real)
    requires t > 0.0 && n > 0.0
    ensures 1.0 / (t / n) == n / t
  {
  }

  lemma SplitQuotient(k: real, x: real, v: real)
    requires v > 0.0
    ensures (k + x) / v == k / v + x / v
  {
  }

  lemma QuotientOfQuotients(s: real, n: real, v: real)
    requires v > 0.0 && n > 0.0
    ensures (s / v) / (n / v) == s / n
  {
  }

  lemma QuotientBelow(n: real, t: real, b: real)
    requires b > 0.0 && n > 0.0 && n / b <= t
    ensures n / t <= b
  {
    MulLeftMono(b, n / b, t);
    assert b * (n / b) == n;
    DivideBounds(n, t, 0.0, b);
  }

  lemma QuotientAbove(n: real, t: real, b: real)
    requires b > 0.0 && n > 0.0 && 0.0 < t <= n / b
    ensures b <= n / t
  {
    MulLeftMono(b, t, n / b);
    assert b * (n / b) == n;
    assert (n / t) * t == n;
    DivideBounds(n, t, b, n / t);
  }

  lemma ZeroScaled(c: real, total: real)
    requires total == 0.0
    ensures c * total == 0.0
  {
  }

  /** One step of the convex-combination bound from below: adding a predictor
      whose mean is at least `lo` keeps the weighted sum above `lo` times the
      total weight. */
  lemma LowerStep(t: real, w: real, g: Gaussian, lo: real, total: real, sum: real)
    requires g.variance > 0.0 && lo <= g.mean && lo * t <= w
    requires total == t + Precision(g) && sum == w + WeightedMean(g)
    ensures lo * total <= sum
  {
    MulLeftMono(Precision(g), lo, g.mean);
    Distribute(lo, t, Precision(g));
  }

  /** The same step from above. */
  lemma UpperStep(t: real, w: real, g: Gaussian, hi: real, total: real, sum: real)
    requires g.variance > 0.0 && g.mean <= hi && w <= hi * t
    requires total == t + Precision(g) && sum == w + WeightedMean(g)
    ensures sum <= hi * total
  {
    MulLeftMono(Precision(g), g.mean, hi);
    Distribute(hi, t, Precision(g));
  }

  /** One step of the precision bound. */
  lemma PrecisionStep(t: real, v: real, k: real, lo: real, hi: real)
    requires 0.0 < lo <= v <= hi && k / hi <= t <= k / lo
    ensures (k + 1.0) / hi <= t + 1.0 / v <= (k + 1.0) / lo
  {
    ReciprocalAntitone(lo, v);
    ReciprocalAntitone(v, hi);
    SplitQuotient(k, 1.0, hi);
    SplitQuotient(k, 1.0, lo);
  }

  // ---------------------------------------------------------------------------
  // Bounds: the mixture is a convex combination.

  lemma {:induction false} WeightedMeanSumLower(ps: seq<Gaussian>, lo: real)
    requires PositiveVariances(ps)
    requires forall i :: 0 <= i < |ps| ==> lo <= ps[i].mean
    ensures lo * TotalPrecision(ps) <= WeightedMeanSum(ps)
  {
    if ps == [] {
      ZeroScaled(lo, TotalPrecision(ps));
    } else {
      var k := |ps| - 1;
      WeightedMeanSumLower(ps[..k], lo);
      LowerStep(TotalPrecision(ps[..k]), WeightedMeanSum(ps[..k]), ps[k], lo, TotalPrecision(ps), WeightedMeanSum(ps));
    }
  }

  lemma {:induction false} WeightedMeanSumUpper(ps: seq<Gaussian>, hi: real)
    requires PositiveVariances(ps)
    requires forall i :: 0 <= i < |ps| ==> ps[i].mean <= hi
    ensures WeightedMeanSum(ps) <= hi * TotalPrecision(ps)
  {
    if ps == [] {
      ZeroScaled(hi, TotalPrecision(ps));
    } else {
      var k := |ps| - 1;
      WeightedMeanSumUpper(ps[..k], hi);
      UpperStep(TotalPrecision(ps[..k]), WeightedMeanSum(ps[..k]), ps[k], hi, TotalPrecision(ps), WeightedMeanSum(ps));
    }
  }

  /** The precision-weighted sum of the means lies between `lo` and `hi` times
      the total precision. */
  lemma WeightedMeanSumBounds(ps: seq<Gaussian>, lo: real, hi: real)
    requires PositiveVariances(ps)
    requires forall i :: 0 <= i < |ps| ==> lo <= ps[i].mean <= hi
    ensures lo * TotalPrecision(ps) <= WeightedMeanSum(ps) <= hi * TotalPrecision(ps)
  {
    WeightedMeanSumLower(ps, lo);
    WeightedMeanSumUpper(ps, hi);
  }

  /** The mixture mean lies between the smallest and the largest predictor mean. */
  lemma MeanWithinBounds(ps: seq<Gaussian>, lo: real, hi: real)
    requires |ps| > 0 && PositiveVariances(ps)
    requires forall i :: 0 <= i < |ps| ==> lo <= ps[i].mean <= hi
    ensures lo <= MixtureMean(ps) <= hi
  {
    WeightedMeanSumBounds(ps, lo, hi);
    DivideBounds(WeightedMeanSum(ps), TotalPrecision(ps), lo, hi);
  }

  lemma {:induction false} TotalPrecisionBounds(ps: seq<Gaussian>, lo: real, hi: real)
    requires 0.0 < lo <= hi && PositiveVariances(ps)
    requires forall i :: 0 <= i < |ps| ==> lo <= ps[i].variance <= hi
    ensures (|ps| as real) / hi <= TotalPrecision(ps) <= (|ps| as real) / lo
  {
    if ps != [] {
      var k := |ps| - 1;
      TotalPrecisionBounds(ps[..k], lo, hi);
      assert TotalPrecision(ps) == TotalPrecision(ps[..k]) + 1.0 / ps[k].variance;
      PrecisionStep(TotalPrecision(ps[..k]), ps[k].variance, k as real, lo, hi);
    }
  }

  /** The mixture variance lies between the smallest and the largest predictor
      variance (it is their harmonic mean). */
  lemma VarianceWithinBounds(ps: seq<Gaussian>, lo: real, hi: real)
    requires |ps| > 0 && PositiveVariances(ps) && 0.0 < lo
    requires forall i :: 0 <= i < |ps| ==> lo <= ps[i].variance <= hi
    ensures lo <= MixtureVariance(ps) <= hi
  {
    assert lo <= ps[0].variance <= hi;
    TotalPrecisionBounds(ps, lo, hi);
    var n := |ps| as real;
    var t := TotalPrecision(ps);
    QuotientAbove(n, t, lo);
    QuotientBelow(n, t, hi);
  }

  // ---------------------------------------------------------------------------
  // Special cases.

  /** A single predictor is returned unchanged. */
  lemma SinglePredictor(g: Gaussian)
    requires g.variance > 0.0
    ensures MixtureMean([g]) == g.mean
    ensures MixtureVariance([g]) == g.variance
  {
    CommonMean([g], g.mean);
    VarianceWithinBounds([g], g.variance, g.variance);
  }

  /** Predictors that agree on the mean yield that mean, whatever their variances. */
  lemma CommonMean(ps: seq<Gaussian>, m: real)
    requires |ps| > 0 && PositiveVariances(ps)
    requires forall i :: 0 <= i < |ps| ==> ps[i].mean == m
    ensures MixtureMean(ps) == m
  {
    MeanWithinBounds(ps, m, m);
  }

  lemma {:induction false} EqualVarianceSums(ps: seq<Gaussian>, v: real)
    requires v > 0.0
    requires forall i :: 0 <= i < |ps| ==> ps[i].variance == v
    ensures PositiveVariances(ps)
    ensures TotalPrecision(ps) == (|ps| as real) / v
    ensures WeightedMeanSum(ps) == SumOfMeans(ps) / v
  {
    if ps != [] {
      var k := |ps| - 1;
      EqualVarianceSums(ps[..k], v);
      SplitQuotient(k as real, 1.0, v);
      SplitQuotient(SumOfMeans(ps[..k]), ps[k].mean, v);
      assert Precision(ps[k]) * ps[k].mean == ps[k].mean / v;
    }
  }

  /** Predictors that agree on the variance yield that variance and the plain
      arithmetic average of the means. */
  lemma CommonVariance(ps: seq<Gaussian>, v: real)
    requires |ps| > 0 && v > 0.0
    requires forall i :: 0 <= i < |ps| ==> ps[i].variance == v
    ensures PositiveVariances(ps)
    ensures MixtureVariance(ps) == v
    ensures MixtureMean(ps) == SumOfMeans(ps) / (|ps| as real)
  {
    EqualVarianceSums(ps, v);
    VarianceWithinBounds(ps, v, v);
    QuotientOfQuotients(SumOfMeans(ps), |ps| as real, v);
  }

  /** The reported variance is strictly wider than the standard
      inverse-variance-weighting variance `1 / sum_i p_i` as soon as two or more
      predictors are mixed. */
  lemma WiderThanInverseVarianceWeighting(ps: seq<Gaussian>)
    requires |ps| >= 2 && PositiveVariances(ps)
    ensures MixtureVariance(ps) > 1.0 / TotalPrecision(ps)
  {
    var t := TotalPrecision(ps);
    StrictQuotient(|ps| as real, t);
  }

  lemma StrictQuotient(n: real, t: real)
    requires n > 1.0 && t > 0.0
    ensures n / t > 1.0 / t
  {
    assert n / t - 1.0 / t == (n - 1.0) / t;
  }

  /** The total precision depends on the variances only. */
  lemma {:induction false} TotalPrecisionOfVariances(ps: seq<Gaussian>, qs: seq<Gaussian>)
    requires PositiveVariances(ps) && |qs| == |ps|
    requires forall i :: 0 <= i < |ps| ==> qs[i].variance == ps[i].variance
    ensures PositiveVariances(qs)
    ensures TotalPrecision(qs) == TotalPrecision(ps)
  {
    if ps != [] {
      var k := |ps| - 1;
      TotalPrecisionOfVariances(ps[..k], qs[..k]);
    }
  }

  // ---------------------------------------------------------------------------
  // Order of the predictors does not matter.

  lemma {:induction false} SumsSplit(a: seq<Gaussian>, b: seq<Gaussian>)
    requires PositiveVariances(a) && PositiveVariances(b)
    ensures PositiveVariances(a + b)
    ensures TotalPrecision(a + b) == TotalPrecision(a) + TotalPrecision(b)
    ensures WeightedMeanSum(a + b) == WeightedMeanSum(a) + WeightedMeanSum(b)
  {
    if b != [] {
      var k := |b| - 1;
      assert (a + b)[..|a + b| - 1] == a + b[..k];
      SumsSplit(a, b[..k]);
    } else {
      assert a + b == a;
    }
  }

  /** Taking one predictor out of the list takes its terms out of both sums. */
  lemma SumsRemove(qs: seq<Gaussian>, i: nat)
    requires PositiveVariances(qs) && i < |qs|
    ensures PositiveVariances(qs[..i] + qs[i + 1..])
    ensures TotalPrecision(qs) == TotalPrecision(qs[..i] + qs[i + 1..]) + Precision(qs[i])
    ensures WeightedMeanSum(qs) == WeightedMeanSum(qs[..i] + qs[i + 1..]) + WeightedMean(qs[i])
  {
    var x, front, back := qs[i], qs[..i], qs[i + 1..];
    assert qs == front + [x] + back;
    assert PositiveVariances(front) && PositiveVariances(back) && PositiveVariances([x]);
    assert [x][..0] == [];
    assert TotalPrecision([x]) == Precision(x);
    assert WeightedMeanSum([x]) == WeightedMean(x);
    SumsSplit(front, [x]);
    SumsSplit(front + [x], back);
    SumsSplit(front, back);
  }

  lemma MultisetRemove(ps: seq<Gaussian>, qs: seq<Gaussian>, i: nat)
    requires |ps| > 0 && multiset(ps) == multiset(qs) && i < |qs| && qs[i] == ps[|ps| - 1]
    ensures multiset(ps[..|ps| - 1]) == multiset(qs[..i] + qs[i + 1..])
  {
    var k := |ps| - 1;
    var x := ps[k];
    var a, b, c := ps[..k], qs[..i], qs[i + 1..];
    assert ps == a + [x];
    assert qs == b + ([x] + c);
    assert multiset(ps) == multiset(a) + multiset{x};
    assert multiset(qs) == multiset(b) + (multiset{x} + multiset(c));
    assert multiset(b + c) == multiset(b) + multiset(c);
    var before, after := multiset(a), multiset(b + c);
    assert before + multiset{x} == after + multiset{x};
    forall y ensures before[y] == after[y] {
      assert (before + multiset{x})[y] == (after + multiset{x})[y];
    }
  }

  lemma {:induction false} SumsPermutation(ps: seq<Gaussian>, qs: seq<Gaussian>)
    requires PositiveVariances(ps) && multiset(ps) == multiset(qs)
    ensures PositiveVariances(qs)
    ensures TotalPrecision(qs) == TotalPrecision(ps)
    ensures WeightedMeanSum(qs) == WeightedMeanSum(ps)
  {
    assert |qs| == |multiset(qs)| == |multiset(ps)| == |ps|;
    forall j | 0 <= j < |qs| ensures qs[j].variance > 0.0 {
      assert qs[j] in multiset(ps);
    }
    if ps != [] {
      var k := |ps| - 1;
      assert ps[k] in multiset(qs);
      var i :| 0 <= i < |qs| && qs[i] == ps[k];
      MultisetRemove(ps, qs, i);
      SumsRemove(qs, i);
      SumsPermutation(ps[..k], qs[..i] + qs[i + 1..]);
    }
  }

  /** The mixture does not depend on the order of the predictors. */
  lemma PermutationInvariant(ps: seq<Gaussian>, qs: seq<Gaussian>)
    requires |ps| > 0 && PositiveVariances(ps) && multiset(ps) == multiset(qs)
    ensures |qs| == |ps| && PositiveVariances(qs)
    ensures MixtureMean(qs) == MixtureMean(ps)
    ensures MixtureVariance(qs) == MixtureVariance(ps)
  {
    SumsPermutation(ps, qs);
    assert |qs| == |multiset(qs)| == |multiset(ps)| == |ps|;
  }
}
