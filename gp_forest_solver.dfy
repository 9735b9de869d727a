/** The forest-of-Gaussian-processes regression solver
    (src/regression_experiments/gp_forest_solver.cpp).

    After training, every tree of the forest maps a query point to a leaf, and a
    leaf that carries a Gaussian-process approximation reports a mean, a variance
    and a gradient at that point. The solver mixes these per-tree reports:
    predictions by the precision-weighted mixture of `Mixture`, gradients by the
    precision-weighted average of the per-tree gradients, and the maximum by the
    best of 25 local searches, judged by the predicted mean. */
module GPForest {
  import opened Wrappers
  import opened Domain
  import opened Mixture

  // ---------------------------------------------------------------------------
  // The configuration type and its textual names.

  /** How the minimal leaf size is derived from the number of samples. */
  datatype SolverType = Sqrt | Curt | Log2

  datatype LoadError = UnknownType(name: string)

  /** `to_string`. */
  function TypeToString(t: SolverType): (s: string)
    ensures s in {"SQRT", "CURT", "LOG2"}
  {
    match t
    case Sqrt => "SQRT"
    case Curt => "CURT"
    case Log2 => "LOG2"
  }

  /** `loadType`: the three exact names, anything else is an error naming the
      string. */
  function LoadType(s: string): (r: Result<SolverType, LoadError>)
    ensures r.Ok? <==> s in {"SQRT", "CURT", "LOG2"}
    ensures r.Ok? ==> TypeToString(r.value) == s
    ensures r.Err? ==> r.error == UnknownType(s)
  {
    if s == "SQRT" then Ok(Sqrt)
    else if s == "CURT" then Ok(Curt)
    else if s == "LOG2" then Ok(Log2)
    else Err(UnknownType(s))
  }

  /** Loading the name of a type gives that type back. */
  lemma LoadTypeToString(t: SolverType)
    ensures LoadType(TypeToString(t)) == Ok(t)
  {
  }

  /** Distinct types have distinct names. */
  lemma TypeToStringInjective(t: SolverType, u: SolverType)
    ensures TypeToString(t) == TypeToString(u) ==> t == u
  {
    LoadTypeToString(t);
    LoadTypeToString(u);
  }

  // ---------------------------------------------------------------------------
  // A trained forest, seen through what its leaves report at a point.

  /** The leaf a tree reaches for one query point. When `isGP` holds, the leaf
      carries a Gaussian process, and `mean`, `variance` and `gradient` are what
      that process reports at the query point. */
  datatype Leaf = Leaf(isGP: bool, mean: real, variance: real, gradient: seq<real>)

  /** A tree: its root's `getLeaf`, already evaluated by the leaf's model. */
  datatype Tree = Tree(getLeaf: Point -> Leaf)

  type Forest = seq<Tree>

  datatype SolverError = NotGaussianProcess | ZeroVariance

  /** The leaves the trees reach for `x`, in tree order. */
  function LeavesAt(trees: Forest, x: Point): (ls: seq<Leaf>)
  {
    seq(|trees|, t requires 0 <= t < |trees| => trees[t].getLeaf(x))
  }

  function AsGaussian(l: Leaf): Gaussian {
    Gaussian(l.mean, l.variance)
  }

  function Gaussians(ls: seq<Leaf>): (gs: seq<Gaussian>)
  {
    seq(|ls|, t requires 0 <= t < |ls| => AsGaussian(ls[t]))
  }

  predicate AllGP(ls: seq<Leaf>) {
    forall t :: 0 <= t < |ls| ==> ls[t].isGP
  }

  /** A Gaussian process reports a strictly positive variance. */
  predicate GPVariancesPositive(ls: seq<Leaf>) {
    forall t :: 0 <= t < |ls| ==> ls[t].isGP ==> ls[t].variance > 0.0
  }

  /** The prediction of the forest at `x`: the precision-weighted mixture of the
      Gaussians of its leaves. */
  function PointPrediction(trees: Forest, x: Point): Gaussian
    requires |trees| > 0
    requires AllGP(LeavesAt(trees, x)) && GPVariancesPositive(LeavesAt(trees, x))
  {
    var gs := Gaussians(LeavesAt(trees, x));
    Gaussian(MixtureMean(gs), MixtureVariance(gs))
  }

  /** A forest of one tree predicts what its leaf reports. */
  lemma SingleTreePrediction(tree: Tree, x: Point)
    requires tree.getLeaf(x).isGP && tree.getLeaf(x).variance > 0.0
    ensures PointPrediction([tree], x) == AsGaussian(tree.getLeaf(x))
  {
    var gs := Gaussians(LeavesAt([tree], x));
    assert gs == [AsGaussian(tree.getLeaf(x))];
    SinglePredictor(AsGaussian(tree.getLeaf(x)));
  }

  /** The predicted mean lies between the smallest and the largest leaf mean,
      and the predicted variance between the smallest and largest leaf variance. */
  lemma PredictionWithinLeaves(trees: Forest, x: Point, lo: real, hi: real, vlo: real, vhi: real)
    requires |trees| > 0
    requires AllGP(LeavesAt(trees, x)) && GPVariancesPositive(LeavesAt(trees, x))
    requires forall t :: 0 <= t < |trees| ==> lo <= trees[t].getLeaf(x).mean <= hi
    requires 0.0 < vlo
    requires forall t :: 0 <= t < |trees| ==> vlo <= trees[t].getLeaf(x).variance <= vhi
    ensures lo <= PointPrediction(trees, x).mean <= hi
    ensures vlo <= PointPrediction(trees, x).variance <= vhi
  {
    var gs := Gaussians(LeavesAt(trees, x));
    MeanWithinBounds(gs, lo, hi);
    VarianceWithinBounds(gs, vlo, vhi);
  }

  /** The first `n` inputs are all Gaussian processes and `means`, `vars` hold
      their predictions. */
  ghost predicate PredictionsHold(means: array<real>, vars: array<real>, trees: Forest, inputs: seq<Point>, n: nat)
    reads means, vars
    requires means.Length == vars.Length == |inputs| && n <= |inputs|
  {
    forall c :: 0 <= c < n ==>
      |trees| > 0 && AllGP(LeavesAt(trees, inputs[c])) && GPVariancesPositive(LeavesAt(trees, inputs[c])) &&
      means[c] == PointPrediction(trees, inputs[c]).mean &&
      vars[c] == PointPrediction(trees, inputs[c]).variance
  }

  // ---------------------------------------------------------------------------
  // Errors, in the order the loops meet them.

  /** The first `Some` of a list, or `None` when there is none. */
  function FirstError(es: seq<Option<SolverError>>): (r: Option<SolverError>)
    ensures r.None? <==> forall i :: 0 <= i < |es| ==> es[i].None?
  {
    if es == [] then None
    else if es[0].Some? then es[0]
    else FirstError(es[1..])
  }

  /** `FirstError` picks the entry at the first index that holds an error. */
  lemma {:induction false} FirstErrorAt(es: seq<Option<SolverError>>, i: nat)
    requires i < |es| && es[i].Some?
    requires forall j :: 0 <= j < i ==> es[j].None?
    ensures FirstError(es) == es[i]
  {
    if i > 0 {
      FirstErrorAt(es[1..], i - 1);
    }
  }

  /** The error `gradients` raises on one leaf: not a Gaussian process, or a
      variance of exactly 0. */
  function LeafError(l: Leaf): (r: Option<SolverError>)
    ensures r.None? <==> l.isGP && l.variance != 0.0
  {
    if !l.isGP then Some(NotGaussianProcess)
    else if l.variance == 0.0 then Some(ZeroVariance)
    else None
  }

  function LeafErrors(ls: seq<Leaf>): (es: seq<Option<SolverError>>)
  {
    seq(|ls|, t requires 0 <= t < |ls| => LeafError(ls[t]))
  }

  /** The error of one column: that of its first faulty tree. */
  function ColumnError(ls: seq<Leaf>): Option<SolverError> {
    FirstError(LeafErrors(ls))
  }

  function ColumnErrors(trees: Forest, inputs: seq<Point>): (es: seq<Option<SolverError>>)
  {
    seq(|inputs|, c requires 0 <= c < |inputs| => ColumnError(LeavesAt(trees, inputs[c])))
  }

  /** The error `gradients` raises: the first faulty column, and in it the first
      faulty tree. */
  function GradientsError(trees: Forest, inputs: seq<Point>): Option<SolverError> {
    FirstError(ColumnErrors(trees, inputs))
  }

  // ---------------------------------------------------------------------------
  // Gradients.

  /** The per-tree reports a gradient can be computed from: Gaussian processes,
      positive variances, one gradient entry per dimension. */
  predicate GradientReady(ls: seq<Leaf>, dim: nat) {
    |ls| > 0 &&
    forall t :: 0 <= t < |ls| ==> ls[t].isGP && ls[t].variance > 0.0 && |ls[t].gradient| == dim
  }

  /** What the source may assume of a leaf: a Gaussian process reports a variance
      that is not negative and a gradient of the point's dimension. */
  predicate GradientLeavesWellFormed(ls: seq<Leaf>, dim: nat) {
    forall t :: 0 <= t < |ls| ==> ls[t].isGP ==> ls[t].variance >= 0.0 && |ls[t].gradient| == dim
  }

  /** Entry `k` of every tree's gradient, weighted by that tree's variance. */
  function ComponentGaussians(ls: seq<Leaf>, k: nat): (gs: seq<Gaussian>)
    requires forall t :: 0 <= t < |ls| ==> k < |ls[t].gradient|
  {
    seq(|ls|, t requires 0 <= t < |ls| => Gaussian(ls[t].gradient[k], ls[t].variance))
  }

  /** The gradient of the forest: coordinate by coordinate, the mixture mean of the
      per-tree gradients, i.e. `sum_t g_t / v_t / sum_t 1 / v_t`. */
  function MixtureGradient(ls: seq<Leaf>, dim: nat): (g: seq<real>)
    requires GradientReady(ls, dim)
    ensures |g| == dim
  {
    seq(dim, k requires 0 <= k < dim => MixtureMean(ComponentGaussians(ls, k)))
  }

  /** Each coordinate of the forest gradient lies between the smallest and the
      largest value that coordinate takes among the trees. */
  lemma GradientWithinTrees(ls: seq<Leaf>, dim: nat, k: nat, lo: real, hi: real)
    requires GradientReady(ls, dim) && k < dim
    requires forall t :: 0 <= t < |ls| ==> lo <= ls[t].gradient[k] <= hi
    ensures lo <= MixtureGradient(ls, dim)[k] <= hi
  {
    MeanWithinBounds(ComponentGaussians(ls, k), lo, hi);
  }

  /** Trees that agree on the gradient give that gradient, whatever their
      variances; in particular a single tree gives its own gradient. */
  lemma CommonGradient(ls: seq<Leaf>, dim: nat, g: seq<real>)
    requires GradientReady(ls, dim)
    requires forall t :: 0 <= t < |ls| ==> ls[t].gradient == g
    ensures MixtureGradient(ls, dim) == g
  {
    assert |g| == dim by { assert ls[0].gradient == g; }
    forall k | 0 <= k < dim
      ensures MixtureGradient(ls, dim)[k] == g[k]
    {
      CommonMean(ComponentGaussians(ls, k), g[k]);
    }
  }

  /** The weights of every gradient coordinate sum to the forest's total
      precision. */
  lemma ComponentPrecision(ls: seq<Leaf>, dim: nat, k: nat)
    requires GradientReady(ls, dim) && k < dim
    ensures PositiveVariances(Gaussians(ls))
    ensures TotalPrecision(ComponentGaussians(ls, k)) == TotalPrecision(Gaussians(ls))
  {
    TotalPrecisionOfVariances(Gaussians(ls), ComponentGaussians(ls, k));
  }

  /** The first `n` leaves are ready for a gradient of dimension `dim`. */
  predicate ReadyPrefix(ls: seq<Leaf>, n: nat, dim: nat)
    requires n <= |ls|
  {
    forall s :: 0 <= s < n ==> ls[s].isGP && ls[s].variance > 0.0 && |ls[s].gradient| == dim
  }

  /** The running vector `grad` of `gradients` after the first `n` trees:
      coordinate by coordinate, `sum_t g_t / v_t`. */
  function WeightedGradientSums(ls: seq<Leaf>, n: nat, dim: nat): (sums: seq<real>)
    requires n <= |ls| && ReadyPrefix(ls, n, dim)
    ensures |sums| == dim
  {
    seq(dim, k requires 0 <= k < dim => WeightedMeanSum(ComponentGaussians(ls[..n], k)))
  }

  /** `a + g * w`, coordinate by coordinate. */
  function PlusScaled(a: seq<real>, g: seq<real>, w: real): (r: seq<real>)
    requires |g| == |a|
  {
    seq(|a|, k requires 0 <= k < |a| => a[k] + g[k] * w)
  }

  /** The running sums of `gradients` after one more tree. */
  lemma ComponentStep(ls: seq<Leaf>, t: nat, k: nat)
    requires t < |ls| && k < |ls[t].gradient|
    requires forall s :: 0 <= s <= t ==> ls[s].variance > 0.0 && k < |ls[s].gradient|
    ensures PositiveVariances(ComponentGaussians(ls[..t + 1], k))
    ensures WeightedMeanSum(ComponentGaussians(ls[..t + 1], k))
      == WeightedMeanSum(ComponentGaussians(ls[..t], k)) + ls[t].gradient[k] * (1.0 / ls[t].variance)
  {
    var next := ComponentGaussians(ls[..t + 1], k);
    assert next[..t] == ComponentGaussians(ls[..t], k);
  }

  lemma GradientStep(ls: seq<Leaf>, t: nat, dim: nat)
    requires t < |ls| && ReadyPrefix(ls, t + 1, dim)
    ensures ReadyPrefix(ls, t, dim)
    ensures WeightedGradientSums(ls, t + 1, dim)
      == PlusScaled(WeightedGradientSums(ls, t, dim), ls[t].gradient, 1.0 / ls[t].variance)
  {
    forall k | 0 <= k < dim
      ensures WeightedGradientSums(ls, t + 1, dim)[k]
        == WeightedGradientSums(ls, t, dim)[k] + ls[t].gradient[k] * (1.0 / ls[t].variance)
    {
      ComponentStep(ls, t, k);
    }
    var after := WeightedGradientSums(ls, t + 1, dim);
    var stepped := PlusScaled(WeightedGradientSums(ls, t, dim), ls[t].gradient, 1.0 / ls[t].variance);
    assert |after| == |stepped|;
    assert forall k :: 0 <= k < dim ==> after[k] == stepped[k];
  }

  /** Dividing the weighted sums by the total weight gives the forest gradient. */
  lemma GradientQuotient(ls: seq<Leaf>, dim: nat, k: nat)
    requires GradientReady(ls, dim) && k < dim
    ensures ReadyPrefix(ls, |ls|, dim) && PositiveVariances(Gaussians(ls))
    ensures WeightedGradientSums(ls, |ls|, dim)[k] / TotalPrecision(Gaussians(ls))
      == MixtureGradient(ls, dim)[k]
  {
    assert ls[..|ls|] == ls;
    ComponentPrecision(ls, dim, k);
  }

  lemma PrecisionStepOfLeaves(ls: seq<Leaf>, t: nat)
    requires t < |ls|
    requires forall s :: 0 <= s <= t ==> ls[s].variance > 0.0
    ensures PositiveVariances(Gaussians(ls[..t + 1]))
    ensures TotalPrecision(Gaussians(ls[..t + 1])) == TotalPrecision(Gaussians(ls[..t])) + 1.0 / ls[t].variance
  {
    var next := Gaussians(ls[..t + 1]);
    assert next[..t] == Gaussians(ls[..t]);
  }

  /** Columns `0 .. n - 1` of `g` hold the forest gradients at the first `n`
      inputs. */
  ghost predicate ColumnsHold(g: array2<real>, trees: Forest, inputs: seq<Point>, n: nat, dim: nat)
    reads g
    requires g.Length0 == dim && n <= g.Length1 && n <= |inputs|
  {
    forall c :: 0 <= c < n ==>
      GradientReady(LeavesAt(trees, inputs[c]), dim) &&
      forall k :: 0 <= k < dim ==> g[k, c] == MixtureGradient(LeavesAt(trees, inputs[c]), dim)[k]
  }

  // ---------------------------------------------------------------------------
  // The maximum: the best of the local searches.

  /** The number of local searches `getMaximum` runs. */
  const NbTrials: nat := 25

  /** `std::numeric_limits<double>::lowest()`, i.e. `-(2 - 2^-52) * 2^1023`. */
  const Lowest: real := -179769313486231570814527423731704356798070567525844996598917476803157260780028538760589558632766878171540458953514382464234321326889464182768467546703537516986049910576551282076245490090389328944075868508455133942304583236903222948165808559332123348274797826204144723168738177180919299881250404026184124858368.0

  /** The best value so far and which trial gave it (`None`: still the start). */
  datatype Best = Best(value: real, index: Option<nat>)

  /** The selection of `getMaximum`: start from `Lowest`, and take a trial's value
      only when it is strictly greater than the best so far. */
  function BestOfTrials(values: seq<real>): (b: Best)
    ensures b.value >= Lowest
    ensures b.index.Some? ==> b.index.value < |values| && values[b.index.value] == b.value
  {
    if values == [] then Best(Lowest, None)
    else
      var best := BestOfTrials(values[..|values| - 1]);
      var v := values[|values| - 1];
      if v > best.value then Best(v, Some(|values| - 1)) else best
  }

  /** The best value bounds every trial and `Lowest`; when a trial was taken, it
      is the earliest trial with that value and that value is above `Lowest`;
      otherwise no trial rose above `Lowest`. */
  lemma {:induction false} BestOfTrialsSpec(values: seq<real>)
    ensures BestOfTrials(values).value >= Lowest
    ensures forall j :: 0 <= j < |values| ==> values[j] <= BestOfTrials(values).value
    ensures BestOfTrials(values).index.Some? ==>
      var i := BestOfTrials(values).index.value;
      i < |values| && values[i] == BestOfTrials(values).value && values[i] > Lowest &&
      forall j :: 0 <= j < i ==> values[j] < values[i]
    ensures BestOfTrials(values).index.None? <==> BestOfTrials(values).value == Lowest
  {
    if values != [] {
      var k := |values| - 1;
      BestOfTrialsSpec(values[..k]);
      assert forall j :: 0 <= j < k ==> values[..k][j] == values[j];
    }
  }

  /** One more trial: it is taken exactly when its value beats the best so far. */
  lemma BestOfTrialsStep(values: seq<real>, v: real)
    ensures BestOfTrials(values + [v]) ==
      if v > BestOfTrials(values).value then Best(v, Some(|values|)) else BestOfTrials(values)
  {
    assert (values + [v])[..|values|] == values;
  }

  /** Running more trials never lowers the best value. */
  lemma {:induction false} MoreTrialsNeverWorse(values: seq<real>, more: seq<real>)
    ensures BestOfTrials(values + more).value >= BestOfTrials(values).value
  {
    if more != [] {
      var k := |more| - 1;
      var all := values + more;
      assert all != [] && all[..|all| - 1] == values + more[..k];
      MoreTrialsNeverWorse(values, more[..k]);
      assert BestOfTrials(all).value >= BestOfTrials(all[..|all| - 1]).value;
    } else {
      assert values + more == values;
    }
  }

  /** A reordering of the trials can change which trial is chosen but not the best
      value, since that is the largest value (or `Lowest`). */
  lemma BestValueIsMaximum(values: seq<real>, m: real)
    requires m >= Lowest
    requires forall j :: 0 <= j < |values| ==> values[j] <= m
    requires m == Lowest || exists j :: 0 <= j < |values| && values[j] == m
    ensures BestOfTrials(values).value == m
  {
    BestOfTrialsSpec(values);
  }

  /** The predicted means of the local searches' results. */
  function TrialValues(trees: Forest, guesses: seq<Point>): (vs: seq<real>)
    requires |trees| > 0
    requires forall k :: 0 <= k < |guesses| ==>
      AllGP(LeavesAt(trees, guesses[k])) && GPVariancesPositive(LeavesAt(trees, guesses[k]))
    ensures |vs| == |guesses|
  {
    seq(|guesses|, k requires 0 <= k < |guesses| => PointPrediction(trees, guesses[k]).mean)
  }

  /** `values` are the predicted means at the first `|values|` guesses. */
  predicate TrialsPredicted(trees: Forest, guesses: seq<Point>, values: seq<real>)
    requires |trees| > 0
    requires forall k :: 0 <= k < |guesses| ==> GPVariancesPositive(LeavesAt(trees, guesses[k]))
  {
    |values| <= |guesses| &&
    forall k :: 0 <= k < |values| ==>
      AllGP(LeavesAt(trees, guesses[k])) && values[k] == PointPrediction(trees, guesses[k]).mean
  }

  lemma TrialsPredictedStep(trees: Forest, guesses: seq<Point>, values: seq<real>, v: real)
    requires |trees| > 0
    requires forall k :: 0 <= k < |guesses| ==> GPVariancesPositive(LeavesAt(trees, guesses[k]))
    requires TrialsPredicted(trees, guesses, values) && |values| < |guesses|
    requires AllGP(LeavesAt(trees, guesses[|values|]))
    requires v == PointPrediction(trees, guesses[|values|]).mean
    ensures TrialsPredicted(trees, guesses, values + [v])
  {
  }

  /** The point `getMaximum` returns: the chosen trial, or the centre of the
      limits when no trial rose above `Lowest`. */
  function ChosenInput(limits: Limits, guesses: seq<Point>, best: Best): Point
    requires best.index.Some? ==> best.index.value < |guesses|
  {
    if best.index.Some? then guesses[best.index.value] else Midpoint(limits)
  }

  /** Within limits, the returned point lies within the limits. */
  lemma ChosenInputInLimits(limits: Limits, guesses: seq<Point>, values: seq<real>)
    requires |values| == |guesses| && ValidLimits(limits)
    requires forall k :: 0 <= k < |guesses| ==> InLimits(limits, guesses[k])
    ensures BestOfTrials(values).index.Some? ==> BestOfTrials(values).index.value < |guesses|
    ensures InLimits(limits, ChosenInput(limits, guesses, BestOfTrials(values)))
  {
    BestOfTrialsSpec(values);
  }

  /** The selected value is at least every trial's predicted mean, and when a
      trial was selected it is the predicted mean at the returned point. */
  lemma ChosenInputPrediction(trees: Forest, limits: Limits, guesses: seq<Point>)
    requires |trees| > 0
    requires forall k :: 0 <= k < |guesses| ==>
      AllGP(LeavesAt(trees, guesses[k])) && GPVariancesPositive(LeavesAt(trees, guesses[k]))
    ensures forall k :: 0 <= k < |guesses| ==>
      PointPrediction(trees, guesses[k]).mean <= BestOfTrials(TrialValues(trees, guesses)).value
    ensures BestOfTrials(TrialValues(trees, guesses)).index.Some? ==>
      BestOfTrials(TrialValues(trees, guesses)).index.value < |guesses| &&
      BestOfTrials(TrialValues(trees, guesses)).value ==
        PointPrediction(trees, ChosenInput(limits, guesses, BestOfTrials(TrialValues(trees, guesses)))).mean
  {
    var values := TrialValues(trees, guesses);
    assert forall k :: 0 <= k < |guesses| ==> values[k] == PointPrediction(trees, guesses[k]).mean;
    BestOfTrialsSpec(values);
  }

  // ---------------------------------------------------------------------------
  // The solver.

  class GPForestSolver {
    /** Absent until `solve` has been called. */
    var forest: Option<Forest>
    var solverType: SolverType

    predicate Trained()
      reads this
    {
      forest.Some? && |forest.value| > 0
    }

    constructor (t: SolverType)
      ensures solverType == t && forest == None
    {
      solverType := t;
      forest := None;
    }

    /** `solve`: the forest grown from the samples replaces the previous one. */
    method Solve(built: Forest)
      requires |built| > 0
      modifies this
      ensures forest == Some(built) && solverType == old(solverType)
      ensures Trained()
    {
      forest := Some(built);
    }

    /** `predict`: for every input, the mixture of the trees' Gaussians; fails
        on the first leaf that is not a Gaussian process. */
    method Predict(inputs: seq<Point>) returns (err: Option<SolverError>, means: array<real>, vars: array<real>)
      requires Trained() || |inputs| == 0
      requires forall c :: 0 <= c < |inputs| ==> GPVariancesPositive(LeavesAt(forest.value, inputs[c]))
      ensures fresh(means) && fresh(vars)
      ensures means.Length == |inputs| && vars.Length == |inputs|
      ensures err.None? <==> forall c :: 0 <= c < |inputs| ==> AllGP(LeavesAt(forest.value, inputs[c]))
      ensures err.Some? ==> err.value == NotGaussianProcess
      ensures err.None? ==> forall c :: 0 <= c < |inputs| ==>
        means[c] == PointPrediction(forest.value, inputs[c]).mean &&
        vars[c] == PointPrediction(forest.value, inputs[c]).variance
    {
      means := new real[|inputs|](_ => 0.0);
      vars := new real[|inputs|](_ => 0.0);
      err := None;
      if |inputs| == 0 {
        // The loop over the input columns does not run: the forest is not read.
        return;
      }
      var trees := forest.value;
      for point := 0 to |inputs|
        invariant err.None?
        invariant PredictionsHold(means, vars, trees, inputs, point)
      {
        var gps;
        err, gps := GatherGaussians(inputs[point]);
        if err.Some? {
          assert !AllGP(LeavesAt(trees, inputs[point]));
          return;
        }
        var mean, variance := DistribParameters(gps);
        StorePrediction(means, vars, trees, inputs, point, mean, variance);
      }
    }

    /** `means(point) = mean; vars(point) = var;` for the mixture at input
        `point`: one more input holds its prediction. */
    static method StorePrediction(means: array<real>, vars: array<real>, trees: Forest, inputs: seq<Point>,
                                  point: nat, mean: real, variance: real)
      requires means != vars && means.Length == vars.Length == |inputs| && point < |inputs|
      requires PredictionsHold(means, vars, trees, inputs, point)
      requires |trees| > 0
      requires AllGP(LeavesAt(trees, inputs[point])) && GPVariancesPositive(LeavesAt(trees, inputs[point]))
      requires mean == PointPrediction(trees, inputs[point]).mean
      requires variance == PointPrediction(trees, inputs[point]).variance
      modifies means, vars
      ensures PredictionsHold(means, vars, trees, inputs, point + 1)
      ensures means[point] == mean && vars[point] == variance
      ensures forall c :: 0 <= c < means.Length && c != point ==>
        means[c] == old(means[c]) && vars[c] == old(vars[c])
    {
      means[point] := mean;
      vars[point] := variance;
    }

    /** The loop over the trees of `predict`: the Gaussian of every tree's leaf at
        `x`; fails on the first leaf that is not a Gaussian process. */
    method GatherGaussians(x: Point) returns (err: Option<SolverError>, gps: seq<Gaussian>)
      requires Trained()
      requires GPVariancesPositive(LeavesAt(forest.value, x))
      ensures err.None? <==> AllGP(LeavesAt(forest.value, x))
      ensures err.Some? ==> err.value == NotGaussianProcess
      ensures err.None? ==>
        gps == Gaussians(LeavesAt(forest.value, x)) && |gps| > 0 && PositiveVariances(gps)
    {
      var trees := forest.value;
      ghost var ls := LeavesAt(trees, x);
      gps := [];
      for treeId := 0 to |trees|
        invariant |gps| == treeId
        invariant forall s :: 0 <= s < treeId ==> ls[s].isGP && gps[s] == AsGaussian(ls[s])
      {
        var leaf := trees[treeId].getLeaf(x);
        if !leaf.isGP {
          assert ls[treeId] == leaf;
          return Some(NotGaussianProcess), gps;
        }
        gps := gps + [AsGaussian(leaf)];
      }
      assert gps == Gaussians(ls);
      err := None;
    }

    /** `grad += g * weight`, in place. */
    static method AddScaled(grad: array<real>, g: seq<real>, weight: real)
      requires grad.Length == |g|
      modifies grad
      ensures grad[..] == PlusScaled(old(grad[..]), g, weight)
    {
      for k := 0 to grad.Length
        invariant forall j :: 0 <= j < k ==> grad[j] == old(grad[j]) + g[j] * weight
        invariant forall j :: k <= j < grad.Length ==> grad[j] == old(grad[j])
      {
        grad[k] := grad[k] + g[k] * weight;
      }
      ghost var expected := PlusScaled(old(grad[..]), g, weight);
      assert forall j :: 0 <= j < grad.Length ==> grad[..][j] == expected[j];
    }

    /** The loop over the trees of one column of `gradients`: `grad` sums every
        tree's gradient weighted by its precision, `totalWeight` sums the
        precisions; fails on the first tree whose leaf is not a Gaussian process or
        has a variance of 0. */
    method SumWeightedGradients(dim: nat, input: Point) returns (err: Option<SolverError>, grad: array<real>, totalWeight: real)
      requires Trained()
      requires GradientLeavesWellFormed(LeavesAt(forest.value, input), dim)
      ensures fresh(grad) && grad.Length == dim
      ensures err == ColumnError(LeavesAt(forest.value, input))
      ensures err.None? <==> GradientReady(LeavesAt(forest.value, input), dim)
      ensures err.None? ==>
        PositiveVariances(Gaussians(LeavesAt(forest.value, input))) &&
        totalWeight == TotalPrecision(Gaussians(LeavesAt(forest.value, input))) &&
        grad[..] == WeightedGradientSums(LeavesAt(forest.value, input), |forest.value|, dim)
    {
      var trees := forest.value;
      ghost var ls := LeavesAt(trees, input);
      grad := new real[dim](_ => 0.0);
      totalWeight := 0.0;
      for treeId := 0 to |trees|
        invariant ReadyPrefix(ls, treeId, dim)
        invariant totalWeight == TotalPrecision(Gaussians(ls[..treeId]))
        invariant grad[..] == WeightedGradientSums(ls, treeId, dim)
      {
        var leaf := trees[treeId].getLeaf(input);
        if !leaf.isGP || leaf.variance == 0.0 {
          err := LeafError(leaf);
          FirstErrorAt(LeafErrors(ls), treeId);
          return;
        }
        var weight := 1.0 / leaf.variance;
        GradientStep(ls, treeId, dim);
        AddScaled(grad, leaf.gradient, weight);
        PrecisionStepOfLeaves(ls, treeId);
        totalWeight := totalWeight + weight;
      }
      assert ls[..|trees|] == ls;
      err := None;
    }

    /** One column of `gradients`: the weighted sum of the trees' gradients at
        `input` divided by the total weight. */
    method GradientColumn(dim: nat, input: Point) returns (err: Option<SolverError>, column: seq<real>)
      requires Trained()
      requires GradientLeavesWellFormed(LeavesAt(forest.value, input), dim)
      ensures err == ColumnError(LeavesAt(forest.value, input))
      ensures err.None? <==> GradientReady(LeavesAt(forest.value, input), dim)
      ensures err.None? ==> column == MixtureGradient(LeavesAt(forest.value, input), dim)
    {
      ghost var ls := LeavesAt(forest.value, input);
      var grad, totalWeight;
      err, grad, totalWeight := SumWeightedGradients(dim, input);
      if err.Some? {
        column := [];
        return;
      }
      column := seq(dim, k requires 0 <= k < dim reads grad => grad[k] / totalWeight);
      forall k | 0 <= k < dim
        ensures column[k] == MixtureGradient(ls, dim)[k]
      {
        GradientQuotient(ls, dim, k);
      }
    }

    /** `gradients`: column by column, the precision-weighted average of the
        trees' gradients; fails on the first leaf, column by column and tree by
        tree, that is not a Gaussian process or has a variance of 0. */
    method Gradients(dim: nat, inputs: seq<Point>) returns (err: Option<SolverError>, gradients: array2<real>)
      requires Trained() || |inputs| == 0
      requires forall c :: 0 <= c < |inputs| ==> |inputs[c]| == dim
      requires forall c :: 0 <= c < |inputs| ==> GradientLeavesWellFormed(LeavesAt(forest.value, inputs[c]), dim)
      ensures fresh(gradients)
      ensures gradients.Length0 == dim && gradients.Length1 == |inputs|
      ensures err.None? <==> forall c :: 0 <= c < |inputs| ==> GradientReady(LeavesAt(forest.value, inputs[c]), dim)
      ensures err == if |inputs| == 0 then None else GradientsError(forest.value, inputs)
      ensures err.None? ==> forall k, c :: 0 <= k < dim && 0 <= c < |inputs| ==>
        gradients[k, c] == MixtureGradient(LeavesAt(forest.value, inputs[c]), dim)[k]
    {
      gradients := new real[dim, |inputs|]((_, _) => 0.0);
      err := None;
      if |inputs| == 0 {
        // The loop over the input columns does not run: the forest is not read.
        return;
      }
      var trees := forest.value;
      ghost var columnErrors := ColumnErrors(trees, inputs);
      for col := 0 to |inputs|
        invariant forall c :: 0 <= c < col ==> columnErrors[c].None?
        invariant ColumnsHold(gradients, trees, inputs, col, dim)
      {
        var e, column := GradientColumn(dim, inputs[col]);
        if e.Some? {
          err := e;
          FirstErrorAt(columnErrors, col);
          return;
        }
        StoreColumn(gradients, trees, inputs, col, dim, column);
      }
    }

    /** `gradients.col(col) = column`, where `column` is the forest gradient at
        input `col`: one more column holds its gradient. */
    static method StoreColumn(g: array2<real>, trees: Forest, inputs: seq<Point>, col: nat, dim: nat, column: seq<real>)
      requires g.Length0 == dim && col < g.Length1 && col < |inputs|
      requires ColumnsHold(g, trees, inputs, col, dim)
      requires GradientReady(LeavesAt(trees, inputs[col]), dim)
      requires column == MixtureGradient(LeavesAt(trees, inputs[col]), dim)
      modifies g
      ensures ColumnsHold(g, trees, inputs, col + 1, dim)
      ensures forall k :: 0 <= k < dim ==> g[k, col] == column[k]
      ensures forall k, c :: 0 <= k < dim && 0 <= c < g.Length1 && c != col ==> g[k, c] == old(g[k, c])
    {
      for k := 0 to dim
        invariant forall j :: 0 <= j < k ==> g[j, col] == column[j]
        invariant forall j, c :: 0 <= j < dim && 0 <= c < g.Length1 && (c != col || k <= j) ==>
          g[j, c] == old(g[j, c])
      {
        g[k, col] := column[k];
      }
    }

    /** `predict` on the one-column matrix `x`, keeping `values(0)`. */
    method PredictedMean(x: Point) returns (err: Option<SolverError>, value: real)
      requires Trained()
      requires GPVariancesPositive(LeavesAt(forest.value, x))
      ensures err.None? <==> AllGP(LeavesAt(forest.value, x))
      ensures err.Some? ==> err.value == NotGaussianProcess
      ensures err.None? ==> value == PointPrediction(forest.value, x).mean
    {
      var means, vars;
      err, means, vars := Predict([x]);
      assert [x][0] == x;
      value := means[0];
    }

    /** `getMaximum`: runs the 25 local searches, whose results are given, and
        keeps the one with the greatest predicted mean (the earliest on ties),
        starting from `Lowest` at the centre of the limits. */
    method GetMaximum(limits: Limits, trialResults: seq<Point>) returns (err: Option<SolverError>, input: Point, output: real)
      requires Trained()
      requires |trialResults| == NbTrials
      requires forall k :: 0 <= k < |trialResults| ==> GPVariancesPositive(LeavesAt(forest.value, trialResults[k]))
      ensures err.None? <==> forall k :: 0 <= k < |trialResults| ==> AllGP(LeavesAt(forest.value, trialResults[k]))
      ensures err.Some? ==> err.value == NotGaussianProcess
      ensures err.None? ==>
        var best := BestOfTrials(TrialValues(forest.value, trialResults));
        (best.index.Some? ==> best.index.value < |trialResults|) &&
        output == best.value && input == ChosenInput(limits, trialResults, best)
    {
      var trees := forest.value;
      var bestValue := Lowest;
      var bestGuess := Midpoint(limits);
      ghost var bestIndex: Option<nat> := None;
      ghost var values: seq<real> := [];
      err := None;
      for trial := 0 to NbTrials
        invariant |values| == trial
        invariant TrialsPredicted(trees, trialResults, values)
        invariant BestOfTrials(values) == Best(bestValue, bestIndex)
        invariant bestIndex.Some? ==> bestIndex.value < trial
        invariant bestGuess == ChosenInput(limits, trialResults, Best(bestValue, bestIndex))
      {
        var currentGuess := trialResults[trial];
        var e, value := PredictedMean(currentGuess);
        if e.Some? {
          err := e;
          input, output := bestGuess, bestValue;
          return;
        }
        TrialsPredictedStep(trees, trialResults, values, value);
        BestOfTrialsStep(values, value);
        values := values + [value];
        if value > bestValue {
          bestValue := value;
          bestGuess := currentGuess;
          bestIndex := Some(trial);
        }
      }
      assert values == TrialValues(trees, trialResults);
      input := bestGuess;
      output := bestValue;
    }
  }
}
