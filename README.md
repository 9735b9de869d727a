# Forests of Gaussian processes for regression experiments, in Dafny

This project models the core of a regression-experiments toolkit. There, a
forest of extremely randomized trees has a local Gaussian process in every leaf,
and the forest answers regression and optimisation queries by mixing what its
trees report. The model covers:

- the precision-weighted mixture of Gaussian predictions (`getDistribParameters`):
  module `Mixture`, file `mixture.dfy`;
- the forest solver (`GPForestSolver`): its type codec (`loadType` / `to_string`),
  `solve`, `predict`, `gradients` and `getMaximum`; module `GPForest`, file
  `gp_forest_solver.dfy`, with the solver as a class whose `forest` field `solve`
  replaces;
- the regular grid over a domain (`discretizeSpace`): module `Grid`, file
  `grid.dfy`, filling a two-dimensional array in place as the source fills its
  matrix;
- two benchmark functions, `SinusSum` and `AbsDiff`, with their limits, samples and
  maxima: module `BasicFunctions`, file `basic_functions.dfy`;
- shared definitions: `Domain` (limits, one `Interval` per dimension, points) and
  `Wrappers` (`Option`, `Result`).

Thrown runtime errors become values. `discretizeSpace` returns a `Result`, and the
solver's methods return an `Option<SolverError>` beside their outputs. Each
operation is proved against a specification function (`MixtureMean`,
`MixtureVariance`, `PointPrediction`, `MixtureGradient`, `BestOfTrials`, `Cell`).
Lemmas then prove what those functions promise: bounds, special cases, order
independence, a mixed-radix bijection, and round trips.

## Model

| member | source | states |
|---|---|---|
| Mixture.DistribParameters | src/test_gp_approximations.cpp:27-53 | for a nonempty list of predictors with positive variances, the mean is the precision-weighted mean `sum(m_i/v_i) / sum(1/v_i)` and the variance is `n / sum(1/v_i)` (the final precision is the total weight divided by the number of predictors) |
| Mixture.WeightedMeanSumBounds | src/test_gp_approximations.cpp:47-49 | when every mean lies in `[lo, hi]`, the dot product of weights and means lies between `lo` and `hi` times the total weight |
| Mixture.MeanWithinBounds | src/test_gp_approximations.cpp:46-49 | the mixed mean lies between the smallest and the largest predictor mean |
| Mixture.TotalPrecisionBounds | src/test_gp_approximations.cpp:44-48 | with every variance in `[lo, hi]`, the total weight lies in `[n/hi, n/lo]` |
| Mixture.VarianceWithinBounds | src/test_gp_approximations.cpp:50-52 | the mixed variance lies between the smallest and the largest predictor variance (it is their harmonic mean) |
| Mixture.SinglePredictor | src/test_gp_approximations.cpp:27-53 | one predictor is returned unchanged: same mean, same variance |
| Mixture.CommonMean | src/test_gp_approximations.cpp:46-49 | predictors that agree on the mean yield that mean, whatever their variances |
| Mixture.EqualVarianceSums | src/test_gp_approximations.cpp:44-49 | with one common variance `v`, the total weight is `n/v` and the weighted sum is the sum of the means over `v` |
| Mixture.CommonVariance | src/test_gp_approximations.cpp:46-52 | predictors with a common variance yield that variance and the plain average of the means |
| Mixture.WiderThanInverseVarianceWeighting | src/test_gp_approximations.cpp:50-52 | with two or more predictors, the reported variance is strictly larger than the inverse-variance-weighting variance `1 / sum(1/v_i)` |
| Mixture.TotalPrecisionOfVariances | src/test_gp_approximations.cpp:44-48 | the total weight depends only on the variances, not on the means |
| Mixture.SumsSplit | src/test_gp_approximations.cpp:47-49 | both sums split over a concatenation |
| Mixture.SumsRemove | src/test_gp_approximations.cpp:47-49 | taking one predictor out of the list takes its terms out of both sums |
| Mixture.SumsPermutation | src/test_gp_approximations.cpp:47-49 | both sums are the same for any reordering (equal multisets) of the predictors |
| Mixture.PermutationInvariant | src/test_gp_approximations.cpp:27-53 | the mixed mean and variance do not depend on the order of the predictors |
| Domain.Midpoint | src/regression_experiments/gp_forest_solver.cpp:135 | the centre of valid limits lies within them |
| Grid.DiscretizeSpace | src/regression_experiments/tools.cpp:13-46 | it is an error exactly when the number of limit rows differs from the number of sample counts; otherwise the result is a fresh matrix with one row per dimension and `prod n_d` columns, and with every count positive, entry `(d, p)` is the coordinate of the index `(p / intervals[d]) % n_d` along dimension `d` |
| Grid.Strides | src/regression_experiments/tools.cpp:21-28 | `intervals[d]` is the product of the sample counts before `d`, and `total_points` is the product of all of them |
| Grid.FillDimension | src/regression_experiments/tools.cpp:31-44 | row `dim` receives the coordinate of every point; no other row changes |
| Grid.PointValue | src/regression_experiments/tools.cpp:34-41 | the value computed for point `p` along dimension `d` is `Cell`: the coordinate of its index `(p / intervals[d]) % n_d` |
| Grid.Product | src/regression_experiments/tools.cpp:21-28 | the number of points is nonnegative for nonnegative counts, positive for positive counts, and 0 as soon as some count is 0 |
| Grid.IndexInDim | src/regression_experiments/tools.cpp:34-35 | the index of a point along dimension `d` is within `[0, n_d)` |
| Grid.DigitsAreIndices | src/regression_experiments/tools.cpp:34-35 | the source's division-and-modulo formula computes the mixed-radix digits of the point number, least significant first |
| Grid.EncodeInRange | src/regression_experiments/tools.cpp:21-35 | every in-range index tuple encodes to a point number in `[0, total_points)` |
| Grid.DecodeEncode | src/regression_experiments/tools.cpp:21-35 | decoding the encoding of an in-range index tuple gives the tuple back |
| Grid.EncodeDecode | src/regression_experiments/tools.cpp:21-35 | encoding the decoded indices of a point gives the point back |
| Grid.GridIndicesInGrid | src/regression_experiments/tools.cpp:32-35 | every grid point's indices are within range in every dimension |
| Grid.GridIndicesInjective | src/regression_experiments/tools.cpp:21-35 | distinct grid points have distinct index tuples |
| Grid.GridIndicesSurjective | src/regression_experiments/tools.cpp:21-35 | every combination of in-range indices is the index tuple of some grid point, so the grid enumerates each combination exactly once |
| Grid.StridesArePrefixProducts | src/regression_experiments/tools.cpp:24-28 | dimension 0 varies fastest: its stride is 1, and each stride is the previous one times the previous sample count |
| Grid.Coordinate | src/regression_experiments/tools.cpp:37-41 | the coordinate of an in-range index (`0 <= i < n_d`) lies inside a valid interval, whether it is the midpoint (one sample) or `lower + step * i` |
| Grid.CoordinateEndpoints | src/regression_experiments/tools.cpp:38-41 | with two or more samples, for any interval, the first index gives the lower bound and the last index the upper bound |
| Grid.SingleSampleIsMidpoint | src/regression_experiments/tools.cpp:37-38 | with one sample, every coordinate is the midpoint of the interval |
| Grid.Cell | src/regression_experiments/tools.cpp:34-42 | the value written at `points(d, p)` lies inside the limits of dimension `d` whenever the limits are valid |
| BasicFunctions.SinusSum.Limits | src/regression_experiments/basic_functions.cpp:11-17 | one interval per dimension, centred on 0 and `2*pi*nb_cycles` wide: `nb_cycles` periods of the sine |
| BasicFunctions.SinusSum.Max | src/regression_experiments/basic_functions.cpp:28-31 | `getMax()` is never negative |
| BasicFunctions.SinusSum.MaxAttained | src/regression_experiments/basic_functions.cpp:19-31 | for a sine that is 1 at `pi/2`, the sample at the point whose every coordinate is `pi/2` equals `getMax()`, and that point lies in the limits when `nb_cycles >= 1` |
| BasicFunctions.SumSinPeak | src/regression_experiments/basic_functions.cpp:21-25 | the sum of the sines of `n` copies of `pi/2` is `n` |
| BasicFunctions.SinusSum.Sample | src/regression_experiments/basic_functions.cpp:19-26 | the total is the sum of the sines of the first `nb_dimensions` coordinates |
| BasicFunctions.SinusSum.LimitsShape | src/regression_experiments/basic_functions.cpp:11-17 | one row `[-pi*nb_cycles, pi*nb_cycles]` per dimension, symmetric about 0; the limits are valid exactly when `nb_cycles >= 0` or there is no dimension |
| BasicFunctions.SinusSum.BelowMax | src/regression_experiments/basic_functions.cpp:19-31 | for a sine bounded by 1, every sample lies in `[-getMax(), getMax()]` |
| BasicFunctions.SumSinBounds | src/regression_experiments/basic_functions.cpp:21-25 | a sum of `n` sines lies in `[-n, n]` |
| BasicFunctions.AbsDiff.Limits | src/regression_experiments/basic_functions.cpp:57-63 | one interval per dimension, centred on 0 and `2*input_max` wide |
| BasicFunctions.AbsDiff.Max | src/regression_experiments/basic_functions.cpp:74-77 | `getMax()` is the sample at the origin |
| BasicFunctions.AbsDiff.Sample | src/regression_experiments/basic_functions.cpp:65-72 | the total is minus the sum of the absolute values of the first `nb_dimensions` coordinates |
| BasicFunctions.AbsDiff.LimitsShape | src/regression_experiments/basic_functions.cpp:57-63 | one row `[-input_max, input_max]` per dimension; the limits are valid exactly when `input_max >= 0` or there is no dimension, and valid limits contain the origin |
| BasicFunctions.AbsDiff.MaxOnlyAtOrigin | src/regression_experiments/basic_functions.cpp:65-77 | no sample exceeds `getMax()`, and a sample equals it exactly when every used coordinate is 0 |
| BasicFunctions.AbsDiff.Symmetric | src/regression_experiments/basic_functions.cpp:65-72 | the function is even: the sample at `-x` equals the sample at `x` |
| BasicFunctions.SumAbsZero | src/regression_experiments/basic_functions.cpp:67-70 | a sum of absolute values is nonnegative, and it is 0 exactly when every term is 0 |
| BasicFunctions.SumAbsNegate | src/regression_experiments/basic_functions.cpp:67-70 | negating every coordinate leaves the sum of absolute values unchanged |
| GPForest.TypeToString | src/regression_experiments/gp_forest_solver.cpp:165-174 | every type has one of the three names "SQRT", "CURT" and "LOG2" |
| GPForest.LoadType | src/regression_experiments/gp_forest_solver.cpp:157-163 | succeeds exactly on "SQRT", "CURT" and "LOG2", and then returns the type whose name is that string; any other string is an error naming it |
| GPForest.LoadTypeToString | src/regression_experiments/gp_forest_solver.cpp:157-174 | loading the name of a type gives that type back |
| GPForest.TypeToStringInjective | src/regression_experiments/gp_forest_solver.cpp:165-174 | distinct types have distinct names |
| GPForest.GPForestSolver.constructor | src/regression_experiments/gp_forest_solver.cpp:26-29 | the solver keeps its type and has no forest yet |
| GPForest.GPForestSolver.Solve | src/regression_experiments/gp_forest_solver.cpp:32-58 | the trained forest replaces the previous one, and the type is unchanged |
| GPForest.GPForestSolver.Predict | src/regression_experiments/gp_forest_solver.cpp:60-86 | fails with "not a Gaussian process" exactly when some leaf reached by some input has no Gaussian process; otherwise `means[c]` and `vars[c]` are the mixture of the trees' Gaussians at input `c`; with no input it returns empty results without reading the forest |
| GPForest.GPForestSolver.GatherGaussians | src/regression_experiments/gp_forest_solver.cpp:70-79 | collects, in tree order, the Gaussian of every tree's leaf at the point; fails exactly when some leaf has no Gaussian process |
| GPForest.GPForestSolver.StorePrediction | src/regression_experiments/gp_forest_solver.cpp:83-84 | writes the mixture for input `point` into `means` and `vars`, which extends the prefix of inputs whose predictions are stored; every other entry keeps its value |
| GPForest.SingleTreePrediction | src/regression_experiments/gp_forest_solver.cpp:67-85 | a one-tree forest predicts exactly what its leaf reports |
| GPForest.PredictionWithinLeaves | src/regression_experiments/gp_forest_solver.cpp:67-85 | the predicted mean lies within the range of the leaves' means, and the predicted variance within the range of their variances |
| GPForest.FirstError | src/regression_experiments/gp_forest_solver.cpp:92-108 | there is no error exactly when every step succeeds |
| GPForest.FirstErrorAt | src/regression_experiments/gp_forest_solver.cpp:92-108 | the error reported is the one at the first failing step |
| GPForest.LeafError | src/regression_experiments/gp_forest_solver.cpp:99-104 | a leaf is usable for gradients exactly when it has a Gaussian process and its variance is not 0 |
| GPForest.GPForestSolver.AddScaled | src/regression_experiments/gp_forest_solver.cpp:106 | `grad += g * weight`, elementwise and in place |
| GPForest.GPForestSolver.SumWeightedGradients | src/regression_experiments/gp_forest_solver.cpp:94-108 | fails exactly at the first leaf that has no Gaussian process or a variance of 0; otherwise `grad` is the sum of the gradients weighted by `1/var`, and `total_weight` is the sum of the weights |
| GPForest.GPForestSolver.GradientColumn | src/regression_experiments/gp_forest_solver.cpp:93-109 | the column is the precision-weighted average of the trees' gradients, with the same error condition |
| GPForest.GPForestSolver.Gradients | src/regression_experiments/gp_forest_solver.cpp:88-111 | a fresh `dim x n` matrix; fails exactly when some input has an unusable leaf, with the error of the first such leaf, column by column and tree by tree; otherwise column `c` is the forest gradient at input `c`; with no input it returns an empty matrix without reading the forest |
| GPForest.GPForestSolver.StoreColumn | src/regression_experiments/gp_forest_solver.cpp:109 | writes the forest gradient into column `col`, which extends the prefix of filled columns; no other column changes |
| GPForest.MixtureGradient | src/regression_experiments/gp_forest_solver.cpp:94-109 | the forest gradient has one component per input dimension |
| GPForest.GradientWithinTrees | src/regression_experiments/gp_forest_solver.cpp:94-109 | each component of the forest gradient lies within the range of the trees' components |
| GPForest.CommonGradient | src/regression_experiments/gp_forest_solver.cpp:94-109 | trees that agree on the gradient yield that gradient |
| GPForest.ComponentPrecision | src/regression_experiments/gp_forest_solver.cpp:103-107 | the gradient's weights are the same precisions `predict` uses |
| GPForest.GPForestSolver.PredictedMean | src/regression_experiments/gp_forest_solver.cpp:145-147 | `predict` on one point gives the forest's predicted mean there, with the same error condition |
| GPForest.GPForestSolver.GetMaximum | src/regression_experiments/gp_forest_solver.cpp:113-155 | over the 25 trial results, fails exactly when some trial reaches a leaf without a Gaussian process; otherwise returns the best value of the strict-improvement selection that starts from the lowest double, and its trial point, or the centre of the limits when no trial beats the lowest double |
| GPForest.BestOfTrials | src/regression_experiments/gp_forest_solver.cpp:134-152 | the selection never falls below the lowest double, and a chosen trial is a real trial whose value is the selected one |
| GPForest.BestOfTrialsSpec | src/regression_experiments/gp_forest_solver.cpp:134-152 | the best value bounds every trial's value and the lowest double; a chosen trial carries that value, beats the lowest double and is the earliest trial with that value; no trial is chosen exactly when the value is the lowest double |
| GPForest.BestOfTrialsStep | src/regression_experiments/gp_forest_solver.cpp:148-151 | a new trial is taken exactly when its value is strictly greater than the best so far |
| GPForest.MoreTrialsNeverWorse | src/regression_experiments/gp_forest_solver.cpp:137-152 | running more trials never lowers the best value |
| GPForest.BestValueIsMaximum | src/regression_experiments/gp_forest_solver.cpp:134-152 | the best value is the maximum of the trial values and the lowest double, whatever the order of the trials |
| GPForest.TrialValues | src/regression_experiments/gp_forest_solver.cpp:145-147 | one predicted mean per trial result |
| GPForest.TrialsPredictedStep | src/regression_experiments/gp_forest_solver.cpp:145-147 | predicting the next trial extends the prefix of predicted trials |
| GPForest.ChosenInputInLimits | src/regression_experiments/gp_forest_solver.cpp:134-154 | when the limits are valid and every trial result lies within them, the returned input lies within the limits |
| GPForest.ChosenInputPrediction | src/regression_experiments/gp_forest_solver.cpp:134-154 | the returned output is at least every trial's predicted mean, and when a trial was chosen, it is the predicted mean at the returned input |

## Left out

- The choice of `n_min` in `solve` (`sqrt`, `pow(n, 1/3)` and `log2` of the sample count) and the whole training of the forest (ExtraTrees, Gaussian-process fitting) are not modelled. `Solve` takes the trained forest as a parameter, because training is randomized floating-point code outside this core.
- A tree is modelled by its `getLeaf`, already evaluated at the query point: each leaf reports whether it holds a Gaussian process, plus the mean, variance and gradient that process reports. Gaussian-process internals are not part of this model.
- `getMaximum`: the random initial guesses and steps and the `rProp` searches (with `epsilon = 1e-6` and `max_nb_guess = 1000`) are not modelled. The 25 search results are a parameter, and errors that `gradients` would raise inside `rProp` are not modelled.
- Doubles are modelled as real numbers, with no rounding, NaN or infinity. `std::numeric_limits<double>::lowest()` is written out exactly.
- Mixture.DistribParameters: requires a nonempty list with positive variances. With no predictor or a zero variance the source divides by zero and yields NaN or infinity, which reals cannot express.
- GPForest.GPForestSolver.Predict: requires every Gaussian-process leaf to report a positive variance. With a variance of 0 the source raises no error: the precision `1.0 / var` is infinite and the mean NaN, which reals cannot express (unlike `gradients`, which checks for 0 and whose error the model keeps as `ZeroVariance`). GetMaximum and PredictedMean require the same.
- GPForest.GPForestSolver.Gradients: requires that Gaussian-process leaves report nonnegative variances and gradients of the input's dimension. A zero variance is modelled as the source's error.
- GPForest.GPForestSolver.GetMaximum: requires a trained solver with at least one tree, as do Predict and Gradients when they are given at least one input. Before `solve`, the source dereferences a null forest as soon as one input column is processed, which is undefined behaviour; with no input column, Predict and Gradients return empty results, and the model does the same without a trained solver. A forest of zero trees would mix an empty list (a division by zero).
- The sine in `SinusSum::sample` is a parameter of the model, and `M_PI` is a decimal constant.
- Grid.DiscretizeSpace: requires nonnegative sample counts. It does not model `int` overflow of `total_points`. It proves the entries only when every count is positive, because with a zero count the matrix has no column.
- Default constructor arguments (`GPForestSolver(Type t = LOG2)`, `SinusSum(1, 1)`, `AbsDiff(1.0, 1)`) are not modelled: the datatypes and the constructor take every argument explicitly.
- BasicFunctions.SinusSum: `nbDimensions` is a `nat`; a negative `nb_dimensions` (a C++ `int`) gives an empty loop in `sample` but an invalid matrix size in `getLimits`, and is not modelled. The same holds for `AbsDiff`.
- The unreachable throw at the end of `to_string` is not modelled: the match over the three types is total.
- XML serialisation, `class_name`, the factories and the benchmark and experiment drivers are not modelled.
- The mixture variance has no lower floor, because the code applies none.
