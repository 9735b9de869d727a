/** Regular grids over the domain (`discretizeSpace` in
    src/regression_experiments/tools.cpp).

    Dimension `d` receives `n_d` samples. Point `p` of the grid is decoded in mixed
    radix: its index in dimension `d` is `(p / intervals[d]) % n_d`, where
    `intervals[d]` is the product of the sample counts of the dimensions before
    `d`, so that dimension 0 varies fastest. */
module Grid {
  import opened Wrappers
  import opened Domain

  /** The runtime error thrown when `limits.rows() != samples_by_dim.size()`. */
  datatype GridError = InconsistentLimits

  predicate NonNegative(ns: seq<int>) {
    forall d :: 0 <= d < |ns| ==> ns[d] >= 0
  }

  predicate Positive(ns: seq<int>) {
    forall d :: 0 <= d < |ns| ==> ns[d] > 0
  }

  /** Number of grid points: the product of the sample counts. */
  function Product(ns: seq<int>): (r: int)
    ensures NonNegative(ns) ==> r >= 0
    ensures Positive(ns) ==> r > 0
    ensures NonNegative(ns) && !Positive(ns) ==> r == 0
  {
    if ns == [] then 1 else ns[0] * Product(ns[1..])
  }

  /** `intervals[d]`: how many consecutive points share one index in dimension `d`. */
  function Stride(ns: seq<int>, d: nat): int
    requires d <= |ns|
  {
    Product(ns[..d])
  }

  /** The index of point `p` along dimension `d`, as the source computes it. */
  function IndexInDim(p: int, ns: seq<int>, d: nat): (i: int)
    requires d < |ns| && Positive(ns) && p >= 0
    ensures 0 <= i < ns[d]
  {
    assert Positive(ns[..d]);
    (p / Stride(ns, d)) % ns[d]
  }

  /** The indices of point `p` in every dimension. */
  function GridIndices(p: int, ns: seq<int>): (idx: seq<int>)
    requires Positive(ns) && p >= 0
    ensures |idx| == |ns|
  {
    seq(|ns|, d requires 0 <= d < |ns| => IndexInDim(p, ns, d))
  }

  predicate InGrid(idx: seq<int>, ns: seq<int>) {
    |idx| == |ns| && forall d :: 0 <= d < |ns| ==> 0 <= idx[d] < ns[d]
  }

  /** The coordinate of index `i` along a dimension with `n` samples: the
      midpoint when `n == 1`, otherwise `lower + step * i` with
      `step = (upper - lower) / (n - 1)`. */
  function Coordinate(iv: Interval, n: int, i: int): (c: real)
    ensures iv.lower <= iv.upper && 0 <= i < n ==> iv.Contains(c)
  {
    if n != 1 then
      var c := iv.lower + (iv.upper - iv.lower) / ((n - 1) as real) * (i as real);
      assert iv.lower <= iv.upper && 0 <= i < n ==> iv.Contains(c) by {
        if iv.lower <= iv.upper && 0 <= i < n {
          StepWithin(iv.lower, iv.upper, n, i);
        }
      }
      c
    else iv.Mid()
  }

  /** `lower + step * i` stays within `[lower, upper]` for every index `i < n`. */
  lemma StepWithin(lower: real, upper: real, n: int, i: int)
    requires lower <= upper && n >= 2 && 0 <= i < n
    ensures lower <= lower + (upper - lower) / ((n - 1) as real) * (i as real) <= upper
  {
    var step := (upper - lower) / ((n - 1) as real);
    assert step >= 0.0;
    assert step * ((n - 1) as real) == upper - lower;
    assert 0.0 <= step * (i as real) <= step * ((n - 1) as real);
  }

  /** The value the source writes at `points(d, p)`. */
  function Cell(limits: Limits, ns: seq<int>, d: nat, p: int): (v: real)
    requires d < |limits| == |ns| && Positive(ns) && p >= 0
    ensures ValidLimits(limits) ==> limits[d].Contains(v)
  {
    Coordinate(limits[d], ns[d], IndexInDim(p, ns, d))
  }

  /** `discretizeSpace`: one row per dimension, one column per grid point; the
      row and count mismatch is an error. */
  method DiscretizeSpace(limits: Limits, samplesByDim: seq<int>)
    returns (r: Result<array2<real>, GridError>)
    requires NonNegative(samplesByDim)
    ensures r.Err? <==> |limits| != |samplesByDim|
    ensures r.Ok? ==> fresh(r.value)
    ensures r.Ok? ==> r.value.Length0 == |limits| && r.value.Length1 == Product(samplesByDim)
    ensures r.Ok? && Positive(samplesByDim) ==>
      forall d, p :: 0 <= d < r.value.Length0 && 0 <= p < r.value.Length1 ==>
        r.value[d, p] == Cell(limits, samplesByDim, d, p)
  {
    if |limits| != |samplesByDim| {
      return Err(InconsistentLimits);
    }
    var ns := samplesByDim;
    var intervals, totalPoints := Strides(ns);
    var points := new real[|limits|, totalPoints];
    for dim := 0 to |limits|
      modifies points
      invariant Positive(ns) ==>
        forall d, p :: 0 <= d < dim && 0 <= p < totalPoints ==> points[d, p] == Cell(limits, ns, d, p)
    {
      FillDimension(points, limits, ns, intervals, dim);
    }
    return Ok(points);
  }

  /** The first loop of `discretizeSpace`: `intervals[d]` and the running
      `total_points`. */
  method Strides(ns: seq<int>) returns (intervals: array<int>, totalPoints: int)
    requires NonNegative(ns)
    ensures fresh(intervals) && intervals.Length == |ns|
    ensures totalPoints == Product(ns)
    ensures forall k :: 0 <= k < |ns| ==> intervals[k] == Stride(ns, k)
  {
    totalPoints := 1;
    intervals := new int[|ns|];
    for dim := 0 to |ns|
      invariant totalPoints == Product(ns[..dim])
      invariant forall k :: 0 <= k < dim ==> intervals[k] == Stride(ns, k)
    {
      intervals[dim] := totalPoints;
      ProductSnoc(ns[..dim], ns[dim]);
      assert ns[..dim + 1] == ns[..dim] + [ns[dim]];
      totalPoints := totalPoints * ns[dim];
    }
    assert ns[..|ns|] == ns;
  }

  /** The inner loop of `discretizeSpace`: row `dim` of `points`. */
  method FillDimension(points: array2<real>, limits: Limits, ns: seq<int>, intervals: array<int>, dim: nat)
    requires dim < |limits| == |ns| == points.Length0 == intervals.Length
    requires NonNegative(ns) && points.Length1 == Product(ns)
    requires forall k :: 0 <= k < |ns| ==> intervals[k] == Stride(ns, k)
    modifies points
    ensures Positive(ns) ==> forall p :: 0 <= p < points.Length1 ==> points[dim, p] == Cell(limits, ns, dim, p)
    ensures forall d, p :: 0 <= d < points.Length0 && 0 <= p < points.Length1 && d != dim ==>
      points[d, p] == old(points[d, p])
  {
    for point := 0 to points.Length1
      invariant Positive(ns) || points.Length1 == 0
      invariant forall p :: 0 <= p < point ==> points[dim, p] == Cell(limits, ns, dim, p)
      invariant forall d, p :: 0 <= d < points.Length0 && 0 <= p < points.Length1 && d != dim ==>
        points[d, p] == old(points[d, p])
    {
      var value := PointValue(limits, ns, intervals, dim, point);
      points[dim, point] := value;
    }
  }

  /** The body of the inner loop of `discretizeSpace`: the index of `point` along
      `dim`, then its coordinate. */
  method PointValue(limits: Limits, ns: seq<int>, intervals: array<int>, dim: nat, point: int)
    returns (value: real)
    requires dim < |limits| == |ns| == intervals.Length && Positive(ns) && point >= 0
    requires intervals[dim] == Stride(ns, dim)
    ensures value == Cell(limits, ns, dim, point)
  {
    assert Positive(ns[..dim]);
    var dimIndex := point / intervals[dim];
    dimIndex := dimIndex % ns[dim];
    value := (limits[dim].upper + limits[dim].lower) / 2.0;
    if ns[dim] != 1 {
      var stepSize := (limits[dim].upper - limits[dim].lower) / ((ns[dim] - 1) as real);
      value := limits[dim].lower + stepSize * (dimIndex as real);
    }
  }

  // ---------------------------------------------------------------------------
  // Integer facts.

  lemma MulMono(n: int, a: int, b: int)
    requires n >= 0 && a <= b
    ensures n * a <= n * b
  {
  }

  lemma MulAtLeast(n: int, k: int)
    requires n > 0 && k >= 1
    ensures n * k >= n
  {
  }

  lemma MulAssoc(a: int, b: int, c: int)
    ensures a * (b * c) == (a * b) * c
  {
  }

  lemma DivNonNegative(p: int, n: int)
    requires p >= 0 && n > 0
    ensures p / n >= 0
  {
  }

  lemma ProductSnoc(ns: seq<int>, x: int)
    ensures Product(ns + [x]) == Product(ns) * x
  {
    if ns != [] {
      assert (ns + [x])[1..] == ns[1..] + [x];
      ProductSnoc(ns[1..], x);
      MulAssoc(ns[0], Product(ns[1..]), x);
    } else {
      assert [x][1..] == [];
    }
  }

  lemma StrideCons(ns: seq<int>, d: nat)
    requires 1 <= d <= |ns|
    ensures Stride(ns, d) == ns[0] * Stride(ns[1..], d - 1)
  {
    assert ns[..d][1..] == ns[1..][..d - 1];
  }

  /** Division and remainder are determined by `e == q * n + r, 0 <= r < n`. */
  lemma DivModUnique(e: int, n: int, q: int, r: int)
    requires n > 0 && 0 <= r < n && e == q * n + r
    ensures e / n == q && e % n == r
  {
    var k := e / n - q;
    assert n * k == r - e % n;
    if k >= 1 {
      MulAtLeast(n, k);
    } else if k <= -1 {
      MulAtLeast(n, -k);
    }
  }

  lemma DivDiv(p: int, a: int, b: int)
    requires p >= 0 && a > 0 && b > 0
    ensures (p / a) / b == p / (a * b)
  {
    var q1, r1 := p / a, p % a;
    var q2, r2 := q1 / b, q1 % b;
    assert p == q1 * a + r1;
    assert q1 == q2 * b + r2;
    MulAssoc(q2, b, a);
    assert p == q2 * (a * b) + (a * r2 + r1);
    MulMono(a, r2, b - 1);
    assert a * (b - 1) == a * b - a;
    DivModUnique(p, a * b, q2, a * r2 + r1);
  }

  lemma DivBelow(p: int, n: int, m: int)
    requires 0 <= p < n * m && n > 0
    ensures p / n < m
  {
    var q := p / n;
    assert n * q <= p;
    if q >= m {
      MulMono(n, m, q);
    }
  }

  // ---------------------------------------------------------------------------
  // Mixed-radix decoding and encoding.

  /** The digits of `p` in mixed radix `ns`, least significant first. */
  function Digits(p: int, ns: seq<int>): (idx: seq<int>)
    requires Positive(ns) && p >= 0
    ensures |idx| == |ns|
    decreases ns
  {
    if ns == [] then []
    else
      var rest := ns[1..];
      assert Positive(rest);
      DivNonNegative(p, ns[0]);
      [p % ns[0]] + Digits(p / ns[0], rest)
  }

  /** The grid point whose indices are `idx`: `sum_d idx[d] * intervals[d]`. */
  function Encode(idx: seq<int>, ns: seq<int>): int
    requires |idx| == |ns|
  {
    if ns == [] then 0 else idx[0] + ns[0] * Encode(idx[1..], ns[1..])
  }

  /** The source's division-and-modulo formula computes the mixed-radix digits. */
  lemma {:induction false} DigitsAreIndices(p: int, ns: seq<int>, d: nat)
    requires Positive(ns) && p >= 0 && d < |ns|
    ensures Digits(p, ns)[d] == IndexInDim(p, ns, d)
    decreases ns
  {
    if d > 0 {
      DigitsAreIndices(p / ns[0], ns[1..], d - 1);
      assert Positive(ns[1..][..d - 1]);
      StrideCons(ns, d);
      DivDiv(p, ns[0], Stride(ns[1..], d - 1));
    } else {
      assert ns[..0] == [];
    }
  }

  lemma DigitsAreGridIndices(p: int, ns: seq<int>)
    requires Positive(ns) && p >= 0
    ensures Digits(p, ns) == GridIndices(p, ns)
  {
    forall d | 0 <= d < |ns| ensures Digits(p, ns)[d] == GridIndices(p, ns)[d] {
      DigitsAreIndices(p, ns, d);
    }
  }

  lemma {:induction false} EncodeInRange(idx: seq<int>, ns: seq<int>)
    requires InGrid(idx, ns)
    ensures 0 <= Encode(idx, ns) < Product(ns)
  {
    if ns != [] {
      EncodeInRange(idx[1..], ns[1..]);
      var e, n, m := Encode(idx[1..], ns[1..]), ns[0], Product(ns[1..]);
      MulMono(n, e, m - 1);
      MulMono(n, 0, e);
      assert n * (m - 1) == n * m - n;
    }
  }

  lemma {:induction false} DecodeEncode(idx: seq<int>, ns: seq<int>)
    requires InGrid(idx, ns)
    ensures Positive(ns)
    ensures 0 <= Encode(idx, ns) < Product(ns)
    ensures Digits(Encode(idx, ns), ns) == idx
  {
    if ns != [] {
      DecodeEncode(idx[1..], ns[1..]);
      EncodeInRange(idx, ns);
      var e := Encode(idx, ns);
      DivModUnique(e, ns[0], Encode(idx[1..], ns[1..]), idx[0]);
      assert idx == [idx[0]] + idx[1..];
    }
  }

  lemma {:induction false} EncodeDecode(p: int, ns: seq<int>)
    requires Positive(ns) && 0 <= p < Product(ns)
    ensures InGrid(Digits(p, ns), ns)
    ensures Encode(Digits(p, ns), ns) == p
    decreases ns
  {
    if ns != [] {
      DivBelow(p, ns[0], Product(ns[1..]));
      EncodeDecode(p / ns[0], ns[1..]);
      var ds := Digits(p, ns);
      assert ds[1..] == Digits(p / ns[0], ns[1..]);
    }
  }

  /** Every point of the grid has its indices in range. */
  lemma GridIndicesInGrid(p: int, ns: seq<int>)
    requires Positive(ns) && 0 <= p < Product(ns)
    ensures InGrid(GridIndices(p, ns), ns)
  {
  }

  /** Distinct points have distinct indices. */
  lemma GridIndicesInjective(p: int, q: int, ns: seq<int>)
    requires Positive(ns) && 0 <= p < Product(ns) && 0 <= q < Product(ns)
    requires GridIndices(p, ns) == GridIndices(q, ns)
    ensures p == q
  {
    DigitsAreGridIndices(p, ns);
    DigitsAreGridIndices(q, ns);
    EncodeDecode(p, ns);
    EncodeDecode(q, ns);
  }

  /** Every combination of indices is some point of the grid. */
  lemma GridIndicesSurjective(idx: seq<int>, ns: seq<int>)
    requires InGrid(idx, ns)
    ensures Positive(ns)
    ensures 0 <= Encode(idx, ns) < Product(ns)
    ensures GridIndices(Encode(idx, ns), ns) == idx
  {
    EncodeInRange(idx, ns);
    DecodeEncode(idx, ns);
    DigitsAreGridIndices(Encode(idx, ns), ns);
  }

  /** Dimension 0 varies fastest: its stride is 1, and each stride is the previous
      one times the previous sample count. */
  lemma StridesArePrefixProducts(ns: seq<int>, d: nat)
    requires d < |ns|
    ensures Stride(ns, 0) == 1
    ensures Stride(ns, d + 1) == Stride(ns, d) * ns[d]
  {
    assert ns[..0] == [];
    assert ns[..d + 1] == ns[..d] + [ns[d]];
    ProductSnoc(ns[..d], ns[d]);
  }

  // ---------------------------------------------------------------------------
  // Coordinates.

  /** With two or more samples the first index gives the lower bound and the last
      one the upper bound, whatever the interval. */
  lemma CoordinateEndpoints(iv: Interval, n: int)
    requires n >= 2
    ensures Coordinate(iv, n, 0) == iv.lower
    ensures Coordinate(iv, n, n - 1) == iv.upper
  {
    var step := (iv.upper - iv.lower) / ((n - 1) as real);
    assert step * ((n - 1) as real) == iv.upper - iv.lower;
  }

  /** With one sample every coordinate of the dimension is the midpoint, which lies
      inside the interval. */
  lemma SingleSampleIsMidpoint(iv: Interval, i: int)
    requires iv.lower <= iv.upper
    ensures Coordinate(iv, 1, i) == iv.Mid()
    ensures iv.Contains(Coordinate(iv, 1, i))
  {
  }
}
