/** Two closed-form benchmark functions
    (src/regression_experiments/basic_functions.cpp): `SinusSum`, the sum of the
    sines of the coordinates, and `AbsDiff`, minus the sum of their absolute
    values. Each gives its limits, its value at a point and its maximum. */
module BasicFunctions {
  import opened Domain

  /** `M_PI`: the shortest decimal that rounds to that double (the double itself is
      3.141592653589793115997963...). */
  const Pi: real := 3.141592653589793

  /** `std::fabs`. */
  function Abs(x: real): real {
    if x < 0.0 then -x else x
  }

  /** `sum_d |xs[d]|`, accumulated in order. */
  function SumAbs(xs: seq<real>): real {
    if xs == [] then 0.0 else SumAbs(xs[..|xs| - 1]) + Abs(xs[|xs| - 1])
  }

  /** `sum_d sin(xs[d])`, accumulated in order. */
  function SumSin(xs: seq<real>, sin: real -> real): real {
    if xs == [] then 0.0 else SumSin(xs[..|xs| - 1], sin) + sin(xs[|xs| - 1])
  }

  function Negate(xs: seq<real>): (ys: seq<real>)
  {
    seq(|xs|, d requires 0 <= d < |xs| => -xs[d])
  }

  function Origin(n: nat): (o: Point)
  {
    seq(n, d => 0.0)
  }

  /** `f(x) = sum_{d < nbDimensions} sin(x_d)` over `[-pi * nbCycles, pi * nbCycles]`
      in every dimension. The sine is a parameter of the model. */
  datatype SinusSum = SinusSum(nbCycles: int, nbDimensions: nat) {

    /** `getLimits`: one row `[-pi * nbCycles, pi * nbCycles]` per dimension, i.e.
        `nbCycles` periods of the sine centred on 0. */
    function Limits(): (lim: Limits)
      ensures |lim| == nbDimensions
      ensures forall d :: 0 <= d < |lim| ==>
        lim[d].Mid() == 0.0 && lim[d].upper - lim[d].lower == 2.0 * Pi * (nbCycles as real)
    {
      seq(nbDimensions, d => Interval(-Pi * (nbCycles as real), Pi * (nbCycles as real)))
    }

    /** `getMax`: never negative; `BelowMax` and `MaxAttained` show it is the
        maximum. */
    function Max(): (m: real)
      ensures m >= 0.0
    {
      nbDimensions as real
    }

    function Value(x: Point, sin: real -> real): real
      requires |x| >= nbDimensions
    {
      SumSin(x[..nbDimensions], sin)
    }

    /** `sample`: adds the sine of each coordinate to a running total. */
    method Sample(x: Point, sin: real -> real) returns (total: real)
      requires |x| >= nbDimensions
      ensures total == Value(x, sin)
    {
      total := 0.0;
      for dim := 0 to nbDimensions
        invariant total == SumSin(x[..dim], sin)
      {
        assert x[..dim + 1][..dim] == x[..dim];
        total := total + sin(x[dim]);
      }
    }

    /** The limits are symmetric around 0, one row per dimension, and a valid
        domain exactly when `nbCycles` is not negative (or there is no dimension). */
    lemma LimitsShape()
      ensures |Limits()| == nbDimensions
      ensures forall d :: 0 <= d < nbDimensions ==>
        Limits()[d].lower == -Limits()[d].upper && Limits()[d].upper == Pi * (nbCycles as real)
      ensures ValidLimits(Limits()) <==> (nbDimensions == 0 || nbCycles >= 0)
    {
      if nbDimensions > 0 && ValidLimits(Limits()) {
        assert Limits()[0].lower <= Limits()[0].upper;
      }
    }

    /** With a sine bounded by one, no sample exceeds `getMax()`. */
    /** With a sine that reaches 1 at `pi / 2`, `getMax()` is reached at the point
        whose every coordinate is `pi / 2`, which lies in the limits as soon as
        `nbCycles >= 1`. */
    lemma MaxAttained(sin: real -> real)
      requires sin(Pi / 2.0) == 1.0
      ensures Value(Peak(nbDimensions), sin) == Max()
      ensures nbCycles >= 1 ==> InLimits(Limits(), Peak(nbDimensions))
    {
      assert Peak(nbDimensions)[..nbDimensions] == Peak(nbDimensions);
      SumSinPeak(nbDimensions, sin);
      if nbCycles >= 1 {
        assert Pi * (nbCycles as real) >= Pi;
      }
    }

    lemma {:induction false} BelowMax(x: Point, sin: real -> real)
      requires |x| >= nbDimensions
      requires forall t :: -1.0 <= sin(t) <= 1.0
      ensures -Max() <= Value(x, sin) <= Max()
    {
      SumSinBounds(x[..nbDimensions], sin);
    }
  }

  /** The point whose every coordinate is `pi / 2`, where the sine peaks. */
  function Peak(n: nat): Point {
    seq(n, d => Pi / 2.0)
  }

  lemma {:induction false} SumSinPeak(n: nat, sin: real -> real)
    requires sin(Pi / 2.0) == 1.0
    ensures SumSin(Peak(n), sin) == n as real
  {
    if n > 0 {
      assert Peak(n)[..n - 1] == Peak(n - 1);
      SumSinPeak(n - 1, sin);
    }
  }

  lemma {:induction false} SumSinBounds(xs: seq<real>, sin: real -> real)
    requires forall t :: -1.0 <= sin(t) <= 1.0
    ensures -(|xs| as real) <= SumSin(xs, sin) <= |xs| as real
  {
    if xs != [] {
      SumSinBounds(xs[..|xs| - 1], sin);
    }
  }

  /** `f(x) = -sum_{d < nbDimensions} |x_d|` over `[-inputMax, inputMax]` in every
      dimension. */
  datatype AbsDiff = AbsDiff(inputMax: real, nbDimensions: nat) {

    /** `getLimits`: one row `[-inputMax, inputMax]` per dimension. */
    function Limits(): (lim: Limits)
      ensures |lim| == nbDimensions
      ensures forall d :: 0 <= d < |lim| ==>
        lim[d].Mid() == 0.0 && lim[d].upper - lim[d].lower == 2.0 * inputMax
    {
      seq(nbDimensions, d => Interval(-inputMax, inputMax))
    }

    /** `getMax`: the value at the origin. */
    function Max(): (m: real)
      ensures Value(Origin(nbDimensions)) == m
    {
      assert Origin(nbDimensions)[..nbDimensions] == Origin(nbDimensions);
      SumAbsZero(Origin(nbDimensions));
      0.0
    }

    function Value(x: Point): real
      requires |x| >= nbDimensions
    {
      -SumAbs(x[..nbDimensions])
    }

    /** `sample`: subtracts the absolute value of each coordinate from a running
        total. */
    method Sample(x: Point) returns (total: real)
      requires |x| >= nbDimensions
      ensures total == Value(x)
    {
      total := 0.0;
      for dim := 0 to nbDimensions
        invariant total == -SumAbs(x[..dim])
      {
        assert x[..dim + 1][..dim] == x[..dim];
        total := total - Abs(x[dim]);
      }
    }

    /** The limits are `[-inputMax, inputMax]` in every dimension, a valid domain
        exactly when `inputMax` is not negative (or there is no dimension), and then
        they contain the origin, where the maximum is reached. */
    lemma LimitsShape()
      ensures |Limits()| == nbDimensions
      ensures forall d :: 0 <= d < nbDimensions ==> Limits()[d] == Interval(-inputMax, inputMax)
      ensures ValidLimits(Limits()) <==> (nbDimensions == 0 || inputMax >= 0.0)
      ensures ValidLimits(Limits()) ==> InLimits(Limits(), Origin(nbDimensions))
    {
      if nbDimensions > 0 && ValidLimits(Limits()) {
        assert Limits()[0].lower <= Limits()[0].upper;
      }
    }

    /** No sample exceeds `getMax()`, and a sample reaches it exactly when every
        used coordinate is 0. */
    lemma MaxOnlyAtOrigin(x: Point)
      requires |x| >= nbDimensions
      ensures Value(x) <= Max()
      ensures Value(x) == Max() <==> forall d :: 0 <= d < nbDimensions ==> x[d] == 0.0
    {
      SumAbsZero(x[..nbDimensions]);
    }

    /** The function is even: `sample(x) == sample(-x)`. */
    lemma Symmetric(x: Point)
      requires |x| >= nbDimensions
      ensures Value(Negate(x)) == Value(x)
    {
      assert Negate(x)[..nbDimensions] == Negate(x[..nbDimensions]);
      SumAbsNegate(x[..nbDimensions]);
    }
  }

  lemma {:induction false} SumAbsZero(xs: seq<real>)
    ensures SumAbs(xs) >= 0.0
    ensures SumAbs(xs) == 0.0 <==> forall d :: 0 <= d < |xs| ==> xs[d] == 0.0
  {
    if xs != [] {
      var k := |xs| - 1;
      SumAbsZero(xs[..k]);
      if SumAbs(xs) == 0.0 {
        forall d | 0 <= d < |xs| ensures xs[d] == 0.0 {
          if d < k {
            assert xs[..k][d] == xs[d];
          }
        }
      }
    }
  }

  lemma {:induction false} SumAbsNegate(xs: seq<real>)
    ensures SumAbs(Negate(xs)) == SumAbs(xs)
  {
    if xs != [] {
      var k := |xs| - 1;
      assert Negate(xs)[..k] == Negate(xs[..k]);
      SumAbsNegate(xs[..k]);
    }
  }
}
