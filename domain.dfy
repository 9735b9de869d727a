/** Domain limits: the `D x 2` matrix of per-dimension bounds, column 0 the lower
    bound and column 1 the upper bound. */
module Domain {

  /** One row of a limits matrix. */
  datatype Interval = Interval(lower: real, upper: real) {

    /** `(limits(d, 0) + limits(d, 1)) / 2`, the default coordinate of a dimension. */
    function Mid(): real {
      (lower + upper) / 2.0
    }

    predicate Contains(x: real) {
      lower <= x <= upper
    }
  }

  /** A point: one column of an Eigen matrix of inputs. */
  type Point = seq<real>

  type Limits = seq<Interval>

  predicate ValidLimits(limits: Limits) {
    forall d :: 0 <= d < |limits| ==> limits[d].lower <= limits[d].upper
  }

  predicate InLimits(limits: Limits, x: Point) {
    |x| == |limits| && forall d :: 0 <= d < |limits| ==> limits[d].Contains(x[d])
  }

  /** `(limits.col(0) + limits.col(1)) / 2`. */
  function Midpoint(limits: Limits): (m: Point)
    ensures ValidLimits(limits) ==> InLimits(limits, m)
  {
    seq(|limits|, d requires 0 <= d < |limits| => limits[d].Mid())
  }
}
