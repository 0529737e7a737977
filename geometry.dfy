/** The line geometry of src/functions.py.
    A line is the set of points (x, y) with x·cos θ + y·sin θ = r. Trigonometry is
    abstracted: every function takes c = cos θ and s = sin θ as plain reals, so the
    identities below hold for every angle, not only up to rounding. */
module Geometry {

  /** r(θ, x, y): the line parameter r of the line through (x, y) at angle θ. */
  function R(c: real, s: real, x: real, y: real): real
  {
    x * c + y * s
  }

  /** x(y, r, θ): the abscissa of the point at height y on the line (r, θ).
      Undefined where cos θ = 0, which is a precondition here. */
  function X(y: real, r: real, c: real, s: real): (x: real)
    requires c != 0.0
    ensures R(c, s, x, y) == r
  {
    (r - y * s) / c
  }

  /** y(x, r, θ): the ordinate of the point at abscissa x on the line (r, θ).
      Undefined where sin θ = 0, which is a precondition here. */
  function Y(x: real, r: real, c: real, s: real): (y: real)
    requires s != 0.0
    ensures R(c, s, x, y) == r
  {
    (r - x * c) / s
  }

  /** Every line through the origin has r = 0. */
  lemma ROfOrigin(c: real, s: real)
    ensures R(c, s, 0.0, 0.0) == 0.0
  {
  }

  /** r is additive in the point. */
  lemma RAdditive(c: real, s: real, x1: real, y1: real, x2: real, y2: real)
    ensures R(c, s, x1 + x2, y1 + y2) == R(c, s, x1, y1) + R(c, s, x2, y2)
  {
  }

  /** r is homogeneous in the point: scaling the point scales r. */
  lemma RHomogeneous(c: real, s: real, a: real, x: real, y: real)
    ensures R(c, s, a * x, a * y) == a * R(c, s, x, y)
  {
  }

  /** x undoes r: the line through (x, y) meets height y at x again. */
  lemma XRoundTrip(x: real, y: real, c: real, s: real)
    requires c != 0.0
    ensures X(y, R(c, s, x, y), c, s) == x
  {
  }

  /** y undoes r. */
  lemma YRoundTrip(x: real, y: real, c: real, s: real)
    requires s != 0.0
    ensures Y(x, R(c, s, x, y), c, s) == y
  {
  }

  /** When cos θ ≠ 0 the point of the line at height y is unique: it is x(y, r, θ). */
  lemma OnLineIffX(x: real, y: real, r: real, c: real, s: real)
    requires c != 0.0
    ensures R(c, s, x, y) == r <==> x == X(y, r, c, s)
  {
    if R(c, s, x, y) == r {
      XRoundTrip(x, y, c, s);
    }
  }

  /** When sin θ ≠ 0 the point of the line at abscissa x is unique: it is y(x, r, θ). */
  lemma OnLineIffY(x: real, y: real, r: real, c: real, s: real)
    requires s != 0.0
    ensures R(c, s, x, y) == r <==> y == Y(x, r, c, s)
  {
    if R(c, s, x, y) == r {
      YRoundTrip(x, y, c, s);
    }
  }
}
