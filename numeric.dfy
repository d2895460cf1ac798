/**
 * Real-number helpers shared by the whole model. Floating point is modelled by
 * exact reals; square roots are supplied by the caller as a function value and
 * only the two facts the proofs need are assumed of it, through the predicates
 * below, in the `requires` of the members that need them.
 */
module Numeric {

  /** `sqrt` returns the non-negative square root of every non-negative real. */
  ghost predicate IsSqrt(sqrt: real -> real)
  {
    forall x: real {:trigger sqrt(x)} :: x >= 0.0 ==> sqrt(x) >= 0.0 && sqrt(x) * sqrt(x) == x
  }

  /** `hypot` never returns a negative length. */
  ghost predicate NonNegativeHypot(hypot: (real, real) -> real)
  {
    forall dx: real, dy: real {:trigger hypot(dx, dy)} :: hypot(dx, dy) >= 0.0
  }

  /** `hypot(dx, dy)` is the Euclidean length of the vector (dx, dy). */
  ghost predicate IsHypot(hypot: (real, real) -> real)
  {
    NonNegativeHypot(hypot)
    && forall dx: real, dy: real {:trigger hypot(dx, dy)} :: hypot(dx, dy) * hypot(dx, dy) == dx * dx + dy * dy
  }

  function Min(a: real, b: real): (r: real)
    ensures r <= a && r <= b && (r == a || r == b)
  {
    if a <= b then a else b
  }

  function Max(a: real, b: real): (r: real)
    ensures r >= a && r >= b && (r == a || r == b)
  {
    if a >= b then a else b
  }

  function Abs(a: real): (r: real)
    ensures r >= 0.0 && (r == a || r == -a)
  {
    if a >= 0.0 then a else -a
  }

  /** Division by a non-zero real is undone by multiplication. */
  lemma DivMul(u: real, v: real)
    requires v != 0.0
    ensures (u / v) * v == u
  {
  }

  /** The product of two positive reals is positive. */
  lemma MulPositive(x: real, y: real)
    requires x > 0.0 && y > 0.0
    ensures x * y > 0.0
  {
  }

  /** Two non-negative reals compare like their squares. */
  lemma SquareMonotone(a: real, b: real)
    requires a >= 0.0 && b >= 0.0
    ensures a <= b <==> a * a <= b * b
  {
    if a < b {
      MulPositive(b - a, b + a);
    } else if a > b {
      MulPositive(a - b, a + b);
    }
  }

  /** The square root of a non-negative real is bounded by `c` exactly when the real is bounded by `c * c`. */
  lemma SqrtAtMost(sqrt: real -> real, x: real, c: real)
    requires IsSqrt(sqrt) && x >= 0.0 && c >= 0.0
    ensures sqrt(x) <= c <==> x <= c * c
  {
    SquareMonotone(sqrt(x), c);
  }

  /** `MulPositive` for a product held in a variable. */
  lemma ProductPositive(x: real, y: real, p: real)
    requires x > 0.0 && y > 0.0 && p == x * y
    ensures p > 0.0
  {
    MulPositive(x, y);
  }

  /** A square `y` of `x` is never negative, and zero exactly when `x` is. */
  lemma SquareSign(x: real, y: real)
    requires y == x * x
    ensures y >= 0.0
    ensures y == 0.0 <==> x == 0.0
  {
    if x > 0.0 {
      ProductPositive(x, x, y);
    } else if x < 0.0 {
      ProductPositive(-x, -x, y);
    }
  }

  /** The square root of a non-negative real is zero exactly when the real is. */
  lemma SqrtZero(sqrt: real -> real, x: real)
    requires IsSqrt(sqrt) && x >= 0.0
    ensures sqrt(x) == 0.0 <==> x == 0.0
  {
    SquareMonotone(sqrt(x), 0.0);
  }

  /** `w` scaled by a factor in [0, 1] lies between 0 and `w`. */
  lemma Scaled(w: real, f: real, p: real)
    requires 0.0 <= f <= 1.0 && p == w * f
    ensures w >= 0.0 ==> 0.0 <= p <= w
    ensures w <= 0.0 ==> w <= p <= 0.0
  {
    assert w - p == w * (1.0 - f);
    if w > 0.0 && f < 1.0 {
      ProductPositive(w, 1.0 - f, w - p);
    } else if w < 0.0 && f < 1.0 {
      ProductPositive(-w, 1.0 - f, p - w);
    }
    if w > 0.0 && f > 0.0 {
      ProductPositive(w, f, p);
    } else if w < 0.0 && f > 0.0 {
      ProductPositive(-w, f, -p);
    }
  }
}
