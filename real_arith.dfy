/** Small facts about real arithmetic that the motion proofs lean on. */
module RealArith {

  function Abs(x: real): real { if x < 0.0 then -x else x }

  /** |x|*|x| == x*x. */
  lemma AbsSquare(x: real)
    ensures Abs(x) * Abs(x) == x * x
  {
  }

  /** 0 <= x*y for non-negative x and y. */
  lemma ProductNonNegative(x: real, y: real)
    requires 0.0 <= x && 0.0 <= y
    ensures 0.0 <= x * y
  {
  }

  /** 0 < x*y for positive x and y. */
  lemma ProductPositive(x: real, y: real)
    requires 0.0 < x && 0.0 < y
    ensures 0.0 < x * y
  {
  }

  /** Scaling by a positive factor keeps the sign. */
  lemma ScaledSign(a: real, x: real)
    requires a > 0.0
    ensures a * x < 0.0 <==> x < 0.0
    ensures a * x == 0.0 <==> x == 0.0
  {
    if x < 0.0 {
      ProductPositive(a, -x);
    } else if x > 0.0 {
      ProductPositive(a, x);
    }
  }

  /** Squaring is strictly increasing on the non-negative reals. */
  lemma SquareGrows(p: real, q: real)
    requires 0.0 <= p < q
    ensures p * p < q * q
  {
    var d := q - p;
    assert q * q == p * p + d * (q + p);
    assert d * (q + p) > 0.0;
  }

  /** p <= q exactly when p*p <= q*q, for non-negative p and q. */
  lemma SquareMonotone(p: real, q: real)
    requires 0.0 <= p && 0.0 <= q
    ensures p <= q <==> p * p <= q * q
    ensures p < q <==> p * p < q * q
  {
    if p < q {
      SquareGrows(p, q);
    } else if q < p {
      SquareGrows(q, p);
    }
  }

  /** With a > 0: u*2a == d and d < t*a put u before t. */
  lemma LaterTime(a: real, d: real, u: real, t: real)
    requires a > 0.0 && 0.0 < d && u * (2.0 * a) == d && d < t * a
    ensures u < t
  {
    assert (t - u) * a == t * a - d / 2.0;
    if t <= u {
      ProductNonNegative(u - t, a);
    }
  }
}
