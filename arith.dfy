/** Facts about real multiplication and division that the solver does not find on its own:
    signs and orderings of products and quotients. */
module RealArith {

  /** Dividing by a product of two positive numbers keeps the sign of the numerator. */
  lemma QuotientByPositiveProduct(n: real, a: real, b: real)
    requires a > 0.0 && b > 0.0
    ensures n / (a * b) > 0.0 <==> n > 0.0
    ensures n / (a * b) == 0.0 <==> n == 0.0
  {
    ProductPositive(a, b);
    QuotientSign(n, a * b);
  }

  /** A product of two positive reals is positive. */
  lemma ProductPositive(a: real, b: real)
    requires a > 0.0 && b > 0.0
    ensures a * b > 0.0
  {
  }

  /** Multiplying both sides of an inequality by a non-negative factor keeps it. */
  lemma ProductOrder(a: real, b: real, c: real)
    requires a <= b && c >= 0.0
    ensures a * c <= b * c
  {
  }

  /** The sign of a quotient by a positive number is the sign of the numerator. */
  lemma QuotientSign(n: real, d: real)
    requires d > 0.0
    ensures n / d > 0.0 <==> n > 0.0
    ensures n / d == 0.0 <==> n == 0.0
  {
    var q := n / d;
    assert q * d == n;
    if q > 0.0 {
      ProductPositive(q, d);
    } else if q < 0.0 {
      ProductPositive(-q, d);
    }
  }

  /** Dividing a larger non-negative numerator by a smaller positive denominator gives a larger quotient. */
  lemma QuotientOrder(n1: real, n2: real, d1: real, d2: real)
    requires 0.0 <= n1 <= n2 && 0.0 < d2 <= d1
    ensures n1 / d1 <= n2 / d2
  {
    var q1, q2 := n1 / d1, n2 / d2;
    assert q1 * d1 == n1 && q2 * d2 == n2;
    QuotientSign(n1, d1);
    ProductOrder(d2, d1, q1);
    assert (q2 - q1) * d2 >= 0.0;
    if q2 - q1 < 0.0 {
      ProductPositive(q1 - q2, d2);
    }
  }

  /** Adding the denominator to the numerator adds one to the quotient. */
  lemma QuotientShift(n: real, d: real)
    requires d != 0.0
    ensures (n + d) / d == n / d + 1.0
  {
    var q, r, inv := n / d, (n + d) / d, 1.0 / d;
    assert q * d == n && r * d == n + d && inv * d == 1.0;
    assert q == (q * d) * inv == n * inv;
    assert r == (r * d) * inv == (n + d) * inv == n * inv + 1.0;
  }
}
