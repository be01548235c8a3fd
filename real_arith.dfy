/** Facts about real multiplication and division that the solver does not find unaided. */
module RealArith {

  lemma MulNonNegative(a: real, b: real)
    requires a >= 0.0 && b >= 0.0
    ensures a * b >= 0.0
  {
  }

  lemma MulMonotone(f: real, g: real, d: real)
    requires f <= g && d >= 0.0
    ensures f * d <= g * d
  {
    MulNonNegative(g - f, d);
    assert g * d - f * d == (g - f) * d;
  }

  /** A fraction of a non-negative amount is at most that amount. */
  lemma MulAtMostOne(f: real, d: real)
    requires f <= 1.0 && d >= 0.0
    ensures f * d <= d
  {
    MulMonotone(f, 1.0, d);
  }

  /** A fraction strictly inside (0, 1) of a positive amount is strictly between 0 and it. */
  lemma MulFraction(f: real, d: real, p: real)
    requires 0.0 < f < 1.0 && d > 0.0 && p == f * d
    ensures 0.0 < p < d
  {
    MulPositive(f, d, p);
    MulPositive(1.0 - f, d, d - p);
  }

  lemma MulPositive(a: real, b: real, p: real)
    requires a > 0.0 && b > 0.0 && p == a * b
    ensures p > 0.0
  {
  }

  lemma DivBounds(x: real, d: real)
    requires 0.0 < x <= d
    ensures 0.0 < x / d <= 1.0
  {
    var f := x / d;
    assert f * d == x;
    MulAboveOne(f, d);
  }

  lemma MulAboveOne(f: real, d: real)
    requires d > 0.0
    ensures f > 1.0 ==> f * d > d
  {
    assert f * d - d == (f - 1.0) * d;
  }

  lemma DivMonotone(x: real, y: real, d: real)
    requires x <= y && d > 0.0
    ensures x / d <= y / d
  {
    assert y / d - x / d == (y - x) / d;
    assert (y - x) / d * d == y - x;
  }

  lemma DivPositive(x: real, d: real)
    requires x > 0.0 && d > 0.0
    ensures x / d > 0.0
  {
    assert x / d * d == x;
  }

  /** The inverse of a number in (0, 1] is at least 1. */
  lemma InverseAtLeastOne(x: real)
    requires 0.0 < x <= 1.0
    ensures 1.0 / x >= 1.0
  {
    var f := 1.0 / x;
    assert f * x == 1.0;
    if f < 1.0 {
      MulPositive(1.0 - f, x, x - f * x);
    }
  }

  /** The inverse of a number in (0, 1) is above 1. */
  lemma InverseAboveOne(x: real)
    requires 0.0 < x < 1.0
    ensures 1.0 / x > 1.0
  {
    var f := 1.0 / x;
    assert f * x == 1.0;
    if f <= 1.0 {
      MulMonotone(f, 1.0, x);
    }
  }

  /** Squaring commutes with division. */
  lemma DivSquare(w: real, d: real)
    requires d > 0.0
    ensures (w / d) * (w / d) == (w * w) / (d * d)
  {
    var a := w / d;
    assert a * d == w;
    assert (a * a) * (d * d) == (a * d) * (a * d);
    MulPositive(d, d, d * d);
  }

  /** Dividing by a quotient multiplies by its inverse. */
  lemma InverseOfQuotient(q: real, d: real, a: real)
    requires q > 0.0 && d > 0.0 && a == q / d
    ensures a > 0.0 && 1.0 / a == d / q
  {
    DivPositive(q, d);
    assert a * d == q;
    var b := d / q;
    assert b * q == d;
    assert a * b == 1.0 by {
      assert (a * b) * (d * q) == (a * d) * (b * q);
      MulPositive(d, q, d * q);
    }
  }

  /**
   * One more term of a weighted sum bounded by lo and hi times its weight:
   * adding d * v with d >= 0 and lo <= v <= hi keeps the bounds.
   */
  lemma WeightedStep(lo: real, hi: real, a: real, m: real, d: real, v: real, a': real, m': real)
    requires lo * a <= m <= hi * a && d >= 0.0 && lo <= v <= hi && a' == a + d && m' == m + d * v
    ensures lo * a' <= m' <= hi * a'
  {
    MulMonotone(lo, v, d);
    MulMonotone(v, hi, d);
  }

  /** One more term d * c keeps a sum equal to c times the running rise. */
  lemma ScaleStep(c: real, a: real, d: real, a': real, m: real, m': real)
    requires m == c * a && a' == a + d && m' == m + d * c
    ensures m' == c * a'
  {
  }

  lemma MulBelowQuotient(x: real, a: real, n: real, xn: real)
    requires n > 0.0 && xn == x * n && x <= a / n
    ensures xn <= a
  {
    MulMonotone(x, a / n, n);
    assert a / n * n == a;
  }

  lemma MulAboveQuotient(x: real, a: real, n: real, xn: real)
    requires n > 0.0 && xn == x * n && x >= a / n
    ensures xn >= a
  {
    MulMonotone(a / n, x, n);
    assert a / n * n == a;
  }

  /** A sum bounded by lo and hi times a positive total has its quotient by that total between lo and hi. */
  lemma QuotientBetween(lo: real, hi: real, m: real, t: real)
    requires t > 0.0 && lo * t <= m <= hi * t
    ensures lo <= m / t <= hi
  {
    var q := m / t;
    assert q * t == m;
    if q < lo {
      MulPositive(lo - q, t, lo * t - q * t);
    }
    if q > hi {
      MulPositive(q - hi, t, q * t - hi * t);
    }
  }

  /** Scaling a non-negative amount by n / (n - d), with 0 <= d < n, never makes it smaller. */
  lemma InflateAtLeast(v: real, n: real, d: real)
    requires v >= 0.0 && 0.0 <= d < n
    ensures v * n / (n - d) >= v
  {
    var q := v * n / (n - d);
    assert q * (n - d) == v * n;
    MulMonotone(n - d, n, v);
    assert v * (n - d) <= v * n;
    if q < v {
      MulPositive(v - q, n - d, v * (n - d) - q * (n - d));
    }
  }

  /** Scaling by n / (n - 0) changes nothing. */
  lemma NoCorrection(x: real, n: real)
    requires n > 0.0
    ensures x * n / (n - 0.0) == x
  {
    CancelQuotient(x, n, x * n);
  }

  /** Dividing c * t by t gives back c. */
  lemma CancelQuotient(c: real, t: real, m: real)
    requires t > 0.0 && m == c * t
    ensures m / t == c
  {
  }

  /** Scaling a non-negative v by n / (n - d) with d < 0 keeps it within [0, v]. */
  lemma DeflateAtMost(v: real, n: real, d: real)
    requires v >= 0.0 && n > 0.0 && d < 0.0
    ensures 0.0 <= v * n / (n - d) <= v
  {
    var q := v * n / (n - d);
    assert q * (n - d) == v * n;
    MulNonNegative(v, n);
    MulMonotone(n, n - d, v);
    assert v * n <= v * (n - d);
    if q < 0.0 {
      MulPositive(0.0 - q, n - d, 0.0 - q * (n - d));
    }
    if q > v {
      MulPositive(q - v, n - d, q * (n - d) - v * (n - d));
    }
  }

  /** w * e * e, regrouped around the square d = e * e. */
  lemma ReorderSquare(w: real, e: real, d: real)
    requires d == e * e
    ensures w * e * e == d * w
  {
  }

  /** A square is never negative. */
  lemma MulNonNegativeSquare(x: real)
    ensures x * x >= 0.0
  {
    if x < 0.0 {
      MulPositive(0.0 - x, 0.0 - x, (0.0 - x) * (0.0 - x));
    }
  }
}
