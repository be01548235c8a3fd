/**
 * `type_7_cdf`: the clamped-linear CDF of the Type-7 estimator. The C and
 * the Python reference both evaluate it as a clamp to [(h - 1)/n, h/n]
 * followed by a rescaling; multiplied out it is x * n - (h - 1) clamped to
 * [0, 1], and the properties are proved on that form.
 */
module ClampedCdf {
  import opened RealArith

  /** C's `fmax` and `fmin` on ordinary numbers. */
  function Max(a: real, b: real): real
  {
    if a >= b then a else b
  }

  function Min(a: real, b: real): real
  {
    if a <= b then a else b
  }

  /** `fmax((h - 1) / n, fmin(h / n, x)) * n - h + 1`, as the C loop and the reference write it. */
  function ClampedLine(h: real, n: real, x: real): real
    requires n > 0.0
  {
    Max((h - 1.0) / n, Min(h / n, x)) * n - h + 1.0
  }

  /** y clamped to [0, 1]. */
  function UnitClamp(y: real): real
  {
    Max(0.0, Min(1.0, y))
  }

  /**
   * The Type-7 CDF at x for effective size n and probability p, with
   * h = p(n - 1) + 1: x * n - (h - 1) clamped to [0, 1].
   */
  function Type7Cdf(n: real, p: real, x: real): real
  {
    UnitClamp(x * n - p * (n - 1.0))
  }

  /** Scaling by a positive n commutes with taking the larger or the smaller of two numbers. */
  lemma ScaleMaxMin(a: real, b: real, n: real)
    requires n > 0.0
    ensures Max(a, b) * n == Max(a * n, b * n) && Min(a, b) * n == Min(a * n, b * n)
  {
    if a <= b {
      MulMonotone(a, b, n);
    } else {
      MulMonotone(b, a, n);
    }
  }

  /** Multiplied out, the clamped line is x * n - h + 1 clamped to [0, 1]. */
  lemma ClampedLineIsUnitClamp(h: real, n: real, x: real, xn: real)
    requires n > 0.0 && xn == x * n
    ensures ClampedLine(h, n, x) == UnitClamp(xn - h + 1.0)
  {
    var lo, hi := (h - 1.0) / n, h / n;
    assert lo * n == h - 1.0 && hi * n == h;
    ScaleMaxMin(hi, x, n);
    ScaleMaxMin(lo, Min(hi, x), n);
    assert ClampedLine(h, n, x) == Max(h - 1.0, Min(h, xn)) - h + 1.0;
  }

  /** The expression the C evaluates is the Type-7 CDF at h = p(n - 1) + 1. */
  lemma ClampedLineIsType7Cdf(n: real, p: real, x: real)
    requires n > 0.0
    ensures ClampedLine(p * (n - 1.0) + 1.0, n, x) == Type7Cdf(n, p, x)
  {
    ClampedLineIsUnitClamp(p * (n - 1.0) + 1.0, n, x, x * n);
  }

  /** The clamped line is 0 at (h - 1)/n and 1 at h/n, the ends of its rising part. */
  lemma ClampedLineEnds(h: real, n: real)
    requires n > 0.0
    ensures ClampedLine(h, n, (h - 1.0) / n) == 0.0 && ClampedLine(h, n, h / n) == 1.0
  {
    ClampedLineIsUnitClamp(h, n, (h - 1.0) / n, h - 1.0);
    ClampedLineIsUnitClamp(h, n, h / n, h);
  }

  lemma UnitClampBounds(y: real)
    ensures 0.0 <= UnitClamp(y) <= 1.0
  {
  }

  /** The Type-7 CDF stays in [0, 1]. */
  lemma Type7CdfBounds(n: real, p: real, x: real)
    ensures 0.0 <= Type7Cdf(n, p, x) <= 1.0
  {
    UnitClampBounds(x * n - p * (n - 1.0));
  }

  /** For n > 0 the Type-7 CDF never falls. */
  lemma Type7CdfMonotone(n: real, p: real, x: real, y: real)
    requires n > 0.0 && x <= y
    ensures Type7Cdf(n, p, x) <= Type7Cdf(n, p, y)
  {
    MulMonotone(x, y, n);
    UnitClampMonotone(x * n - p * (n - 1.0), y * n - p * (n - 1.0));
  }

  /** For n_eff >= 1 and p in [0, 1] the CDF is 0 at probability 0 and 1 at probability 1. */
  lemma Type7CdfEnds(n: real, p: real)
    requires n >= 1.0 && 0.0 <= p <= 1.0
    ensures Type7Cdf(n, p, 0.0) == 0.0 && Type7Cdf(n, p, 1.0) == 1.0
  {
    MulNonNegative(p, n - 1.0);
    MulAtMostOne(p, n - 1.0);
    UnitClampEnds(p * (n - 1.0), n);
  }

  lemma UnitClampEnds(pn: real, n: real)
    requires 0.0 <= pn <= n - 1.0
    ensures UnitClamp(0.0 * n - pn) == 0.0 && UnitClamp(1.0 * n - pn) == 1.0
  {
  }

  lemma UnitClampMonotone(a: real, b: real)
    requires a <= b
    ensures UnitClamp(a) <= UnitClamp(b)
  {
  }
}
