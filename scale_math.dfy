/**
 * Exact arithmetic for the scale factors of the resizing operations. The Java
 * operations compute a factor as a quotient of two ints in double precision, multiplies a
 * dimension by it and rounds with Math.round; here the factor is an exact
 * fraction and Math.round is floor(x + 1/2).
 */
module ScaleMath {

  /** The fraction num / den, with den > 0. */
  datatype Ratio = Ratio(num: nat, den: nat)

  type Scale = r: Ratio | r.den > 0 witness Ratio(1, 1)

  /** a <= b as fractions. */
  predicate AtMost(a: Scale, b: Scale)
  {
    a.num * b.den <= b.num * a.den
  }

  /** Math.max on the two factors (the first one when they are equal). */
  function Max(a: Scale, b: Scale): (r: Scale)
    ensures r == a || r == b
    ensures AtMost(a, r) && AtMost(b, r)
  {
    if AtMost(b, a) then a else b
  }

  /** Math.min on the two factors (the first one when they are equal). */
  function Min(a: Scale, b: Scale): (r: Scale)
    ensures r == a || r == b
    ensures AtMost(r, a) && AtMost(r, b)
  {
    if AtMost(a, b) then a else b
  }

  /** Math.round(n / d) for n >= 0: the nearest integer, halves rounded up. */
  function Round(n: nat, d: nat): (r: nat)
    requires d > 0
    ensures 2 * d * r <= 2 * n + d < 2 * d * (r + 1)
  {
    (2 * n + d) / (2 * d)
  }

  /** (int) Math.round(dim * s). */
  function Scaled(dim: nat, s: Scale): nat
  {
    Round(dim * s.num, s.den)
  }

  lemma MulMonotone(c: nat, a: int, b: int)
    requires a <= b
    ensures c * a <= c * b
  {
    assert c * b == c * a + c * (b - a);
  }

  lemma RoundUnique(n: nat, d: nat, k: nat)
    requires d > 0
    requires 2 * d * k <= 2 * n + d < 2 * d * (k + 1)
    ensures Round(n, d) == k
  {
    var r := Round(n, d);
    if r < k {
      MulMonotone(2 * d, r + 1, k);
    } else if k < r {
      MulMonotone(2 * d, k + 1, r);
    }
  }

  /** A whole number is rounded to itself. */
  lemma RoundExact(k: nat, d: nat)
    requires d > 0
    ensures Round(k * d, d) == k
  {
    RoundUnique(k * d, d, k);
  }

  /** n / d <= k implies Math.round(n / d) <= k. */
  lemma RoundAtMost(n: nat, d: nat, k: nat)
    requires d > 0 && n <= k * d
    ensures Round(n, d) <= k
  {
    var r := Round(n, d);
    if k < r {
      MulMonotone(2 * d, k + 1, r);
    }
  }

  /** n / d >= k implies Math.round(n / d) >= k. */
  lemma RoundAtLeast(n: nat, d: nat, k: nat)
    requires d > 0 && n >= k * d
    ensures Round(n, d) >= k
  {
    var r := Round(n, d);
    if r < k {
      MulMonotone(2 * d, r + 1, k);
    }
  }

  /** Rounding is monotone. */
  lemma RoundMonotone(n: nat, m: nat, d: nat)
    requires d > 0 && n <= m
    ensures Round(n, d) <= Round(m, d)
  {
    var a := Round(n, d);
    var b := Round(m, d);
    if b < a {
      MulMonotone(2 * d, b + 1, a);
    }
  }

  /** dim * (bound / dim) is exactly bound. */
  lemma ScaledToBound(dim: nat, bound: nat)
    requires dim > 0
    ensures Scaled(dim, Ratio(bound, dim)) == bound
  {
    assert dim * bound == bound * dim;
    RoundExact(bound, dim);
  }

  /** dim * s <= bound when s <= bound / dim. */
  lemma ScaledAtMost(dim: nat, bound: nat, s: Scale)
    requires dim > 0 && AtMost(s, Ratio(bound, dim))
    ensures Scaled(dim, s) <= bound
  {
    assert dim * s.num <= bound * s.den;
    RoundAtMost(dim * s.num, s.den, bound);
  }

  /** dim * s >= bound when s >= bound / dim. */
  lemma ScaledAtLeast(dim: nat, bound: nat, s: Scale)
    requires dim > 0 && AtMost(Ratio(bound, dim), s)
    ensures Scaled(dim, s) >= bound
  {
    assert dim * s.num >= bound * s.den;
    RoundAtLeast(dim * s.num, s.den, bound);
  }

  /** A factor of at most one never enlarges. */
  lemma ScaledNotLarger(dim: nat, s: Scale)
    requires s.num <= s.den
    ensures Scaled(dim, s) <= dim
  {
    assert dim * s.num <= dim * s.den;
    RoundAtMost(dim * s.num, s.den, dim);
  }

  /** c * a <= c * b with c > 0 gives a <= b. */
  lemma MulCancel(c: nat, a: int, b: int)
    requires c > 0 && c * a <= c * b
    ensures a <= b
  {
    if b < a {
      MulMonotone(c, b + 1, a);
    }
  }

  /** A factor no larger than bound / dim, with bound < dim, is below one. */
  lemma FactorBelowOne(s: Scale, bound: nat, dim: nat)
    requires bound < dim && AtMost(s, Ratio(bound, dim))
    ensures s.num <= s.den
  {
    MulMonotone(s.den, bound, dim);
    assert dim * s.num <= dim * s.den;
    MulCancel(dim, s.num, s.den);
  }
}
