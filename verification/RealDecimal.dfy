/** Decimals as real numbers, to compare rounded results with exact ones. */
module RealDecimal {
  import opened Decimal

  const ULPS := 1_000_000_000_000_000_000.0

  function Fraction(a: int): real {
    a as real / ULPS
  }

  lemma Times(u: real, v: real)
    requires u >= 0.0 && v >= 0.0
    ensures u * v >= 0.0
  {
  }

  lemma RealProduct(a: int, b: int)
    ensures (a * b) as real == a as real * b as real
  {
  }

  lemma MulReal(a: int, b: int)
    ensures -1.0 <= 2.0 * (Mul(a, b) as real - a as real * Fraction(b)) <= 1.0
  {
  }

  lemma BoundedProduct(e: real, w: real, eBound: real, wBound: real)
    requires -eBound <= e <= eBound && 0.0 <= w <= wBound
    ensures -(eBound * wBound) <= e * w <= eBound * wBound
  {
  }

  lemma Unscale(i: real, gap: real, bound: real)
    requires i > 0.0 && -bound * i <= i * gap <= bound * i
    ensures -bound <= gap <= bound
  {
  }

  lemma CancelFactor(u: real, v: real, n: real)
    requires n > 0.0 && u * n <= v * n
    ensures u <= v
  {
    if u > v {
      Times(u - v, n);
      assert false;
    }
  }

  lemma ProductOrder(a: real, b: real, c: real, d: real)
    requires 0.0 <= a <= c && 0.0 <= b <= d
    ensures 0.0 <= a * b <= c * d
  {
    Times(a, b);
    Times(c - a, b);
    Times(c, d - b);
    assert c * d - a * b == (c - a) * b + c * (d - b);
  }

  function Magnitude(r: real): real {
    if r >= 0.0 then r else -r
  }

  lemma MagnitudeNonNegative(r: real)
    ensures Magnitude(r) >= 0.0
  {
  }

  lemma MagnitudeOfProduct(u: real, v: real)
    ensures Magnitude(u * v) == Magnitude(u) * Magnitude(v)
  {
    assert (-u) * v == -(u * v) == u * (-v) && (-u) * (-v) == u * v;
    Times(Magnitude(u), Magnitude(v));
  }

  lemma MagnitudeOfQuotient(u: real, n: real)
    requires n > 0.0
    ensures Magnitude(u / n) == Magnitude(u) / n
  {
  }

  /** Where terms at least halve, the last one covers all that follow. */
  lemma HalvingTail(d: real, t: real, next: real, bound: real)
    requires Magnitude(d) + Magnitude(t) <= bound && 2.0 * Magnitude(next) <= Magnitude(t)
    ensures Magnitude(d + next) + Magnitude(next) <= bound
  {
  }

  /** A sum near one partial sum is near the others that are close to that one. */
  lemma NearAll(v: real, p: real, q: real, error: real, tail: real)
    requires Magnitude(v - ULPS * p) <= error && ULPS * Magnitude(q - p) <= tail
    ensures Magnitude(v - ULPS * q) <= error + tail
  {
  }

  /** The limit of a sequence of partial sums. */
  ghost predicate IsLimit(sums: nat -> real, limit: real) {
    forall eps: real | eps > 0.0 :: Settles(sums, limit, eps)
  }

  ghost predicate Settles(sums: nat -> real, limit: real, eps: real) {
    exists n: nat :: Within(sums, limit, eps, n)
  }

  ghost predicate Within(sums: nat -> real, limit: real, eps: real, n: nat) {
    forall m: nat | m >= n :: Magnitude(sums(m) - limit) <= eps
  }

  /** What is near all late partial sums is as near to their limit. */
  lemma NearLimit(sums: nat -> real, limit: real, v: real, n: nat, bound: real)
    requires IsLimit(sums, limit) && forall m: nat | m >= n :: Magnitude(v - ULPS * sums(m)) <= bound
    ensures Magnitude(v - ULPS * limit) <= bound
  {
    var gap := Magnitude(v - ULPS * limit) - bound;
    if gap > 0.0 {
      var eps := gap / (2.0 * ULPS);
      assert Settles(sums, limit, eps);
      var k: nat :| Within(sums, limit, eps, k);
      var m := if k >= n then k else n;
      NearBoth(v, sums(m), limit, bound, eps);
    }
  }

  lemma NearBoth(v: real, s: real, limit: real, bound: real, eps: real)
    requires Magnitude(s - limit) <= eps && Magnitude(v - ULPS * s) <= bound
    ensures Magnitude(v - ULPS * limit) <= bound + ULPS * eps
  {
  }
}
