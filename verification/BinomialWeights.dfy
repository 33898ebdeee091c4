/**
 How fast the terms of the binomial series fall: n times the n-th term, its
 weight, decays like a power of x, or at x = 1 like a power of n.
 */
module BinomialWeights {
  import opened RealDecimal
  import opened RealPowers
  import opened BinomialSeries
  import opened Exponential

  /** n times the magnitude of the n-th term. */
  ghost function Weight(a: real, x: real, n: nat): real {
    Magnitude(Term(a, x, n)) * n as real
  }

  lemma AdvanceScaled(t: real, c: real, x: real, i: real)
    requires i >= 1.0
    ensures Magnitude(Advance(t, c, x, i)) * i == Magnitude(t) * Magnitude(c) * Magnitude(x)
  {
    MagnitudeOfQuotient(t * c * x, i);
    MagnitudeOfProduct(t * c, x);
    MagnitudeOfProduct(t, c);
  }

  /** One weight w from the weight before it, v = t k, in which t is the term. */
  ghost predicate Follows(v: real, w: real, t: real, k: real, a: real, x: real) {
    t >= 0.0 && v == t * k && w == t * (k - a) * x
  }

  lemma NextWeight(a: real, x: real, n: nat)
    requires 0.0 <= a <= 1.0 && n >= 1
    ensures Follows(Weight(a, x, n), Weight(a, x, n + 1), Magnitude(Term(a, x, n)), n as real, a, Magnitude(x))
  {
    hide Advance;
    var t, c := Term(a, x, n), a - n as real;
    assert (n + 1) as real == n as real + 1.0;
    AdvanceScaled(t, c, x, n as real + 1.0);
    assert Magnitude(c) == n as real - a;
  }

  lemma FirstWeight(a: real, x: real)
    requires a >= 0.0
    ensures Weight(a, x, 1) == a * Magnitude(x)
  {
    hide Advance;
    AdvanceScaled(1.0, a, x, 1.0);
    assert Term(a, x, 0) == 1.0;
    assert Term(a, x, 1) == Advance(1.0, a - 0.0, x, 1.0);
  }

  lemma WeightFalls(v: real, w: real, t: real, k: real, a: real, x: real)
    requires Follows(v, w, t, k, a, x) && 0.0 <= a <= 1.0 <= k && 0.0 <= x <= 1.0
    ensures 0.0 <= w <= v
  {
    Times(t, a);
    assert t * (k - a) == v - t * a;
    Times(t, k - a);
    ProductOrder(t * (k - a), x, t * (k - a), 1.0);
  }

  /** For every exponent n times the n-th term is at most the exponent. */
  lemma {:induction false} WeightAtMost(a: real, x: real, n: nat)
    requires 0.0 <= a <= 1.0 && Magnitude(x) <= 1.0 && n >= 1
    ensures 0.0 <= Weight(a, x, n) <= a
  {
    hide Weight, Follows, Term;
    if n == 1 {
      FirstWeight(a, x);
      ProductOrder(a, Magnitude(x), a, 1.0);
    } else {
      WeightAtMost(a, x, n - 1);
      NextWeight(a, x, n - 1);
      WeightFalls(Weight(a, x, n - 1), Weight(a, x, n), Magnitude(Term(a, x, n - 1)), (n - 1) as real, a, Magnitude(x));
    }
  }

  // ----- from exponent 1/2 on the n-th term is at most of the order n^(-3/2) -----

  ghost function Spread(w: real, k: real): real {
    w * w * (k - 0.5)
  }

  lemma SpreadFalls(v: real, w: real, t: real, k: real, a: real, x: real)
    requires Follows(v, w, t, k, a, x) && 0.5 <= a <= 1.0 <= k && 0.0 <= x <= 1.0
    ensures Spread(w, k + 1.0) <= Spread(v, k)
  {
    hide Spread;
    SmallerFactor(w, t, k, a, x);
    SpreadMonotone(w, t * (k - 0.5), k + 1.0);
    SpreadStep(t, k, t * (k - 0.5), v);
  }

  lemma SmallerFactor(w: real, t: real, k: real, a: real, x: real)
    requires t >= 0.0 && w == t * (k - a) * x && 0.5 <= a <= 1.0 <= k && 0.0 <= x <= 1.0
    ensures 0.0 <= w <= t * (k - 0.5)
  {
    ProductOrder(t, k - a, t, k - 0.5);
    ProductOrder(t * (k - a), x, t * (k - 0.5), 1.0);
  }

  lemma SpreadMonotone(w: real, q: real, k: real)
    requires 0.0 <= w <= q && k >= 0.5
    ensures Spread(w, k) <= Spread(q, k)
  {
    ProductOrder(w, w, q, q);
    ProductOrder(w * w, k - 0.5, q * q, k - 0.5);
  }

  lemma SpreadStep(t: real, k: real, q: real, v: real)
    requires t >= 0.0 && k >= 1.0 && q == t * (k - 0.5) && v == t * k
    ensures Spread(q, k + 1.0) <= Spread(v, k)
  {
    var s, d := t * t, k - 0.5;
    Times(t, t);
    Times(s, d);
    assert q * q * (k + 0.5) == (s * d) * (d * (k + 0.5));
    assert v * v * d == (s * d) * (k * k);
    assert d * (k + 0.5) == k * k - 0.25;
    assert (s * d) * (k * k - 0.25) == (s * d) * (k * k) - 0.25 * (s * d);
  }

  lemma SecondWeight(a: real, x: real)
    requires 0.5 <= a <= 1.0 && Magnitude(x) <= 1.0
    ensures Spread(Weight(a, x, 2), 2.0) <= 0.1
  {
    hide Weight, Term, Magnitude;
    FirstWeight(a, x);
    NextWeight(a, x, 1);
    var v, w, t, y := Weight(a, x, 1), Weight(a, x, 2), Magnitude(Term(a, x, 1)), Magnitude(x);
    ProductOrder(a, y, a, 1.0);
    assert v == t;
    ProductOrder(t, 1.0 - a, a, 1.0 - a);
    ProductOrder(t * (1.0 - a), y, a * (1.0 - a), 1.0);
    Times(a - 0.5, a - 0.5);
    assert (a - 0.5) * (a - 0.5) == a * a - a + 0.25;
    ProductOrder(w, w, 0.25, 0.25);
  }

  lemma {:induction false} SpreadAtMost(a: real, x: real, n: nat)
    requires 0.5 <= a <= 1.0 && Magnitude(x) <= 1.0 && n >= 2
    ensures Spread(Weight(a, x, n), n as real) <= 0.1
  {
    hide Weight, Follows, Term, Spread;
    if n == 2 {
      SecondWeight(a, x);
    } else {
      SpreadAtMost(a, x, n - 1);
      NextWeight(a, x, n - 1);
      SpreadFalls(Weight(a, x, n - 1), Weight(a, x, n), Magnitude(Term(a, x, n - 1)), (n - 1) as real, a, Magnitude(x));
      assert (n - 1) as real + 1.0 == n as real;
    }
  }

  lemma SpreadSmall(w: real)
    requires w >= 0.0 && Spread(w, 149_999.0) <= 0.1
    ensures w < 0.001
  {
    if w >= 0.001 {
      ProductOrder(0.001, 0.001, w, w);
      assert false;
    }
  }

  // ----- for x < 1 the weights decay like its powers, whatever the exponent -----

  lemma {:induction false} WeightDecays(a: real, x: real, n: nat)
    requires 0.0 <= a <= 1.0 && Magnitude(x) <= 1.0 && n >= 1
    ensures 0.0 <= Weight(a, x, n) <= a * RealPower(Magnitude(x), n)
  {
    hide Weight, Follows, Term, RealPower;
    var y := Magnitude(x);
    if n == 1 {
      FirstWeight(a, x);
      PowerOfOne(y);
      Times(a, y);
    } else {
      WeightDecays(a, x, n - 1);
      NextWeight(a, x, n - 1);
      var v, w, p := Weight(a, x, n - 1), Weight(a, x, n), RealPower(y, n - 1);
      WeightScales(v, w, Magnitude(Term(a, x, n - 1)), (n - 1) as real, a, y);
      ProductOrder(v, y, a * p, y);
      NextPowerExact(y, n - 1);
      assert (a * p) * y == a * (p * y);
    }
  }

  lemma WeightScales(v: real, w: real, t: real, k: real, a: real, x: real)
    requires Follows(v, w, t, k, a, x) && 0.0 <= a <= 1.0 <= k && 0.0 <= x <= 1.0
    ensures 0.0 <= w <= v * x
  {
    Times(t, a);
    assert t * (k - a) == v - t * a;
    Times(t, k - a);
    ProductOrder(t * (k - a), x, v, x);
  }

  // ----- at x = 1 the weight is at least of the order n^(-b), for b = 1/q or 2/5 above the exponent -----

  /** b is a rate for q and p if (1 - b u)^q >= (1 - u)^p: 1/q for p = 1, and 2/5. */
  ghost predicate Rate(b: real, q: nat, p: nat) {
    0.0 < b <= 1.0 && ((p == 1 && q as real * b == 1.0) || (q == 5 && p == 2 && b == 0.4))
  }

  lemma RateHolds(b: real, q: nat, p: nat, u: real)
    requires Rate(b, q, p) && 0.0 <= u <= 0.5
    ensures RealPower(1.0 - b * u, q) >= RealPower(1.0 - u, p) >= 0.0
  {
    hide RealPower;
    if p == 1 {
      ProductOrder(b, u, 1.0, u);
      BernoulliReal(b * u, q);
      assert q as real * (b * u) == (q as real * b) * u;
      PowerOfOne(1.0 - u);
    } else {
      FifthAndSecond(u);
    }
  }

  lemma FifthAndSecond(u: real)
    requires 0.0 <= u <= 0.5
    ensures RealPower(1.0 - 0.4 * u, 5) >= RealPower(1.0 - u, 2) >= 0.0
  {
    hide RealPower;
    var x, y := 1.0 - 0.4 * u, 1.0 - u;
    PowerOfOne(x);
    PowerOfOne(y);
    PowerDoubles(x, 1, 0);
    PowerDoubles(x, 2, 1);
    PowerDoubles(y, 1, 0);
    var s := u * u;
    Times(u, u);
    Times(s, u);
    Times(s, 0.5 - u);
    var z := 1.0 - 0.8 * u + 0.16 * s;
    assert x * x == z;
    assert z * z == 1.0 - 1.6 * u + 0.96 * s - 0.256 * (s * u) + 0.0256 * (s * s);
    assert z * z * x == 1.0 - 2.0 * u + 1.6 * s - 0.64 * (s * u) + 0.128 * (s * s) - 0.01024 * (s * s * u);
    assert y * y == 1.0 - 2.0 * u + s;
    Times(s, s);
    Times(s * s, 1.0 - u);
    Times(y, y);
  }

  /** Keeps from falling while the weight falls no faster than at the rate p/q. */
  ghost function Store(w: real, k: real, q: nat, p: nat): real {
    RealPower(w, q) * RealPower(k, p)
  }

  lemma StoreIs(w: real, k: real, q: nat, p: nat)
    ensures Store(w, k, q, p) == RealPower(w, q) * RealPower(k, p)
  {
  }

  lemma SlowFactor(v: real, w: real, t: real, k: real, a: real, x: real, b: real)
    requires Follows(v, w, t, k, a, x) && 0.0 <= a <= 1.0 && k >= 2.0 && 0.0 <= x <= 1.0 && 0.0 <= b <= 1.0
    requires a + k * (1.0 - x) <= b
    ensures 0.0 <= v * (1.0 - b * (1.0 / k)) <= w && v >= 0.0
  {
    Times(t, k);
    Times(a, 1.0 - x);
    assert (k - a) * x == k - a - k * (1.0 - x) + a * (1.0 - x);
    ProductOrder(t, k - b, t, (k - a) * x);
    assert t * ((k - a) * x) == t * (k - a) * x;
    var u := 1.0 / k;
    assert k * u == 1.0;
    assert v * (1.0 - b * u) == t * k - t * b * (k * u) == t * (k - b);
  }

  lemma StoreKeeps(v: real, w: real, k: real, b: real, q: nat, p: nat)
    requires Rate(b, q, p) && k >= 2.0 && v >= 0.0 && 0.0 <= v * (1.0 - b * (1.0 / k)) <= w
    ensures Store(w, k, q, p) >= Store(v, k - 1.0, q, p)
  {
    hide Store, RealPower, Rate;
    var u := 1.0 / k;
    Reciprocal(k);
    RateHolds(b, q, p, u);
    var f, l := 1.0 - b * u, 1.0 - u;
    PowerMonotone(v * f, w, q);
    PowerNonNegative(v, q);
    PowerNonNegative(k, p);
    PowerOfProduct(v, f, q);
    PowerOfProduct(l, k, p);
    StoreIs(w, k, q, p);
    StoreIs(v, l * k, q, p);
    assert l * k == k - 1.0;
    StoreProducts(RealPower(v, q), RealPower(f, q), RealPower(l, p), RealPower(k, p), RealPower(w, q),
                  RealPower(l * k, p), Store(v, k - 1.0, q, p), Store(w, k, q, p));
  }

  lemma Reciprocal(k: real)
    requires k >= 2.0
    ensures 0.0 <= 1.0 / k <= 0.5 && (1.0 - 1.0 / k) * k == k - 1.0
  {
    var u := 1.0 / k;
    assert k * u == 1.0;
    CancelFactor(0.0, u, k);
    CancelFactor(u, 0.5, k);
  }

  lemma StoreProducts(v: real, f: real, u: real, k: real, w: real, l: real, before: real, after: real)
    requires v >= 0.0 && k >= 0.0 && 0.0 <= u <= f && v * f <= w && l == u * k
    requires before == v * l && after == w * k
    ensures before <= after
  {
    ProductOrder(v, u, v, f);
    ProductOrder(v * u, k, w, k);
    assert v * (u * k) == (v * u) * k;
  }

  lemma {:induction false} StoreFrom(a: real, x: real, b: real, q: nat, p: nat, n: nat)
    requires Rate(b, q, p) && 0.0 <= a <= 1.0 && 0.0 <= x <= 1.0 && n >= 2 && a + n as real * (1.0 - x) <= b
    ensures Store(Weight(a, x, n), (n - 1) as real, q, p) >= Store(Weight(a, x, 2), 1.0, q, p)
  {
    hide Weight, Follows, Term, Store, Rate;
    if n > 2 {
      Times(1.0, 1.0 - x);
      assert n as real * (1.0 - x) == (n - 1) as real * (1.0 - x) + (1.0 - x);
      StoreFrom(a, x, b, q, p, n - 1);
      NextWeight(a, x, n - 1);
      var v, w, k := Weight(a, x, n - 1), Weight(a, x, n), (n - 1) as real;
      RateRange(b, q, p);
      SlowFactor(v, w, Magnitude(Term(a, x, n - 1)), k, a, x, b);
      StoreKeeps(v, w, k, b, q, p);
      assert k - 1.0 == (n - 2) as real;
    }
  }

  lemma RateRange(b: real, q: nat, p: nat)
    ensures Rate(b, q, p) ==> 0.0 <= b <= 1.0
  {
  }

  lemma PowerTo500()
    ensures 0.0 <= RealPower(0.97, 500) <= 0.00000024365
  {
    hide RealPower;
    var r := 0.97;
    PowerOfOne(r);
    PowerBelow(r, 1, r, 1, 0.91268);
    PowerBelow(r, 3, 0.91268, 1, 0.80800);
    PowerBelow(r, 7, 0.80800, 1, 0.63328);
    PowerBelow(r, 15, 0.63328, 1, 0.38902);
    PowerBelow(r, 31, 0.38902, 0, 0.15134);
    PowerBelow(r, 62, 0.15134, 1, 0.022217);
    PowerBelow(r, 125, 0.022217, 0, 0.00049360);
    PowerBelow(r, 250, 0.00049360, 0, 0.00000024365);
  }

  lemma PowerTo100()
    ensures 0.0 <= RealPower(0.84, 100) <= 0.000000026811
  {
    hide RealPower;
    var r := 0.84;
    PowerOfOne(r);
    PowerBelow(r, 1, r, 1, 0.59271);
    PowerBelow(r, 3, 0.59271, 0, 0.35131);
    PowerBelow(r, 6, 0.35131, 0, 0.12342);
    PowerBelow(r, 12, 0.12342, 1, 0.012796);
    PowerBelow(r, 25, 0.012796, 0, 0.00016374);
    PowerBelow(r, 50, 0.00016374, 0, 0.000000026811);
  }

  lemma PowerTo8()
    ensures 0.0 <= RealPower(0.16, 8) <= 0.00000042950
  {
    hide RealPower;
    var r := 0.16;
    PowerOfOne(r);
    PowerBelow(r, 1, r, 0, 0.025600);
    PowerBelow(r, 2, 0.025600, 0, 0.00065536);
    PowerBelow(r, 4, 0.00065536, 0, 0.00000042950);
  }

  lemma PowerTo3()
    ensures 0.0 <= RealPower(0.017, 3) <= 0.0000049130
  {
    hide RealPower;
    var r := 0.017;
    PowerOfOne(r);
    PowerBelow(r, 1, r, 1, 0.0000049130);
  }

  lemma PowerTo5()
    ensures 0.0 <= RealPower(0.0069, 5) <= 0.000000000015641
  {
    hide RealPower;
    var r := 0.0069;
    PowerOfOne(r);
    PowerBelow(r, 1, r, 0, 0.000047610);
    PowerBelow(r, 2, 0.000047610, 1, 0.000000000015641);
  }

  /** The last weight is above what the precision asks, if r bounds the share of the second one that this is. */
  lemma StaysAbove(a: real, x: real, b: real, q: nat, p: nat, r: real)
    requires Rate(b, q, p) && 0.0 <= a <= 1.0 && 0.0 <= x <= 1.0 && a + LIMIT as real * (1.0 - x) <= b
    requires 0.00150001 <= r * Weight(a, x, 2) && 0.0 <= r && q >= 1
    requires Store(r, 149_999.0, q, p) < 1.0
    ensures Weight(a, x, LIMIT) >= 0.00150001
  {
    hide Weight, Store, RealPower, Rate;
    StoreFrom(a, x, b, q, p, LIMIT);
    WeightAtMost(a, x, 2);
    WeightAtMost(a, x, LIMIT);
    assert (LIMIT - 1) as real == 149_999.0;
    EndsAbove(Weight(a, x, LIMIT), Weight(a, x, 2), r, 149_999.0, q, p);
  }

  lemma EndsAbove(w: real, s: real, r: real, k: real, q: nat, p: nat)
    requires w >= 0.0 && s >= 0.0 && r >= 0.0 && k >= 0.0 && 0.00150001 <= r * s
    requires Store(w, k, q, p) >= Store(s, 1.0, q, p) && Store(r, k, q, p) < 1.0
    ensures w >= 0.00150001
  {
    hide Store, RealPower;
    if w < 0.00150001 {
      PowerMonotone(w, r * s, q);
      PowerOfProduct(r, s, q);
      PositiveFactors(r, s);
      PowerPositive(s, q);
      PowerOfUnit(p);
      PowerNonNegative(k, p);
      StoreIs(w, k, q, p);
      StoreIs(s, 1.0, q, p);
      StoreIs(r, k, q, p);
      ShareOf(RealPower(w, q), RealPower(r, q), RealPower(s, q), RealPower(k, p), Store(r, k, q, p), Store(w, k, q, p));
    }
  }

  lemma PositiveFactors(r: real, s: real)
    requires r >= 0.0 && s >= 0.0 && r * s > 0.0
    ensures s > 0.0
  {
  }

  lemma ShareOf(w: real, r: real, s: real, c: real, share: real, part: real)
    requires 0.0 <= w <= r * s && s > 0.0 && c >= 0.0 && share == r * c < 1.0 && part == w * c
    ensures part < s
  {
    ProductOrder(w, c, r * s, c);
    RestOfShare(r, s, c);
    Below(part, (r * s) * c, (1.0 - r * c) * s, s);
  }

  lemma RestOfShare(r: real, s: real, c: real)
    requires s > 0.0 && r * c < 1.0
    ensures (r * s) * c == s - (1.0 - r * c) * s && (1.0 - r * c) * s > 0.0
  {
    var rest := 1.0 - r * c;
    assert rest * s > 0.0;
  }

  lemma Below(a: real, b: real, gap: real, s: real)
    requires a <= b && b == s - gap && gap > 0.0
    ensures a < s
  {
  }

  lemma SecondWeightIs(a: real, x: real)
    requires 0.0 <= a <= 1.0 && x >= 0.0
    ensures Weight(a, x, 2) == a * (1.0 - a) * (x * x)
  {
    hide Weight, Term;
    FirstWeight(a, x);
    NextWeight(a, x, 1);
    var t := Magnitude(Term(a, x, 1));
    assert t == a * x;
    assert (a * x) * (1.0 - a) * x == a * (1.0 - a) * (x * x);
  }

  /** a (1 - a) grows up to 1/2. */
  lemma LowerEnd(a: real, x: real, s: real, low: real)
    requires 0.0 <= low <= a <= 0.5 && x == 0.999_999_999_999_999_999 && s == a * (1.0 - a) * (x * x)
    ensures s >= low * (1.0 - low) * (x * x)
  {
    Times(a - low, 1.0 - a - low);
    assert a * (1.0 - a) - low * (1.0 - low) == (a - low) * (1.0 - a - low);
    Times(a * (1.0 - a) - low * (1.0 - low), x * x);
  }
}
