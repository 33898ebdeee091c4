/** The exponential by range reduction and a Taylor series (utils/pow_approx.go). */
module Exponential {
  import opened Basics
  import opened Decimal

  const LN2 := 693_147_180_559_945_309
  const INVERSE_LN2 := 1_442_695_040_888_963_407
  const EULER := 2_718_281_828_459_045_235
  const PRECISION := 10_000_000_000
  const LIMIT := 150_000

  /** The multiple of ln 2 taken out of x, and what remains. */
  function Quotient(x: int): int {
    Truncate(Mul(x, INVERSE_LN2))
  }

  function Remainder(x: int): int {
    x - Mul(Quotient(x) * ONE, LN2)
  }

  function ExpTerm(y: int, n: nat, term: int): int
    requires n >= 1
  {
    QuoInt(Mul(term, y), n)
  }

  /** The loop from its n-th pass on; None when the pass limit is exceeded. */
  function ExpSeries(y: int, n: nat, term: int, sum: int, limit: nat): Option<int>
    requires 1 <= n <= limit + 1
    decreases limit + 1 - n, y
  {
    var t := ExpTerm(y, n, term);
    if Abs(t) <= PRECISION then Some(sum + t)
    else if n > limit then None
    else ExpSeries(y, n + 1, t, sum + t, limit)
  }

  function TwoPower(k: int): int {
    if k > 0 then Power(TWO, k)
    else if k < 0 then PowerOfTwo(-k); Quo(ONE, Power(TWO, -k))
    else ONE
  }

  function Exp(x: int): Option<int> {
    if x == 0 then Some(ONE)
    else if x == ONE then Some(EULER)
    else if x <= -42 * ONE then Some(0)
    else
      match ExpSeries(Remainder(x), 1, ONE, ONE, LIMIT)
      case None => None
      case Some(e) => Some(Mul(e, TwoPower(Quotient(x))))
  }

  // ----- range reduction -----

  /** What is left after range reduction is never negative, for any x >= 0. */
  lemma ReductionNonNegative(x: nat)
    ensures Quotient(x) >= 0 && Remainder(x) == x - Quotient(x) * LN2 >= 0
  {
  }

  /** ... and it stays close to ln 2, below 0.7, for any x up to 10^15. */
  lemma ReductionSmall(x: nat)
    requires x <= 1_000_000_000_000_000 * ONE
    ensures 0 <= Remainder(x) <= 700_000_000_000_000_000
  {
  }

  lemma ReductionOdd(x: int)
    ensures Quotient(-x) == -Quotient(x) && Remainder(-x) == -Remainder(x)
  {
    MulNegate(x, INVERSE_LN2);
    var k := Quotient(x);
    MulExact(k, LN2);
    MulExact(-k, LN2);
  }

  // ----- the series -----

  lemma ExpTermShrinks(y: int, n: nat, term: int)
    requires n >= 1 && -ONE <= y <= 0
    ensures term >= 0 ==> -term <= ExpTerm(y, n, term) <= 0
    ensures term <= 0 ==> 0 <= ExpTerm(y, n, term) <= -term
  {
    hide Mul, TruncDiv;
    MulFraction(term, -y);
    MulNegate(term, -y);
    TruncDivShrinks(Mul(term, y), n);
  }

  lemma ExpTermNonNegative(y: int, n: nat, term: int)
    requires n >= 1 && y >= 0 && term >= 0
    ensures ExpTerm(y, n, term) >= 0
  {
    hide TruncDiv, Chop;
    ScaleOrder(term, 0, y);
    ChopNearest(term * y);
    TruncDivShrinks(Mul(term, y), n);
  }

  lemma {:induction false} SeriesGrows(y: int, n: nat, term: int, sum: int, limit: nat)
    requires 1 <= n <= limit + 1 && y >= 0 && term >= 0
    ensures ExpSeries(y, n, term, sum, limit).Some? ==>
              ExpSeries(y, n, term, sum, limit).value >= sum + ExpTerm(y, n, term) >= sum
    decreases limit + 1 - n
  {
    hide ExpTerm;
    ExpTermNonNegative(y, n, term);
    var t := ExpTerm(y, n, term);
    if Abs(t) > PRECISION && n <= limit {
      SeriesGrows(y, n + 1, t, sum + t, limit);
    }
  }

  /** For -1 <= y <= 0 the terms alternate and never grow, so the sum stays
      between the last partial sum and that sum without its last term. */
  lemma {:induction false} SeriesAlternates(y: int, n: nat, term: int, sum: int, limit: nat)
    requires 1 <= n <= limit + 1 && -ONE <= y <= 0
    ensures var r := ExpSeries(y, n, term, sum, limit);
            r.Some? ==> (term >= 0 ==> sum - term <= r.value <= sum)
                        && (term <= 0 ==> sum <= r.value <= sum - term)
    decreases limit + 1 - n
  {
    hide ExpTerm;
    ExpTermShrinks(y, n, term);
    var t := ExpTerm(y, n, term);
    if Abs(t) > PRECISION && n <= limit {
      SeriesAlternates(y, n + 1, t, sum + t, limit);
    }
  }

  lemma FirstTerm(y: int)
    ensures ExpTerm(y, 1, ONE) == y
  {
  }

  lemma MulMagnitude(t: int, y: int, bound: int)
    requires Abs(y) <= bound
    ensures 2 * ONE * Abs(Mul(t, y)) <= 2 * bound * Abs(t) + ONE
  {
    hide Chop;
    ProductBound(t, y, bound);
    ChopNearest(t * y);
    NearBounded(t * y, bound * Abs(t), Mul(t, y));
  }

  lemma ProductBound(t: int, y: int, bound: int)
    requires -bound <= y <= bound
    ensures -(bound * Abs(t)) <= t * y <= bound * Abs(t)
  {
    ScaleOrder(t, -bound, y);
    ScaleOrder(t, y, bound);
    assert t * -bound == -(t * bound);
  }

  lemma NearBounded(p: int, b: int, q: int)
    requires -b <= p <= b && -ONE <= 2 * (q * ONE - p) <= ONE
    ensures 2 * ONE * Abs(q) <= 2 * b + ONE
  {
  }

  lemma ExpTermHalves(y: int, n: nat, term: int)
    requires n >= 2 && Abs(y) <= 700_000_000_000_000_000 && Abs(term) > PRECISION
    ensures 2 * Abs(ExpTerm(y, n, term)) <= Abs(term)
  {
    hide Mul, TruncDiv;
    MulMagnitude(term, y, 700_000_000_000_000_000);
    TruncDivShrinks(Mul(term, y), n);
  }

  lemma HalvingBudget(t: nat, term: nat, j: nat)
    requires 2 * t <= term
    ensures t * Pow2(j + 1) <= term * Pow2(j)
  {
  }

  lemma BudgetRunsOut(t: int, j: nat)
    requires t > 8_000_000_000 && t * Pow2(j) <= ONE
    ensures j < 27
  {
    hide Pow2;
    Pow2Values();
    if j >= 27 {
      Pow2Monotone(27, j);
      ScaleOrder(t, 134_217_728, Pow2(j));
      assert false;
    }
  }

  /** Terms halve, so 28 passes always suffice and the limit never bites. */
  lemma {:induction false} SeriesConverges(y: int, n: nat, term: int, sum: int, limit: nat)
    requires 2 <= n <= 28 <= limit + 1 && Abs(y) <= 700_000_000_000_000_000
    requires Abs(term) > PRECISION && Abs(term) * Pow2(n - 2) <= ONE
    ensures ExpSeries(y, n, term, sum, limit).Some?
    ensures ExpSeries(y, n, term, sum, limit) == ExpSeries(y, n, term, sum, 27)
    decreases 28 - n
  {
    hide ExpTerm;
    ExpTermHalves(y, n, term);
    var t := ExpTerm(y, n, term);
    assert Abs(t) * Pow2(n - 1) <= ONE by {
      HalvingBudget(Abs(t), Abs(term), n - 2);
    }
    if Abs(t) > PRECISION {
      BudgetRunsOut(Abs(t), n - 1);
      SeriesConverges(y, n + 1, t, sum + t, limit);
    }
  }

  // ----- the results -----

  lemma ExpAbove(x: int)
    requires x > 0 && x != ONE && Exp(x).Some?
    ensures Exp(x).value >= ONE + x
  {
    hide Quotient, Remainder, ExpTerm, Mul, Power;
    ReductionNonNegative(x);
    var k, y := Quotient(x), Remainder(x);
    SeriesGrows(y, 1, ONE, ONE, LIMIT);
    FirstTerm(y);
    var e := ExpSeries(y, 1, ONE, ONE, LIMIT).value;
    assert e >= ONE + y;
    PowerOfTwo(k);
    MulExact(Pow2(k), e);
    assert Exp(x).value == Pow2(k) * e;
    DoublingBeatsLinear(Pow2(k), k, y, e);
  }

  lemma DoublingBeatsLinear(p: int, k: int, y: int, e: int)
    requires p >= k + 1 >= 1 && y >= 0 && e >= ONE + y
    ensures p * e >= ONE + y + k * LN2
  {
    ScaleOrder(p, ONE + y, e);
    ScaleOrder(ONE + y, k + 1, p);
    assert (ONE + y) * (k + 1) == ONE + y + k * (ONE + y);
    ScaleOrder(k, LN2, ONE + y);
  }

  /** 2^k: exact for k >= 0, and to half an ulp and the guard digits below. */
  lemma TwoPowerIs(k: int)
    requires k >= -60
    ensures k >= 0 ==> TwoPower(k) == Pow2(k) * ONE
    ensures k < 0 ==> 2 * ONE * Abs(TwoPower(k) * Pow2(-k) - ONE) <= (ONE + 2) * Pow2(-k)
  {
    hide Chop;
    if k > 0 {
      PowerOfTwo(k);
    } else if k < 0 {
      var p := Pow2(-k);
      var q := ReciprocalQuotient(-k);
      ChopNearest(q);
      NearReciprocal(p, q, ONE * ONE - p * q, Chop(q));
    }
  }

  lemma ReciprocalQuotient(k: int) returns (q: int)
    requires k >= 1
    ensures q == (ONE * ONE) / Pow2(k) && TwoPower(-k) == Chop(q)
    ensures 0 <= ONE * ONE - Pow2(k) * q < Pow2(k)
  {
    hide Chop;
    PowerOfTwo(k);
    var p := Pow2(k);
    q := (ONE * ONE) / p;
    DivCancel(ONE * ONE, p, ONE);
  }

  lemma NearReciprocal(p: int, q: int, r: int, t: int)
    requires p >= 1 && 0 <= r < p && p * q + r == ONE * ONE && -ONE <= 2 * (t * ONE - q) <= ONE
    ensures 2 * ONE * Abs(t * p - ONE) <= (ONE + 2) * p
  {
    var d := t * ONE - q;
    assert (t * p - ONE) * ONE == d * p - r by {
      assert (t * p) * ONE == (t * ONE) * p;
      assert (d + q) * p == d * p + p * q;
    }
    ScaleOrder(p, -ONE, 2 * d);
    ScaleOrder(p, 2 * d, ONE);
  }

  /** The rounded 2^-k does not vanish for the k that occur. */
  lemma TwoPowerNegative(k: int)
    requires 1 <= k <= 60
    ensures 1 <= TwoPower(-k) <= HALF
    ensures k == 1 ==> TwoPower(-k) == HALF
    ensures k <= 59 ==> TwoPower(-k) >= 2
  {
    hide Chop;
    var p := Pow2(k);
    var q := ReciprocalQuotient(k);
    Pow2Values();
    Pow2Monotone(1, k);
    Pow2Monotone(k, 60);
    if k <= 59 {
      Pow2Monotone(k, 59);
    }
    ChopNearest(q);
    DivOrder(ONE * ONE, 2, p);
    ChopAtMost(q, HALF);
    if k <= 59 {
      DivOrder(ONE * ONE, p, Pow2(59));
    } else {
      assert k == 60;
    }
  }

  /** r is e times 2^k: exactly for k >= 0, to an ulp below. */
  predicate TimesTwoTo(r: int, e: int, k: int) {
    if k >= 0 then r == e * Pow2(k)
    else Abs(r * Pow2(-k) - e) * ONE <= (ONE + 1) * Pow2(-k)
  }

  lemma ScalesByTwo(e: int, k: int)
    requires k >= -60 && (k < 0 ==> 0 <= e <= ONE)
    ensures TimesTwoTo(Mul(e, TwoPower(k)), e, k)
  {
    hide Chop, TwoPower;
    TwoPowerIs(k);
    if k >= 0 {
      MulExact(Pow2(k), e);
      assert Mul(e, Pow2(k) * ONE) == Pow2(k) * e;
    } else {
      var t, p := TwoPower(k), Pow2(-k);
      ChopNearest(e * t);
      ProductWithReciprocal(e, t, p, Mul(e, t));
    }
  }

  lemma ProductWithReciprocal(e: int, t: int, p: int, r: int)
    requires p >= 1 && 0 <= e <= ONE && 2 * ONE * Abs(t * p - ONE) <= (ONE + 2) * p
    requires -ONE <= 2 * (r * ONE - e * t) <= ONE
    ensures Abs(r * p - e) * ONE <= (ONE + 1) * p
  {
    var d, g := 2 * (r * ONE - e * t), t * p - ONE;
    TwoErrors(e, t, p, r);
    ScaleOrder(p, -ONE, d);
    ScaleOrder(p, d, ONE);
    ShareOfError(e, g);
    SumOfTwo(r * p - e, d * p, e * g, Abs(g), p);
  }

  lemma TwoErrors(e: int, t: int, p: int, r: int)
    ensures 2 * (r * p - e) * ONE == 2 * (r * ONE - e * t) * p + 2 * (e * (t * p - ONE))
  {
    assert e * (t * p) == (e * t) * p;
    assert (r * ONE - e * t) * p == (r * p) * ONE - (e * t) * p;
  }

  lemma ShareOfError(e: int, g: int)
    requires 0 <= e <= ONE
    ensures -ONE * Abs(g) <= e * g <= ONE * Abs(g)
  {
    ScaleOrder(g, 0, e);
    ScaleOrder(g, e, ONE);
  }

  lemma SumOfTwo(x: int, u: int, v: int, g: int, p: int)
    requires 2 * x * ONE == u + 2 * v && p * (-ONE) <= u <= p * ONE && -ONE * g <= v <= ONE * g
    requires 2 * ONE * g <= (ONE + 2) * p
    ensures Abs(x) * ONE <= (ONE + 1) * p
  {
  }

  lemma NegativeReduction(x: int)
    requires -42 * ONE < x < 0
    ensures -60 <= Quotient(x) <= 0 && -700_000_000_000_000_000 <= Remainder(x) <= 0
    ensures x == Quotient(x) * LN2 + Remainder(x)
  {
    hide Quotient, Remainder;
    ReductionOdd(x);
    ReductionNonNegative(-x);
    ReductionSmall(-x);
  }

  lemma ScaledDown(e: int, k: int, p: int, x: int)
    requires 1 <= k <= 60 && 0 <= e <= ONE && 1 <= p <= HALF
    requires k == 1 ==> p == HALF
    requires k <= 59 ==> p >= 2
    requires -42 * ONE < x && -700_000_000_000_000_000 <= x + k * LN2 <= 0 && e >= ONE + (x + k * LN2)
    ensures 1 <= Mul(e, p) <= ONE && Mul(e, p) >= ONE + x
  {
    hide Chop;
    var n := e * p;
    ChopNearest(n);
    ScaleOrder(e, p, HALF);
    ChopAtMost(n, ONE);
    if k <= 59 {
      ScaleOrder(e, 2, p);
    } else {
      ScaleOrder(e, 1, p);
    }
    assert 2 * n > ONE;
  }

  lemma ExpBelow(x: int)
    requires -42 * ONE < x < 0 && Exp(x).Some?
    ensures 1 <= Exp(x).value <= ONE && Exp(x).value >= ONE + x
  {
    hide Quotient, Remainder, ExpTerm, Mul, Power, Quo;
    NegativeReduction(x);
    var k, y := Quotient(x), Remainder(x);
    FirstTerm(y);
    var e := ExpSeries(y, 1, ONE, ONE, LIMIT).value;
    assert ONE + y <= e <= ONE by {
      if Abs(y) > PRECISION {
        SeriesAlternates(y, 2, y, ONE + y, LIMIT);
      }
    }
    if k == 0 {
      MulExact(1, e);
    } else {
      TwoPowerNegative(-k);
      ScaledDown(e, -k, TwoPower(k), x);
    }
  }

  /**
   Wherever the routine returns, its value is at least 1 + x with no slack, at
   most 1 for x <= 0, and zero exactly from -42 downward.
   */
  lemma ExpBounds(x: int)
    requires Exp(x).Some?
    ensures Exp(x).value >= ONE + x
    ensures Exp(x).value >= 0
    ensures x <= 0 ==> Exp(x).value <= ONE
    ensures Exp(x).value == 0 <==> x <= -42 * ONE
  {
    if x > 0 && x != ONE {
      ExpAbove(x);
    } else if -42 * ONE < x < 0 {
      ExpBelow(x);
    }
  }

  /** For x up to 10^15 the routine returns, and after at most 28 passes. */
  lemma ExpReturns(x: int)
    requires -42 * ONE < x <= 1_000_000_000_000_000 * ONE && x != 0 && x != ONE
    ensures Exp(x).Some?
    ensures ExpSeries(Remainder(x), 1, ONE, ONE, LIMIT) == ExpSeries(Remainder(x), 1, ONE, ONE, 27)
  {
    hide Quotient, Remainder, ExpTerm, Mul, Power;
    if x > 0 {
      ReductionSmall(x);
    } else {
      NegativeReduction(x);
    }
    var y := Remainder(x);
    FirstTerm(y);
    if Abs(y) > PRECISION {
      SeriesConverges(y, 2, y, ONE + y, LIMIT);
    }
  }

  // ----- the loop -----

  /** computeExp. */
  method ComputeExp(x: int) returns (r: Option<int>)
    ensures r == Exp(x)
  {
    hide Mul, TruncDiv, Power, Chop;
    if x == 0 {
      return Some(ONE);
    }
    if x == ONE {
      return Some(EULER);
    }
    if x <= -42 * ONE {
      return Some(0);
    }
    var k := Truncate(Mul(x, INVERSE_LN2));
    var y := x - Mul(k * ONE, LN2);
    var expY, term := ONE, ONE;
    var n := 1;
    while true
      invariant 1 <= n <= LIMIT + 1
      invariant ExpSeries(y, n, term, expY, LIMIT) == ExpSeries(y, 1, ONE, ONE, LIMIT)
      decreases LIMIT + 1 - n
    {
      term := QuoInt(Mul(term, y), n);
      expY := expY + term;
      if Abs(term) <= PRECISION {
        break;
      }
      if n > LIMIT {
        return None;
      }
      n := n + 1;
    }
    var twoPowK := ONE;
    if k > 0 {
      twoPowK := Power(TWO, k);
    } else if k < 0 {
      PowerOfTwo(-k);
      twoPowK := Quo(ONE, Power(TWO, -k));
    }
    return Some(Mul(expY, twoPowK));
  }
}
