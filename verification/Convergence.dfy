/**
 For which arguments the two series loops that can run into their pass limit
 return (utils/pow_approx.go): below a threshold, which is located.
 */
module Convergence {
  import opened Basics
  import opened Decimal
  import opened RealDecimal
  import opened RealPowers
  import opened Exponential
  import opened Logarithm
  import opened SeriesAccuracy
  import opened BinomialSeries
  import opened BinomialWeights
  import opened Maclaurin

  // ----- the logarithm: smaller arguments return too -----

  lemma MulMonotone(a: nat, b: int, c: nat, d: int)
    requires a <= c && 0 <= b <= d
    ensures 0 <= Mul(a, b) <= Mul(c, d)
  {
    hide Chop;
    ScaleOrder(a, b, d);
    ScaleOrder(d, a, c);
    ScaleOrder(a, 0, b);
    assert d * a == a * d && d * c == c * d;
    ChopMonotone(a * b, c * d);
    ChopNearest(a * b);
  }

  /** Where the loop returns, it also returns for a smaller y and a smaller power. */
  lemma {:induction false} LnMonotone(y: int, z: int, n: nat, p: nat, q: nat, sum: int, sum': int, limit: nat)
    requires 1 <= n <= limit + 1 && 0 <= y <= z && p <= q
    requires LnSeries(z, n, q, sum', limit).Some?
    ensures LnSeries(y, n, p, sum, limit).Some?
    decreases limit + 1 - n
  {
    hide LnTerm, Mul;
    LnTermMagnitude(n, p);
    LnTermMagnitude(n, q);
    DivIncreases(p, q, n);
    if PRECISION <= Abs(LnTerm(n, p)) {
      MulMonotone(p, y, q, z);
      LnMonotone(y, z, n + 1, Mul(p, y), Mul(q, z), sum + LnTerm(n, p), sum' + LnTerm(n, q), limit);
    }
  }

  // ----- where its threshold lies -----

  lemma PowerAtLow()
    ensures RealPower(0.999956652671814, LIMIT + 1) <= 0.00150000999951198863
  {
    hide RealPower;
    var y := 0.999956652671814;
    PowerOfOne(y);
    PowerBelow(y, 1, y, 0, 0.99991330722261886087);
    PowerBelow(y, 2, 0.99991330722261886087, 0, 0.99982662196087537180);
    PowerBelow(y, 4, 0.99982662196087537180, 1, 0.99960994168315570039);
    PowerBelow(y, 9, 0.99960994168315570039, 0, 0.99922003551180194019);
    PowerBelow(y, 18, 0.99922003551180194019, 0, 0.99844067936820673045);
    PowerBelow(y, 36, 0.99844067936820673045, 1, 0.99684057796842834652);
    PowerBelow(y, 73, 0.99684057796842834652, 0, 0.99369113788443027340);
    PowerBelow(y, 146, 0.99369113788443027340, 0, 0.98742207751005381773);
    PowerBelow(y, 292, 0.98742207751005381773, 1, 0.97496009540702634502);
    PowerBelow(y, 585, 0.97496009540702634502, 1, 0.95050598395517917280);
    PowerBelow(y, 1171, 0.95050598395517917280, 1, 0.90342246288701782160);
    PowerBelow(y, 2343, 0.90342246288701782160, 1, 0.81613676756695670310);
    PowerBelow(y, 4687, 0.81613676756695670310, 1, 0.66605035061994721417);
    PowerBelow(y, 9375, 0.66605035061994721417, 0, 0.44362306956095461835);
    PowerBelow(y, 18750, 0.44362306956095461835, 0, 0.19680142784668358004);
    PowerBelow(y, 37500, 0.19680142784668358004, 0, 0.03873080200249340326);
    PowerBelow(y, 75000, 0.03873080200249340326, 1, 0.00150000999951198863);
  }

  lemma PowerAtHigh()
    ensures RealPower(0.999956652671818, LIMIT + 1) >= 0.00150001000041203724
  {
    hide RealPower;
    var y := 0.999956652671818;
    PowerOfOne(y);
    PowerAbove(y, 1, y, 0, 0.99991330722262686051);
    PowerAbove(y, 2, 0.99991330722262686051, 0, 0.99982662196089136968);
    PowerAbove(y, 4, 0.99982662196089136968, 1, 0.99960994168319168782);
    PowerAbove(y, 9, 0.99960994168319168782, 0, 0.99922003551187388697);
    PowerAbove(y, 18, 0.99922003551187388697, 0, 0.99844067936835051176);
    PowerAbove(y, 36, 0.99844067936835051176, 1, 0.99684057796871943582);
    PowerAbove(y, 73, 0.99684057796871943582, 0, 0.99369113788501061264);
    PowerAbove(y, 146, 0.99369113788501061264, 0, 0.98742207751120717364);
    PowerAbove(y, 292, 0.98742207751120717364, 1, 0.97496009540930784446);
    PowerAbove(y, 585, 0.97496009540930784446, 1, 0.95050598395963152396);
    PowerAbove(y, 1171, 0.95050598395963152396, 1, 0.90342246289548504138);
    PowerAbove(y, 2343, 0.90342246289548504138, 1, 0.81613676758225825771);
    PowerAbove(y, 4687, 0.81613676758225825771, 1, 0.66605035064492511845);
    PowerAbove(y, 9375, 0.66605035064492511845, 0, 0.44362306959422770215);
    PowerAbove(y, 18750, 0.44362306959422770215, 0, 0.19680142787620499517);
    PowerAbove(y, 37500, 0.19680142787620499517, 0, 0.03873080201411311655);
    PowerAbove(y, 75000, 0.03873080201411311655, 1, 0.00150001000041203724);
  }

  /** A reduced argument 1 + y on which the loop returns. */
  predicate LnEnds(y: int) {
    LnSeries(y, 1, y, 0, LIMIT).Some?
  }

  /** The loop ends if the last power it may reach is small enough, and only then. */
  lemma {:induction false} LnEndsBelow(y: int, n: nat, p: int, sum: int)
    requires 1 <= n <= LIMIT + 1 && 0 <= y <= ONE && p >= 0
    requires Magnitude(p as real - ULPS * RealPower(Fraction(y), n)) <= n as real
    requires ULPS * RealPower(Fraction(y), LIMIT + 1) < (PRECISION * (LIMIT + 1) - (LIMIT + 1)) as real
    ensures LnSeries(y, n, p, sum, LIMIT).Some?
    decreases LIMIT + 1 - n
  {
    hide LnTerm, Mul, RealPower, Fraction;
    LnTermMagnitude(n, p);
    if n <= LIMIT {
      PowerError(p, y, n);
      MulFraction(p, y);
      LnEndsBelow(y, n + 1, Mul(p, y), sum + LnTerm(n, p));
    }
  }

  lemma {:induction false} LnStalls(y: int, n: nat, p: int, sum: int)
    requires 1 <= n <= LIMIT + 1 && 0 <= y <= ONE && p >= 0
    requires Magnitude(p as real - ULPS * RealPower(Fraction(y), n)) <= n as real
    requires ULPS * RealPower(Fraction(y), LIMIT + 1) >= (PRECISION * (LIMIT + 1) + (LIMIT + 1)) as real
    ensures LnSeries(y, n, p, sum, LIMIT) == None
    decreases LIMIT + 1 - n
  {
    hide LnTerm, Mul, RealPower, Fraction;
    LnTermMagnitude(n, p);
    UnitFraction(y);
    PowerFalls(Fraction(y), n, LIMIT + 1);
    ScaleOrder(PRECISION, n, LIMIT + 1);
    DivAtLeast(p, n, PRECISION);
    if n <= LIMIT {
      PowerError(p, y, n);
      MulFraction(p, y);
      LnStalls(y, n + 1, Mul(p, y), sum + LnTerm(n, p));
    }
  }

  const LOW := 999_956_652_671_814_000

  const HIGH := 999_956_652_671_818_000

  lemma LowEnds()
    ensures LnEnds(LOW)
  {
    hide RealPower;
    PowerAtLow();
    assert Fraction(LOW) == 0.999956652671814;
    FirstPower(LOW);
    LnEndsBelow(LOW, 1, LOW, 0);
  }

  lemma HighStalls()
    ensures !LnEnds(HIGH)
  {
    hide RealPower;
    PowerAtHigh();
    assert Fraction(HIGH) == 0.999956652671818;
    FirstPower(HIGH);
    LnStalls(HIGH, 1, HIGH, 0);
  }

  /**
   The logarithm returns exactly when the reduced argument is at most t, which
   is 1.999956652671816 to 2000 ulp (or when the argument is 2, a case of its own).
   */
  lemma LnExactly() returns (t: int)
    ensures ONE + LOW <= t < ONE + HIGH
    ensures forall x | x > 0 && x != TWO :: Ln(x).Some? <==> Reduced(x).0 <= t
  {
    hide LnSeries, Reduced, LnEnds;
    LowEnds();
    HighStalls();
    var y := LastOf(LnEnds, LOW, HIGH);
    t := ONE + y;
    forall x | x > 0 && x != TWO ensures Ln(x).Some? <==> Reduced(x).0 <= t {
      ReductionRange(x);
      EndsUpTo(y, Reduced(x).0 - ONE);
      LnIsSeries(x);
    }
  }

  lemma LnIsSeries(x: int)
    requires x > 0 && x != TWO
    ensures Ln(x).Some? <==> LnEnds(Reduced(x).0 - ONE)
  {
    hide Reduced, LnSeries;
    if x == ONE {
      ReductionRange(x);
      LnOfZero();
    }
  }

  lemma EndsUpTo(t: int, y: int)
    requires HALF <= t && -HALF <= y <= ONE && LnEnds(t) && !LnEnds(t + 1)
    ensures LnEnds(y) <==> y <= t
  {
    hide LnSeries;
    if y < 0 {
      Pow2Values();
      LnConverges(y, 1, y, 0, LIMIT);
    } else if y <= t {
      LnMonotone(y, t, 1, y, t, 0, 0, LIMIT);
    } else if LnEnds(y) {
      LnMonotone(t + 1, y, 1, t + 1, y, 0, 0, LIMIT);
      assert false;
    }
  }

  /** 4, 8, 16, ... reduce to exactly 2, so for them the limit is reached; so does the largest decimal below 2. */
  lemma LnFailures(j: nat)
    requires j >= 2
    ensures Ln(Pow2(j) * ONE) == None && Ln(TWO - 1) == None
  {
    hide Ln, LnSeries;
    var t := LnExactly();
    ReductionRange(TWO - 1);
    PowersOfTwoReduceToTwo(j, 0);
    Pow2Monotone(2, j);
    assert Pow2(2) == 4;
  }

  // ----- the binomial series: smaller x return too -----

  lemma NextMonotone(term: nat, term': nat, c: nat, x: nat, x': nat, i: nat)
    requires i >= 1 && term <= term' && x <= x'
    ensures 0 <= NextMagnitude(term, c, x, i) <= NextMagnitude(term', c, x', i)
  {
    hide Mul, Chop;
    MulMonotone(term, c, term', c);
    var m, m' := Mul(Mul(term, c), x), Mul(Mul(term', c), x');
    MulMonotone(Mul(term, c), x, Mul(term', c), x');
    DivIncreases(m * ONE * ONE, m' * ONE * ONE, i * ONE);
    ChopMonotone((m * ONE * ONE) / (i * ONE), (m' * ONE * ONE) / (i * ONE));
    ChopNearest((m * ONE * ONE) / (i * ONE));
  }

  /** Where the loop returns, it also returns for a smaller |x|, on either side of 1. */
  lemma {:induction false} SeriesMonotone(x: nat, x': nat, neg: bool, neg': bool, exp: int, i: nat, term: nat,
                                          term': nat, sum: int, sum': int, n: bool, n': bool)
    requires 1 <= i <= LIMIT && x <= x' && term <= term'
    requires SeriesFrom(x', neg', exp, i, term', sum', n', PRECISION, LIMIT).Value?
    ensures SeriesFrom(x, neg, exp, i, term, sum, n, PRECISION, LIMIT).Value?
    decreases LIMIT - i
  {
    hide NextMagnitude;
    if term >= PRECISION {
      var c := exp - (i - 1) * ONE;
      var t, t' := NextMagnitude(term, Abs(c), x, i), NextMagnitude(term', Abs(c), x', i);
      NextMonotone(term, term', Abs(c), x, x', i);
      if t != 0 {
        var m, m' := (n != neg) != (c < 0), (n' != neg') != (c < 0);
        SeriesMonotone(x, x', neg, neg', exp, i + 1, t, t', if m then sum - t else sum + t,
                       if m' then sum' - t' else sum' + t', m, m');
      }
    }
  }

  predicate SeriesEnds(exp: int, x: int) {
    SeriesFrom(x, false, exp, 1, ONE, ONE, false, PRECISION, LIMIT).Value?
  }

  /** For each exponent there is a largest base, 1.999956652671814 or above: up to
      it the loop returns, from there to 2 it panics. */
  lemma MaclaurinExactly(exp: int, sqrt: int -> Option<int>) returns (t: int)
    requires 0 < exp <= ONE && exp != HALF
    ensures ONE + LOW <= t < TWO
    ensures forall base | HALF <= base < TWO ::
              MaclaurinValue(base, exp, PRECISION, sqrt) == Panic <==> base > t
    ensures forall base | HALF <= base <= t :: MaclaurinValue(base, exp, PRECISION, sqrt).Value?
  {
    hide SeriesFrom, SeriesEnds;
    LowSeriesEnds(exp, sqrt);
    t := TWO - 1;
    if !SeriesEnds(exp, ONE - 1) {
      var x := LastOf(x => SeriesEnds(exp, x), LOW, ONE - 1);
      t := ONE + x;
    }
    forall base | HALF <= base < TWO
      ensures MaclaurinValue(base, exp, PRECISION, sqrt) == Panic <==> base > t
      ensures MaclaurinValue(base, exp, PRECISION, sqrt).Value? <==> base <= t
    {
      EndsUpToBase(base, exp, t, sqrt);
    }
  }

  lemma LowSeriesEnds(exp: int, sqrt: int -> Option<int>)
    requires 0 < exp <= ONE && exp != HALF
    ensures SeriesEnds(exp, LOW)
  {
    hide SeriesFrom;
    ReturnsUpToLow(ONE + LOW, exp, sqrt);
  }

  lemma EndsUpToBase(base: int, exp: int, t: int, sqrt: int -> Option<int>)
    requires HALF <= base < TWO && 0 < exp <= ONE && exp != HALF
    requires ONE + HALF <= t < TWO && SeriesEnds(exp, t - ONE) && (t == TWO - 1 || !SeriesEnds(exp, t + 1 - ONE))
    ensures MaclaurinValue(base, exp, PRECISION, sqrt).Value? <==> base <= t
    ensures MaclaurinValue(base, exp, PRECISION, sqrt) == Panic <==> base > t
  {
    hide SeriesFrom;
    var x := Abs(base - ONE);
    ValueOrPanic(x, base < ONE, exp, 1, ONE, ONE, false);
    if base <= t {
      SeriesMonotone(x, t - ONE, base < ONE, false, exp, 1, ONE, ONE, ONE, ONE, false, false);
    } else if SeriesFrom(x, base < ONE, exp, 1, ONE, ONE, false, PRECISION, LIMIT).Value? {
      SeriesMonotone(t + 1 - ONE, x, false, false, exp, 1, ONE, ONE, ONE, ONE, false, false);
      assert false;
    }
  }

  lemma {:induction false} ValueOrPanic(x: int, neg: bool, exp: int, i: nat, term: int, sum: int, n: bool)
    requires 1 <= i <= LIMIT
    ensures var r := SeriesFrom(x, neg, exp, i, term, sum, n, PRECISION, LIMIT); r.Value? || r == Panic
    decreases LIMIT - i
  {
    hide NextMagnitude;
    if term >= PRECISION && i < LIMIT {
      var c := exp - (i - 1) * ONE;
      var t := NextMagnitude(term, Abs(c), x, i);
      var m := (n != neg) != (c < 0);
      ValueOrPanic(x, neg, exp, i + 1, t, if m then sum - t else sum + t, m);
    }
  }

  // ----- ... in terms of the exact series -----

  lemma {:induction false} TermsFall(a: real, x: real, n: nat, m: nat)
    requires 0.0 <= a <= 1.0 && -1.0 <= x <= 1.0 && n <= m
    ensures Magnitude(Term(a, x, m)) <= Magnitude(Term(a, x, n))
    decreases m
  {
    hide Term;
    if n < m {
      TermsFall(a, x, n, m - 1);
      TermRatio(a, x, m - 1, 1.0);
    }
  }

  lemma {:induction false} EndsIfTermSmall(base: int, exp: int, i: nat, term: int, sum: int, negative: bool)
    requires 1 <= i <= LIMIT && HALF <= base <= TWO && 0 <= exp <= ONE
    requires Near(base, exp, i, term, sum, negative)
    requires ULPS * Magnitude(Term(Fraction(exp), Fraction(base - ONE), LIMIT - 1)) < (PRECISION - 40_000) as real
    ensures SeriesFrom(Abs(base - ONE), base < ONE, exp, i, term, sum, negative, PRECISION, LIMIT).Value?
    decreases LIMIT - i
  {
    hide NextMagnitude, Term, Partial, Fraction, Total;
    if term >= PRECISION && i < LIMIT {
      NearStep(base, exp, i, term, sum, negative);
      var c := exp - (i - 1) * ONE;
      var t := NextMagnitude(term, Abs(c), Abs(base - ONE), i);
      var m := (negative != (base < ONE)) != (c < 0);
      EndsIfTermSmall(base, exp, i + 1, t, if m then sum - t else sum + t, m);
    }
  }

  lemma {:induction false} PanicsIfTermLarge(base: int, exp: int, i: nat, term: int, sum: int, negative: bool)
    requires 1 <= i <= LIMIT && HALF <= base <= TWO && 0 <= exp <= ONE && term >= PRECISION
    requires Near(base, exp, i, term, sum, negative)
    requires ULPS * Magnitude(Term(Fraction(exp), Fraction(base - ONE), LIMIT)) > (PRECISION + 40_000) as real
    ensures SeriesFrom(Abs(base - ONE), base < ONE, exp, i, term, sum, negative, PRECISION, LIMIT) == Panic
    decreases LIMIT - i
  {
    hide NextMagnitude, Term, Partial, Fraction, Total;
    NearStep(base, exp, i, term, sum, negative);
    var c := exp - (i - 1) * ONE;
    var t := NextMagnitude(term, Abs(c), Abs(base - ONE), i);
    var m := (negative != (base < ONE)) != (c < 0);
    UnitRange(exp);
    UnitFraction(base - ONE);
    TermsFall(Fraction(exp), Fraction(base - ONE), i, LIMIT);
    if i < LIMIT {
      PanicsIfTermLarge(base, exp, i + 1, t, if m then sum - t else sum + t, m);
    }
  }

  /** The rounded loop returns or panics as the last exact terms are below or above the precision. */
  lemma MaclaurinByTerms(base: int, exp: int, sqrt: int -> Option<int>)
    requires HALF <= base <= TWO && 0 < exp <= ONE && exp != HALF
    ensures ULPS * Magnitude(Term(Fraction(exp), Fraction(base - ONE), LIMIT - 1)) < (PRECISION - 40_000) as real
            ==> MaclaurinValue(base, exp, PRECISION, sqrt).Value?
    ensures ULPS * Magnitude(Term(Fraction(exp), Fraction(base - ONE), LIMIT)) > (PRECISION + 40_000) as real
            ==> MaclaurinValue(base, exp, PRECISION, sqrt) == Panic
  {
    hide SeriesFrom, Term, Partial, Fraction, Total, Slack;
    var a, y, far := Fraction(exp), Fraction(base - ONE), Abs(base - ONE) > HALF;
    NothingSummed(a, y, far);
    if ULPS * Magnitude(Term(a, y, LIMIT - 1)) < (PRECISION - 40_000) as real {
      EndsIfTermSmall(base, exp, 1, ONE, ONE, false);
    }
    if ULPS * Magnitude(Term(a, y, LIMIT)) > (PRECISION + 40_000) as real {
      PanicsIfTermLarge(base, exp, 1, ONE, ONE, false);
    }
  }

  // ----- exponents for which it always, or not always, returns -----

  /** Exponents from 1/2 on, and up to 0.00149: the loop returns for every base. */
  lemma AlwaysReturns(base: int, exp: int, sqrt: int -> Option<int>)
    requires HALF <= base <= TWO && (0 < exp <= 1_490_000_000_000_000 || HALF < exp <= ONE)
    ensures MaclaurinValue(base, exp, PRECISION, sqrt).Value?
  {
    hide MaclaurinValue, Term, Spread;
    var a, y, n := Fraction(exp), Fraction(base - ONE), LIMIT - 1;
    UnitFraction(base - ONE);
    WeightAtMost(a, y, n);
    if exp > HALF {
      SpreadAtMost(a, y, n);
      SpreadSmall(Weight(a, y, n));
    }
    MaclaurinByTerms(base, exp, sqrt);
  }

  /** y^149999 is at most 0.0016 where the logarithm is certain to return. */
  lemma PowerBeforeLimit(y: real)
    requires 0.0 <= y <= 0.999956652671814
    ensures 0.0 <= RealPower(y, LIMIT - 1) <= 0.0016
  {
    hide RealPower;
    var z := 0.999956652671814;
    PowerMonotone(y, z, LIMIT - 1);
    PowerAtLow();
    NextPowerExact(z, LIMIT - 1);
    NextPowerExact(z, LIMIT);
    var p := RealPower(z, LIMIT - 1);
    assert p * z * z == RealPower(z, LIMIT + 1);
    Times(p, z);
    if p > 0.0016 {
      ProductOrder(0.0016, z, p, z);
      ProductOrder(0.0016 * z, z, p * z, z);
      assert false;
    }
  }

  /** Up to 1.999956652671814 the loop returns for every exponent. */
  lemma ReturnsUpToLow(base: int, exp: int, sqrt: int -> Option<int>)
    requires HALF <= base <= ONE + LOW && 0 < exp <= ONE && exp != HALF
    ensures MaclaurinValue(base, exp, PRECISION, sqrt).Value?
  {
    hide MaclaurinValue, Weight, RealPower, Fraction;
    if exp > HALF {
      AlwaysReturns(base, exp, sqrt);
    } else {
      var a, y, n := Fraction(exp), Fraction(base - ONE), LIMIT - 1;
      LowFractions(base, exp);
      WeightDecays(a, y, n);
      PowerBeforeLimit(Magnitude(y));
      ProductOrder(a, RealPower(Magnitude(y), n), 0.5, 0.0016);
      SmallWeight(a, y);
      MaclaurinByTerms(base, exp, sqrt);
    }
  }

  lemma LowFractions(base: int, exp: int)
    requires HALF <= base <= ONE + LOW && 0 < exp <= HALF
    ensures 0.0 <= Fraction(exp) <= 0.5 && Magnitude(Fraction(base - ONE)) <= 0.999956652671814
  {
  }

  lemma SmallWeight(a: real, x: real)
    requires Weight(a, x, LIMIT - 1) <= 0.0014999
    ensures ULPS * Magnitude(Term(a, x, LIMIT - 1)) < (PRECISION - 40_000) as real
  {
    hide Term;
  }

  /** Exponents in [0.00155, 0.399]: for the largest base below 2 the loop panics. */
  lemma PanicsNearTwo(exp: int, sqrt: int -> Option<int>)
    requires 1_550_000_000_000_000 <= exp <= 399_000_000_000_000_000
    ensures MaclaurinValue(TWO - 1, exp, PRECISION, sqrt) == Panic
  {
    hide MaclaurinValue, Term, Weight, RealPower, Store;
    var a, x := Fraction(exp), Fraction(ONE - 1);
    assert 0.00155 <= a <= 0.399 && x == 0.999_999_999_999_999_999;
    SecondWeightIs(a, x);
    PowerOfOne(149_999.0);
    PowerDoubles(149_999.0, 1, 0);
    var s := Weight(a, x, 2);
    if a <= 0.0019 {
      LowerEnd(a, x, s, 0.00155);
      PowerTo500();
      StoreIs(0.97, 149_999.0, 500, 1);
      StaysAbove(a, x, 0.002, 500, 1, 0.97);
    } else if a <= 0.0099 {
      LowerEnd(a, x, s, 0.0019);
      PowerTo100();
      StoreIs(0.84, 149_999.0, 100, 1);
      StaysAbove(a, x, 0.01, 100, 1, 0.84);
    } else if a <= 0.12 {
      LowerEnd(a, x, s, 0.0099);
      PowerTo8();
      StoreIs(0.16, 149_999.0, 8, 1);
      StaysAbove(a, x, 0.125, 8, 1, 0.16);
    } else if a <= 0.33 {
      LowerEnd(a, x, s, 0.12);
      PowerTo3();
      StoreIs(0.017, 149_999.0, 3, 1);
      StaysAbove(a, x, 1.0 / 3.0, 3, 1, 0.017);
    } else {
      LowerEnd(a, x, s, 0.33);
      PowerTo5();
      StoreIs(0.0069, 149_999.0, 5, 2);
      StaysAbove(a, x, 0.4, 5, 2, 0.0069);
    }
    WeightIsTerm(a, x);
    MaclaurinByTerms(TWO - 1, exp, sqrt);
  }

  lemma WeightIsTerm(a: real, x: real)
    requires Weight(a, x, LIMIT) >= 0.00150001
    ensures ULPS * Magnitude(Term(a, x, LIMIT)) > (PRECISION + 40_000) as real
  {
    hide Term;
  }
}
