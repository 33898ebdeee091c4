/**
 How close the rounded exponential and logarithm come to their exact series:
 both loops compute a partial sum over the reals to within two ulp per term,
 and stop so late that the terms left out add up to no more than the precision.
 */
module SeriesAccuracy {
  import opened Basics
  import opened Decimal
  import opened RealDecimal
  import opened RealPowers
  import opened Exponential
  import opened Logarithm

  /** t * y / n, the factor from one exact term to the next. */
  ghost function Scaled(t: real, y: real, n: real): real
    requires n >= 1.0
  {
    t * y / n
  }

  lemma ScaledUlps(e: real, s: real, y: real, n: real)
    requires n >= 1.0 && s == ULPS * e
    ensures Scaled(s, y, n) == ULPS * Scaled(e, y, n)
  {
  }

  lemma CutError(n: real, t: real, p: real)
    requires n >= 1.0 && -2.0 * n <= n * t - p <= 2.0 * n
    ensures -2.0 <= t - p / n <= 2.0
  {
    var gap := t - p / n;
    assert n * gap == n * t - p;
    Unscale(n, gap, 2.0);
  }

  lemma TruncDivReal(a: int, n: int)
    requires n >= 1
    ensures -(n as real) <= n as real * TruncDiv(a, n) as real - a as real <= n as real
  {
  }

  // ----- the exponential -----

  ghost function TaylorTerm(y: real, n: nat): real {
    if n == 0 then 1.0 else Scaled(TaylorTerm(y, n - 1), y, n as real)
  }

  ghost function Taylor(y: real, n: nat): real {
    if n == 0 then 1.0 else Taylor(y, n - 1) + TaylorTerm(y, n)
  }

  lemma TaylorError(term: int, y: int, n: nat, exact: real)
    requires n >= 2 && Abs(y) <= 700_000_000_000_000_000
    requires -2.0 <= term as real - exact <= 2.0
    ensures -2.0 <= ExpTerm(y, n, term) as real - Scaled(exact, Fraction(y), n as real) <= 2.0
  {
    hide Mul, TruncDiv, Fraction;
    MulReal(term, y);
    var m := Mul(term, y);
    TruncDivReal(m, n);
    SmallFraction(y);
    var e := term as real - exact;
    CarriedError(e, Fraction(y));
    SplitProduct(term as real, exact, Fraction(y));
    AddCut(n as real, n as real * TruncDiv(m, n) as real, m as real, term as real * Fraction(y),
           exact * Fraction(y), e * Fraction(y));
    CutError(n as real, TruncDiv(m, n) as real, exact * Fraction(y));
  }

  lemma SplitProduct(t: real, exact: real, y: real)
    ensures t * y == exact * y + (t - exact) * y
  {
  }

  lemma AddCut(n: real, nt: real, m: real, product: real, exact: real, carried: real)
    requires n >= 2.0 && -n <= nt - m <= n && -1.0 <= 2.0 * (m - product) <= 1.0
    requires product == exact + carried && -1.4 <= carried <= 1.4
    ensures -2.0 * n <= nt - exact <= 2.0 * n
  {
  }

  lemma SmallFraction(y: int)
    ensures Abs(y) <= 700_000_000_000_000_000 ==> -0.7 <= Fraction(y) <= 0.7
    ensures Abs(y) <= HALF ==> -0.5 <= Fraction(y) <= 0.5
  {
  }

  lemma CarriedError(e: real, y: real)
    requires -0.7 <= y <= 0.7 && -2.0 <= e <= 2.0
    ensures -1.4 <= e * y <= 1.4
  {
    if y >= 0.0 {
      BoundedProduct(e, y, 2.0, 0.7);
    } else {
      BoundedProduct(e, -y, 2.0, 0.7);
      assert e * (-y) == -(e * y);
    }
  }

  lemma AddTerm(sum: real, t: real, p: real, u: real, n: real)
    requires -2.0 <= t - ULPS * u <= 2.0 && -2.0 * n <= sum - ULPS * p <= 2.0 * n
    ensures -2.0 * (n + 1.0) <= sum + t - ULPS * (p + u) <= 2.0 * (n + 1.0)
  {
  }

  /**
   The loop from its n-th pass on, n >= 2, with a term and a sum near the exact
   ones: it ends with a sum near the one cut after term m, which is small enough.
   */
  lemma {:induction false} ExpTracks(y: int, n: nat, term: int, sum: int, limit: nat) returns (m: nat)
    requires 2 <= n <= limit + 1 && Abs(y) <= 700_000_000_000_000_000
    requires Magnitude(term as real - ULPS * TaylorTerm(Fraction(y), n - 1)) <= 2.0
    requires Magnitude(sum as real - ULPS * Taylor(Fraction(y), n - 1)) <= 2.0 * (n - 1) as real
    requires ExpSeries(y, n, term, sum, limit).Some?
    ensures n <= m <= limit + 1
    ensures ULPS * Magnitude(TaylorTerm(Fraction(y), m)) <= PRECISION as real + 2.0
    ensures var r := ExpSeries(y, n, term, sum, limit).value;
            Magnitude(r as real - ULPS * Taylor(Fraction(y), m)) <= 2.0 * m as real
    decreases limit + 1 - n
  {
    hide ExpTerm, Fraction, Scaled;
    var exact := TaylorTerm(Fraction(y), n - 1);
    var scaled := ULPS * exact;
    TaylorError(term, y, n, scaled);
    ScaledUlps(exact, scaled, Fraction(y), n as real);
    var t := ExpTerm(y, n, term);
    AddTerm(sum as real, t as real, Taylor(Fraction(y), n - 1), TaylorTerm(Fraction(y), n), (n - 1) as real);
    m := n;
    if Abs(t) > PRECISION {
      m := ExpTracks(y, n + 1, t, sum + t, limit);
    }
  }

  /** For |y| <= 1 the terms after the first at least halve, so the m-th bounds all that follow it. */
  lemma {:induction false} TaylorTail(y: real, m: nat, n: nat)
    requires -1.0 <= y <= 1.0 && 1 <= m <= n
    ensures Magnitude(Taylor(y, n) - Taylor(y, m)) + Magnitude(TaylorTerm(y, n)) <= Magnitude(TaylorTerm(y, m))
    decreases n
  {
    hide Scaled;
    if n > m {
      TaylorTail(y, m, n - 1);
      ScaledHalves(TaylorTerm(y, n - 1), y, n as real);
      HalvingTail(Taylor(y, n - 1) - Taylor(y, m), TaylorTerm(y, n - 1), TaylorTerm(y, n),
                  Magnitude(TaylorTerm(y, m)));
    }
  }

  lemma ScaledHalves(t: real, y: real, n: real)
    requires -1.0 <= y <= 1.0 && n >= 2.0
    ensures 2.0 * Magnitude(Scaled(t, y, n)) <= Magnitude(t)
  {
    MagnitudeOfProduct(t, y);
    MagnitudeOfQuotient(t * y, n);
    BoundedProduct(Magnitude(y), Magnitude(t), 1.0, Magnitude(t));
    HalfOf(Magnitude(t * y), Magnitude(t), n);
  }

  lemma HalfOf(p: real, t: real, n: real)
    requires 0.0 <= p <= t && n >= 2.0
    ensures 2.0 * (p / n) <= t
  {
    var q := p / n;
    assert q * n == p;
    CancelFactor(0.0, q, n);
    Times(q, n - 2.0);
  }

  /**
   For x in (-42, 10^15], x is k ln 2 + y with |y| <= 0.7, and the result is
   2^k times a sum e, to an ulp; e is within 10^-8 and 58 ulp of every Taylor sum
   of e^y from the m-th on, m <= 28. For x = 1, answered by a constant, k = 0 and
   y = x. `IsLn2Times` ties ln 2 to its series.
   */
  lemma ExpRefinesTaylor(x: int) returns (k: int, y: int, e: int, m: nat)
    requires -42 * ONE < x <= 1_000_000_000_000_000 * ONE
    ensures x == k * LN2 + y && Abs(y) <= (if x == ONE then ONE else 700_000_000_000_000_000)
    ensures IsLn2Times(x, k, y)
    ensures Exp(x).Some? && TimesTwoTo(Exp(x).value, e, k)
    ensures 1 <= m <= 28
    ensures forall n | n >= m :: Magnitude(e as real - ULPS * Taylor(Fraction(y), n)) <= PRECISION as real + 58.0
  {
    hide Quotient, Remainder, ExpTerm, Mul, Power, Scaled, Taylor, TaylorTerm, Fraction, TwoPower, TimesTwoTo, IsLn2Times;
    k, y := 0, x;
    if x == ONE {
      MulExact(1, EULER);
      ScalesByTwo(EULER, 0);
      TwoPowerIs(0);
      FractionOfOne();
      EulerIsTaylorSum();
      e, m := EULER, 20;
    } else {
      if x > 0 {
        ReductionSmall(x);
        ReductionNonNegative(x);
        k, y := Quotient(x), Remainder(x);
      } else if x < 0 {
        NegativeReduction(x);
        k, y := Quotient(x), Remainder(x);
      }
      MulExact(1, ONE);
      e, m := SumRefinesTaylor(x, y);
      if x < 0 {
        FirstTerm(y);
        SeriesAlternates(y, 1, ONE, ONE, LIMIT);
      }
      TwoPowerIs(0);
      ScalesByTwo(e, k);
    }
    Ln2Times(k, y);
  }

  /** v is k ln 2 + rest, to half an ulp times k, whatever late partial sum is taken for ln 2. */
  ghost predicate IsLn2Times(v: int, k: int, rest: int) {
    forall n | n >= 60 :: IsSumTimes(v, k, rest, Ln2Sum(n))
  }

  ghost predicate IsSumTimes(v: int, k: int, rest: int, sum: real) {
    Magnitude(v as real - (ULPS * sum * k as real + rest as real)) <= 0.5 * Abs(k) as real
  }

  lemma Ln2Times(k: int, rest: int)
    ensures IsLn2Times(k * LN2 + rest, k, rest)
  {
    hide Ln2Sum, IsSumTimes;
    forall n | n >= 60 ensures IsSumTimes(k * LN2 + rest, k, rest, Ln2Sum(n)) {
      Ln2Is(n);
      TimesLn2(k, rest, Ln2Sum(n));
    }
  }

  /** k times the constant for ln 2, against k times a partial sum that is half an ulp off. */
  lemma TimesLn2(k: int, y: int, sum: real)
    requires Magnitude(LN2 as real - ULPS * sum) <= 0.5
    ensures IsSumTimes(k * LN2 + y, k, y, sum)
  {
    var d := LN2 as real - ULPS * sum;
    MagnitudeOfProduct(d, k as real);
    BoundedProduct(Magnitude(d), Magnitude(k as real), 0.5, Magnitude(k as real));
    RealProduct(k, LN2);
    assert d * k as real == k as real * LN2 as real - ULPS * sum * k as real;
  }

  lemma FractionOfOne()
    ensures Fraction(ONE) == 1.0
  {
  }

  /** The loop for the remainder y of x. */
  lemma SumRefinesTaylor(x: int, y: int) returns (e: int, m: nat)
    requires -42 * ONE < x <= 1_000_000_000_000_000 * ONE && x != ONE
    requires Abs(y) <= 700_000_000_000_000_000 && (if x == 0 then y == 0 else y == Remainder(x))
    ensures if x == 0 then e == ONE else ExpSeries(y, 1, ONE, ONE, LIMIT) == Some(e)
    ensures 1 <= m <= 28
    ensures forall n | n >= m :: Magnitude(e as real - ULPS * Taylor(Fraction(y), n)) <= PRECISION as real + 58.0
  {
    hide Quotient, Remainder, ExpTerm, Mul, Power, Scaled, Taylor, TaylorTerm, Fraction;
    FirstTerm(y);
    FirstTaylor(y);
    SmallFraction(y);
    e, m := ONE + y, 1;
    if x != 0 {
      ExpReturns(x);
      e := ExpSeries(y, 1, ONE, ONE, 27).value;
      if Abs(y) > PRECISION {
        m := ExpTracks(y, 2, y, ONE + y, 27);
      }
    }
    forall n | n >= m ensures Magnitude(e as real - ULPS * Taylor(Fraction(y), n)) <= PRECISION as real + 58.0 {
      TaylorTail(Fraction(y), m, n);
      NearAll(e as real, Taylor(Fraction(y), m), Taylor(Fraction(y), n), 2.0 * m as real, PRECISION as real + 2.0);
    }
  }

  lemma FirstTaylor(y: int)
    ensures ULPS * TaylorTerm(Fraction(y), 1) == y as real
    ensures ULPS * Taylor(Fraction(y), 1) == (ONE + y) as real
  {
  }

  // ----- the constant for x = 1 -----

  function Factorial(n: nat): nat {
    if n == 0 then 1 else n * Factorial(n - 1)
  }

  /** n! times the sum of 1/k! for k <= n, a whole number. */
  function Whole(n: nat): nat {
    if n == 0 then 1 else n * Whole(n - 1) + 1
  }

  lemma {:induction false} TaylorAtOne(n: nat)
    ensures TaylorTerm(1.0, n) * Factorial(n) as real == 1.0
    ensures Taylor(1.0, n) * Factorial(n) as real == Whole(n) as real
  {
    hide Factorial, Whole, TaylorTerm, Taylor;
    if n == 0 {
      FactorialStart();
    } else {
      TaylorAtOne(n - 1);
      FactorialStep(n);
      RealProduct(n, Factorial(n - 1));
      RealProduct(n, Whole(n - 1));
      OneMoreTerm(TaylorTerm(1.0, n - 1), Taylor(1.0, n - 1), Factorial(n - 1) as real, Whole(n - 1) as real,
                  n as real, TaylorTerm(1.0, n));
    }
  }

  lemma FactorialStart()
    ensures Factorial(0) == 1 && Whole(0) == 1 && TaylorTerm(1.0, 0) == 1.0 && Taylor(1.0, 0) == 1.0
  {
  }

  lemma FactorialStep(n: nat)
    requires n > 0
    ensures Factorial(n) == n * Factorial(n - 1) && Whole(n) == n * Whole(n - 1) + 1
    ensures TaylorTerm(1.0, n) * n as real == TaylorTerm(1.0, n - 1)
    ensures Taylor(1.0, n) == Taylor(1.0, n - 1) + TaylorTerm(1.0, n)
  {
  }

  lemma OneMoreTerm(t: real, p: real, f: real, w: real, n: real, u: real)
    requires t * f == 1.0 && p * f == w && u * n == t
    ensures u * (n * f) == 1.0 && (p + u) * (n * f) == n * w + 1.0
  {
    assert u * (n * f) == (u * n) * f;
    assert (p + u) * (n * f) == n * (p * f) + u * (n * f);
  }

  /** The constant returned for x = 1 is every Taylor sum of e from 20 terms on, to 1.5 ulp. */
  lemma EulerIsTaylorSum()
    ensures forall n | n >= 20 :: Magnitude(EULER as real - ULPS * Taylor(1.0, n)) <= 1.5
  {
    hide Factorial, Whole, Taylor, TaylorTerm;
    TaylorAtOne(20);
    FactorialValues();
    assert Taylor(1.0, 20) * 2432902008176640000.0 == 6613313319248080001.0;
    assert TaylorTerm(1.0, 20) * 2432902008176640000.0 == 1.0;
    forall n | n >= 20 ensures Magnitude(EULER as real - ULPS * Taylor(1.0, n)) <= 1.5 {
      TaylorTail(1.0, 20, n);
      NearAll(EULER as real, Taylor(1.0, 20), Taylor(1.0, n), 1.0, 0.5);
    }
  }

  lemma FactorialValues()
    ensures Factorial(20) == 2432902008176640000 && Whole(20) == 6613313319248080001
  {
    assert Whole(4) == 65 && Factorial(4) == 24;
    assert Whole(8) == 109601 && Factorial(8) == 40320;
    assert Whole(12) == 1302061345 && Factorial(12) == 479001600;
    assert Whole(16) == 56874039553217 && Factorial(16) == 20922789888000;
    assert Whole(20) == 6613313319248080001 && Factorial(20) == 2432902008176640000;
  }

  // ----- the logarithm -----

  ghost function LogTerm(y: real, n: nat): real
    requires n >= 1
  {
    if n % 2 == 1 then RealPower(y, n) / (n as real) else -(RealPower(y, n) / (n as real))
  }

  /** The series of ln(1 + y), cut after n terms. */
  ghost function LogSeries(y: real, n: nat): real {
    if n == 0 then 0.0 else LogSeries(y, n - 1) + LogTerm(y, n)
  }

  lemma DivideUlps(p: real, n: real)
    requires n >= 1.0
    ensures ULPS * (p / n) == (ULPS * p) / n
  {
  }

  /** A power of y within n ulp, divided by n and cut: a term within two. */
  lemma LogTermError(yPower: int, n: nat, y: real)
    requires n >= 1 && Magnitude(yPower as real - ULPS * RealPower(y, n)) <= n as real
    ensures -2.0 <= LnTerm(n, yPower) as real - ULPS * LogTerm(y, n) <= 2.0
  {
    hide TruncDiv, RealPower;
    var s := ULPS * RealPower(y, n);
    DivideUlps(RealPower(y, n), n as real);
    if n % 2 == 1 {
      LogCut(yPower, n, s);
    } else {
      LogCut(-yPower, n, -s);
      NegateQuotient(s, n as real);
    }
  }

  lemma LogCut(a: int, n: nat, exact: real)
    requires n >= 1 && Magnitude(a as real - exact) <= n as real
    ensures -2.0 <= TruncDiv(a, n) as real - exact / (n as real) <= 2.0
  {
    TruncDivReal(a, n);
    hide TruncDiv;
    CutError(n as real, TruncDiv(a, n) as real, exact);
  }

  lemma NegateQuotient(s: real, n: real)
    requires n >= 1.0
    ensures (-s) / n == -(s / n)
  {
  }

  /** For |y| <= 1 each product adds less than an ulp to the error of the power. */
  lemma PowerError(yPower: int, y: int, n: nat)
    requires Abs(y) <= ONE && Magnitude(yPower as real - ULPS * RealPower(Fraction(y), n)) <= n as real
    ensures Magnitude(Mul(yPower, y) as real - ULPS * RealPower(Fraction(y), n + 1)) <= (n + 1) as real
  {
    hide Mul, RealPower, Fraction;
    MulReal(yPower, y);
    UnitFraction(y);
    NextPower(Fraction(y), n);
    var exact, f := ULPS * RealPower(Fraction(y), n), Fraction(y);
    CarryError(yPower as real, exact, f, n as real);
    OneMoreUlp(Mul(yPower, y) as real, yPower as real * f, exact * f, n as real);
    assert (n + 1) as real == n as real + 1.0;
  }

  lemma OneMoreUlp(rounded: real, product: real, exact: real, bound: real)
    requires -1.0 <= 2.0 * (rounded - product) <= 1.0 && Magnitude(product - exact) <= bound
    ensures Magnitude(rounded - exact) <= bound + 1.0
  {
  }

  lemma CarryError(p: real, exact: real, f: real, bound: real)
    requires -1.0 <= f <= 1.0 && Magnitude(p - exact) <= bound
    ensures Magnitude(p * f - exact * f) <= bound
  {
    MagnitudeOfProduct(p - exact, f);
    assert (p - exact) * f == p * f - exact * f;
    BoundedProduct(Magnitude(p - exact), Magnitude(f), bound, 1.0);
  }

  lemma UnitFraction(y: int)
    ensures Abs(y) <= ONE ==> -1.0 <= Fraction(y) <= 1.0
    ensures y >= 0 <==> Fraction(y) >= 0.0
  {
  }

  lemma NextPower(y: real, n: nat)
    ensures ULPS * RealPower(y, n + 1) == (ULPS * RealPower(y, n)) * y
  {
  }

  /**
   The loop from its n-th pass on, with a power and a sum near the exact ones:
   it ends with a sum near the one cut after term m, which is below 10^-8 and
   two ulp.
   */
  lemma {:induction false} LnTracks(y: int, n: nat, yPower: int, sum: int, limit: nat) returns (m: nat)
    requires 1 <= n <= limit + 1 && Abs(y) <= ONE
    requires Magnitude(yPower as real - ULPS * RealPower(Fraction(y), n)) <= n as real
    requires Magnitude(sum as real - ULPS * LogSeries(Fraction(y), n - 1)) <= 2.0 * (n - 1) as real
    requires LnSeries(y, n, yPower, sum, limit).Some?
    ensures n <= m <= limit + 1
    ensures ULPS * Magnitude(LogTerm(Fraction(y), m)) <= PRECISION as real + 2.0
    ensures var r := LnSeries(y, n, yPower, sum, limit).value;
            Magnitude(r as real - ULPS * LogSeries(Fraction(y), m)) <= 2.0 * m as real
    decreases limit + 1 - n
  {
    hide LnTerm, Mul, Fraction, LogTerm, RealPower, LogSeries;
    LogTermError(yPower, n, Fraction(y));
    LogSeriesStep(Fraction(y), n);
    var t := LnTerm(n, yPower);
    AddTerm(sum as real, t as real, LogSeries(Fraction(y), n - 1), LogTerm(Fraction(y), n), (n - 1) as real);
    m := n;
    if PRECISION <= Abs(t) {
      PowerError(yPower, y, n);
      m := LnTracks(y, n + 1, Mul(yPower, y), sum + t, limit);
    }
  }

  lemma LogSeriesStep(y: real, n: nat)
    requires n >= 1
    ensures LogSeries(y, n) == LogSeries(y, n - 1) + LogTerm(y, n)
  {
  }

  // ----- what the cut leaves out -----

  lemma LogTermMagnitude(y: real, n: nat)
    requires n >= 1
    ensures Magnitude(LogTerm(y, n)) == Magnitude(RealPower(y, n)) / n as real
  {
    MagnitudeOfQuotient(RealPower(y, n), n as real);
  }

  lemma NextPowerMagnitude(y: real, n: nat)
    ensures Magnitude(RealPower(y, n + 1)) == Magnitude(y) * Magnitude(RealPower(y, n))
  {
    MagnitudeOfProduct(RealPower(y, n), y);
  }

  lemma LogTermShrinks(y: real, n: nat, bound: real)
    requires n >= 1 && Magnitude(y) <= bound
    ensures Magnitude(LogTerm(y, n + 1)) <= bound * Magnitude(LogTerm(y, n))
  {
    hide RealPower, LogTerm, Magnitude;
    var p, q := RealPower(y, n), RealPower(y, n + 1);
    NextPowerMagnitude(y, n);
    LogTermMagnitude(y, n);
    LogTermMagnitude(y, n + 1);
    MagnitudeNonNegative(p);
    MagnitudeNonNegative(q);
    MagnitudeNonNegative(y);
    assert (n + 1) as real == n as real + 1.0;
    BoundedProduct(Magnitude(y), Magnitude(p), bound, Magnitude(p));
    SmallerQuotient(Magnitude(q), Magnitude(p), bound, n as real);
  }

  lemma SmallerQuotient(q: real, p: real, bound: real, n: real)
    requires n >= 1.0 && 0.0 <= q <= bound * p
    ensures q / (n + 1.0) <= bound * (p / n)
  {
    var u, v := q / (n + 1.0), p / n;
    assert u * (n + 1.0) == q && v * n == p;
    CancelFactor(0.0, u, n + 1.0);
    assert bound * p == (bound * v) * n;
    CancelFactor(u, bound * v, n);
  }

  /** For 0 <= y <= 1 what follows the m-th partial sum lies between 0 and the next term. */
  lemma {:induction false} AlternatingTail(y: real, m: nat, n: nat)
    requires 0.0 <= y <= 1.0 && m <= n
    ensures var d, t := LogSeries(y, n) - LogSeries(y, m), LogTerm(y, m + 1);
            if m % 2 == 0 then 0.0 <= d <= t else t <= d <= 0.0
    decreases n - m
  {
    hide LogTerm, LogSeries;
    LogTermSign(y, m + 1);
    if n > m {
      LogSeriesStep(y, m + 1);
      LogTermShrinks(y, m + 1, 1.0);
      LogTermSign(y, m + 2);
      AlternatingTail(y, m + 1, n);
    }
  }

  lemma LogTermSign(y: real, n: nat)
    requires y >= 0.0 && n >= 1
    ensures if n % 2 == 1 then LogTerm(y, n) >= 0.0 else LogTerm(y, n) <= 0.0
  {
    PowerNonNegative(y, n);
  }

  lemma {:induction false} HalvingLogTail(y: real, m: nat, n: nat)
    requires -0.5 <= y <= 0.5 && 1 <= m <= n
    ensures Magnitude(LogSeries(y, n) - LogSeries(y, m)) + Magnitude(LogTerm(y, n)) <= Magnitude(LogTerm(y, m))
    decreases n
  {
    hide LogTerm;
    if n > m {
      HalvingLogTail(y, m, n - 1);
      LogTermShrinks(y, n - 1, 0.5);
      HalvingTail(LogSeries(y, n - 1) - LogSeries(y, m), LogTerm(y, n - 1), LogTerm(y, n), Magnitude(LogTerm(y, m)));
    }
  }

  lemma LogTail(y: real, m: nat, n: nat)
    requires -0.5 <= y <= 1.0 && 1 <= m <= n
    ensures Magnitude(LogSeries(y, n) - LogSeries(y, m)) <= Magnitude(LogTerm(y, m))
  {
    hide LogTerm, LogSeries;
    if y >= 0.0 {
      AlternatingTail(y, m, n);
      LogTermShrinks(y, m, 1.0);
    } else {
      HalvingLogTail(y, m, n);
    }
  }

  /**
   Wherever the routine returns, the result is k ln 2 plus a sum s that is within
   10^-8 and 2 m + 2 ulp of every partial sum of the series of ln z from the m-th
   on. z = 1 + y is the reduced argument, and m <= 27 if that is at most 1.5. For
   x = 2, answered by a constant, k = 1 and y = 0. `IsLn2Times` ties ln 2 to its
   series.
   */
  lemma LnRefinesSeries(x: int) returns (k: int, y: int, s: int, m: nat)
    requires Ln(x).Some?
    ensures x > 0 && -HALF <= y <= ONE && (if x == TWO then (y, k) == (0, 1) else (ONE + y, k) == Reduced(x))
    ensures Ln(x) == Some(s + k * LN2)
    ensures 1 <= m <= LIMIT + 1 && (y <= HALF ==> m <= 27)
    ensures forall n | n >= m ::
              Magnitude(s as real - ULPS * LogSeries(Fraction(y), n)) <= (PRECISION + 2 * m + 2) as real
    ensures IsLn2Times(Ln(x).value, k, s)
  {
    hide Reduced, LnSeries, LogSeries, Fraction, Pow2, IsLn2Times;
    ReductionRange(x);
    LnOfZero();
    if x == TWO {
      k, y := 1, 0;
    } else {
      k, y := Reduced(x).1, Reduced(x).0 - ONE;
    }
    if y <= HALF {
      Pow2Values();
      LnConverges(y, 1, y, 0, LIMIT);
    }
    s, m := SumRefinesSeries(y, if y <= HALF then 26 else LIMIT);
    Ln2Times(k, s);
  }

  lemma SumRefinesSeries(y: int, limit: nat) returns (s: int, m: nat)
    requires -HALF <= y <= ONE && LnSeries(y, 1, y, 0, limit).Some?
    ensures LnSeries(y, 1, y, 0, limit) == Some(s)
    ensures 1 <= m <= limit + 1
    ensures forall n | n >= m ::
              Magnitude(s as real - ULPS * LogSeries(Fraction(y), n)) <= (PRECISION + 2 * m + 2) as real
  {
    hide LnSeries, LogTerm, LogSeries, Fraction, RealPower;
    FirstPower(y);
    NoTerms(Fraction(y));
    SmallFraction(y);
    UnitFraction(y);
    m := LnTracks(y, 1, y, 0, limit);
    s := LnSeries(y, 1, y, 0, limit).value;
    forall n | n >= m
      ensures Magnitude(s as real - ULPS * LogSeries(Fraction(y), n)) <= (PRECISION + 2 * m + 2) as real
    {
      LogTail(Fraction(y), m, n);
      NearAll(s as real, LogSeries(Fraction(y), m), LogSeries(Fraction(y), n), 2.0 * m as real,
              PRECISION as real + 2.0);
    }
  }

  lemma NoTerms(y: real)
    ensures LogSeries(y, 0) == 0.0
  {
  }

  lemma LnOfZero()
    ensures LnSeries(0, 1, 0, 0, LIMIT) == Some(0)
  {
  }

  lemma FirstPower(y: int)
    ensures ULPS * RealPower(Fraction(y), 1) == y as real
  {
  }

  // ----- the constant for ln 2 -----

  /** The series of ln 2 = -ln(1/2), cut after n terms. */
  ghost function Ln2Sum(n: nat): real {
    -LogSeries(-0.5, n)
  }

  /** (n - 1)!, or 1; n! 2^n; and that times the sum. All are whole numbers. */
  ghost function Ln2Factor(n: nat): real {
    if n <= 1 then 1.0 else (n - 1) as real * Ln2Factor(n - 1)
  }

  ghost function Ln2Scale(n: nat): real {
    if n == 0 then 1.0 else 2.0 * n as real * Ln2Scale(n - 1)
  }

  ghost function Ln2Whole(n: nat): real {
    if n == 0 then 0.0 else 2.0 * n as real * Ln2Whole(n - 1) + Ln2Factor(n)
  }

  /** 2^-n. */
  ghost function HalfTo(n: nat): real {
    if n == 0 then 1.0 else 0.5 * HalfTo(n - 1)
  }

  lemma {:induction false} HalfPower(n: nat)
    ensures RealPower(-0.5, n) == if n % 2 == 0 then HalfTo(n) else -HalfTo(n)
  {
    if n > 0 {
      HalfPower(n - 1);
    }
  }

  lemma {:induction false} HalfOverScale(n: nat)
    requires n >= 1
    ensures HalfTo(n) * Ln2Scale(n) == n as real * Ln2Factor(n)
  {
    if n == 1 {
      assert HalfTo(0) == 1.0 && Ln2Scale(0) == 1.0;
    } else {
      HalfOverScale(n - 1);
      HalfStep(n as real, HalfTo(n - 1), Ln2Scale(n - 1), (n - 1) as real * Ln2Factor(n - 1));
    }
  }

  lemma HalfStep(m: real, h: real, d: real, f: real)
    requires h * d == f
    ensures (0.5 * h) * (2.0 * m * d) == m * f
  {
    assert (0.5 * h) * (2.0 * m * d) == m * (h * d);
  }

  /** The n-th term of the series of ln 2 is 1 / (n 2^n). */
  lemma HalfTerm(n: nat)
    requires n >= 1
    ensures Ln2Sum(n) == Ln2Sum(n - 1) - LogTerm(-0.5, n)
    ensures -LogTerm(-0.5, n) * Ln2Scale(n) == Ln2Factor(n)
  {
    hide RealPower, Ln2Scale, Ln2Factor, HalfTo;
    HalfPower(n);
    HalfOverScale(n);
    NegateQuotient(HalfTo(n), n as real);
    TermOfPower(HalfTo(n), -LogTerm(-0.5, n), Ln2Scale(n), n as real, Ln2Factor(n));
  }

  lemma TermOfPower(p: real, t: real, d: real, n: real, f: real)
    requires n >= 1.0 && t == p / n && p * d == n * f
    ensures t * d == f
  {
    assert p == t * n;
    assert (t * d) * n == f * n;
    CancelFactor(t * d, f, n);
    CancelFactor(f, t * d, n);
  }

  lemma {:induction false} Ln2IsWhole(n: nat)
    ensures Ln2Sum(n) * Ln2Scale(n) == Ln2Whole(n)
  {
    hide LogTerm, Ln2Factor;
    if n == 0 {
      NoTerms(-0.5);
    } else {
      hide LogSeries, Ln2Sum;
      Ln2IsWhole(n - 1);
      HalfTerm(n);
      OneMoreHalf(Ln2Sum(n - 1), -LogTerm(-0.5, n), Ln2Scale(n - 1), 2.0 * n as real, Ln2Factor(n), Ln2Whole(n - 1));
    }
  }

  lemma OneMoreHalf(sum: real, t: real, d: real, m: real, f: real, w: real)
    requires t * (m * d) == f && sum * d == w
    ensures (sum + t) * (m * d) == m * w + f
  {
    assert sum * (m * d) == m * (sum * d);
  }

  /** The constant for ln 2 is every partial sum from 60 terms on, to half an ulp. */
  lemma Ln2Is(n: nat)
    requires n >= 60
    ensures Magnitude(LN2 as real - ULPS * Ln2Sum(n)) <= 0.5
  {
    hide Ln2Factor, Ln2Whole, Ln2Scale, LogSeries, LogTerm;
    Ln2IsWhole(60);
    HalfTerm(60);
    Ln2Values();
    LogTail(-0.5, 60, n);
    NearConstant(Ln2Sum(60), Ln2Sum(n), -LogTerm(-0.5, 60));
  }

  lemma NearConstant(s: real, sum: real, t: real)
    requires s * 9593444981835986954891939947669322185182489942608389896364094195294295395488811817369600000000000000.0 == 6649669341016570098897203654922658487117966611685730303463522736390833012564099973775360000000000000.0
    requires t * 9593444981835986954891939947669322185182489942608389896364094195294295395488811817369600000000000000.0 == 138683118545689835737939019720389406345902876772687432540821294940160000000000000.0
    requires Magnitude(sum - s) <= Magnitude(t)
    ensures Magnitude(LN2 as real - ULPS * sum) <= 0.5
  {
  }

  lemma Ln2Values()
    ensures Ln2Factor(60) == 138683118545689835737939019720389406345902876772687432540821294940160000000000000.0
    ensures Ln2Scale(60) == 9593444981835986954891939947669322185182489942608389896364094195294295395488811817369600000000000000.0
    ensures Ln2Whole(60) == 6649669341016570098897203654922658487117966611685730303463522736390833012564099973775360000000000000.0
  {
    Ln2Scales();
    assert Ln2Factor(4) == 6.0 && Ln2Whole(4) == 262.0;
    assert Ln2Factor(8) == 5040.0 && Ln2Whole(8) == 7150512.0;
    assert Ln2Factor(12) == 39916800.0 && Ln2Whole(12) == 1359913708800.0;
    assert Ln2Factor(16) == 1307674368000.0 && Ln2Whole(16) == 950439443688806400.0;
    assert Ln2Factor(20) == 121645100408832000.0 && Ln2Whole(20) == 1768275639474152546304000.0;
    assert Ln2Factor(24) == 25852016738884976640000.0 && Ln2Whole(24) == 7215244055874248349219618816000.0;
    assert Ln2Factor(28) == 10888869450418352160768000000.0 && Ln2Whole(28) == 56729135042849050941193935708487680000.0;
    assert Ln2Factor(32) == 8222838654177922817725562880000000.0 && Ln2Whole(32) == 783352203450958069147082352215927763763200000.0;
    assert Ln2Factor(36) == 10333147966386144929666651337523200000000.0 && Ln2Whole(36) == 17719050833168549094963777205262238219138760704000000.0;
    assert Ln2Factor(40) == 20397882081197443358640281739902897356800000000.0 && Ln2Whole(40) == 621828117367341641112940626613704201755831100600483840000000.0;
    assert Ln2Factor(44) == 60415263063373835637355132068513997507264512000000000.0 && Ln2Whole(44) == 32414894884122810038784934491843192391483893807896295175618560000000.0;
    assert Ln2Factor(48) == 258623241511168180642964355153611979969197632389120000000000.0 && Ln2Whole(48) == 2421999454676208762165378165704844151917158412015836573265871188787200000000.0;
    assert Ln2Factor(52) == 1551118753287382280224243016469303211063259720016986112000000000000.0 && Ln2Whole(52) == 251787188109011205316213370004960242026186156765723914583490346894124646400000000000.0;
    assert Ln2Factor(56) == 12696403353658275925965100847566516959580321051449436762275840000000000000.0 && Ln2Whole(56) == 35511903867094550829165332399666701924118193236576976761283905207718053287034880000000000000.0;
  }

  lemma Ln2Scales()
    ensures Ln2Scale(60) == 9593444981835986954891939947669322185182489942608389896364094195294295395488811817369600000000000000.0
  {
    assert Ln2Scale(4) == 384.0;
    assert Ln2Scale(8) == 10321920.0;
    assert Ln2Scale(12) == 1961990553600.0;
    assert Ln2Scale(16) == 1371195958099968000.0;
    assert Ln2Scale(20) == 2551082656125828464640000.0;
    assert Ln2Scale(24) == 10409396852733332453861621760000.0;
    assert Ln2Scale(28) == 81842841814930553085241614925824000000.0;
    assert Ln2Scale(32) == 1130138339199322632554990773529330319360000000.0;
    assert Ln2Scale(36) == 25563186766285862273530264901662157745369907200000000.0;
    assert Ln2Scale(40) == 897108341211212142020325469195355364998152634499072000000000.0;
    assert Ln2Scale(44) == 46764808100261091644698061863195655483083859821779272859648000000000.0;
    assert Ln2Scale(48) == 3494206602297140433494533968898794487257007658542775390603638210560000000000.0;
    assert Ln2Scale(52) == 363252127644247044041398160152368436824058904969853261166529262548680704000000000000.0;
    assert Ln2Scale(56) == 51232847601582910773490610013067546813865700559248923248840140611137895336509440000000000000.0;
  }
}
