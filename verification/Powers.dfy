/** Real powers of positive decimals (utils/pow_approx.go, utils/pow.go). */
module Powers {
  import opened Basics
  import opened Decimal
  import opened BigDecimal
  import opened Exponential
  import opened Logarithm
  import opened Maclaurin
  import opened RealDecimal
  import opened SeriesAccuracy
  import opened BinomialSeries
  import opened Convergence
  import opened WholePowers

  const MAX_INT64 := 9_223_372_036_854_775_807
  const TWO_TO_THE_64 := 18_446_744_073_709_551_616

  function ExpLog(base: int, exp: int): Outcome<int> {
    match Ln(base)
    case None => Error
    case Some(l) =>
      match Exp(Mul(exp, l))
      case None => Error
      case Some(r) => Value(r)
  }

  /**
   powerApproximation. The library's square root is the parameter `sqrt`; None
   is its error. The branch for exp == -1 is missing because the check for
   negative exponents comes before it.
   */
  function PowerApproximation(base: int, exp: int, sqrt: int -> Option<int>): Outcome<int>
    decreases if exp > ONE then 2 else 0
  {
    if base <= 0 then Error
    else if exp < 0 then Error
    else if exp == 0 then Value(ONE)
    else if exp == ONE then Value(base)
    else if exp == HALF then FromSqrt(sqrt(base), Error)
    else if exp % ONE == 0 && exp <= (TWO_TO_THE_64 - 1) * ONE then
      if Truncate(exp) > MAX_INT64 then Panic else Value(Power(base, Truncate(exp)))
    else if exp > ONE then
      match Pow(FromDec(base), FromDec(exp), sqrt)
      case Value(r) => Value(ToDec(r))
      case Error => Error
      case Panic => Panic
    else if HALF <= base < TWO then MaclaurinValue(base, exp, PRECISION, sqrt)
    else ExpLog(base, exp)
  }

  /** Pow: whole and fractional part of the exponent are taken separately. */
  function Pow(base: int, exp: int, sqrt: int -> Option<int>): Outcome<int>
    decreases 1
  {
    if base <= 0 then Panic
    else
      var integer := TruncDiv(exp, BIG);
      var fractional := exp - integer * BIG;
      if !(-MAX_INT64 - 1 <= integer <= MAX_INT64) then Panic
      else
        var integerPow := BigPower(base, integer % TWO_TO_THE_64);
        if fractional == 0 then Value(integerPow)
        else
          match PowerApproximation(ToDec(base), ToDec(fractional), sqrt)
          case Value(f) => Value(BigMul(integerPow, FromDec(f)))
          case Error => Panic
          case Panic => Panic
  }

  /** Same side of 1, and not below zero. */
  predicate SameSide(base: int, r: int, one: int) {
    0 <= r && (base >= one ==> r >= one) && (base <= one ==> r <= one)
  }

  /** What is assumed of the library's square root. */
  ghost predicate SqrtContract(sqrt: int -> Option<int>) {
    forall b | b > 0 && sqrt(b).Some? :: sqrt(b).value > 0 && SameSide(b, sqrt(b).value, ONE)
  }

  // ----- exponents in [0, 1] -----

  lemma ExpLogSide(base: int, exp: int)
    requires 0 < base && 0 <= exp <= ONE && ExpLog(base, exp).Value?
    ensures Ln(base).Some?
    ensures var r := ExpLog(base, exp).value;
            r > 0 && SameSide(base, r, ONE) && r >= ONE + Mul(exp, Ln(base).value)
  {
    hide Ln, Exp, Mul;
    LnBounds(base);
    var l := Ln(base).value;
    MulCommutes(exp, l);
    MulFraction(l, exp);
    ExpBounds(Mul(exp, l));
  }

  /**
   For a positive base and an exponent in [0, 1] a returned value is strictly
   positive and on the base's side of 1, whichever method computed it. Nothing
   is assumed of the square root unless the exponent is 1/2.
   */
  lemma FractionalPowerSide(base: int, exp: int, sqrt: int -> Option<int>)
    requires 0 <= exp <= ONE && PowerApproximation(base, exp, sqrt).Value?
    requires exp == HALF ==> SqrtContract(sqrt)
    ensures base > 0
    ensures var r := PowerApproximation(base, exp, sqrt).value;
            r > 0 && SameSide(base, r, ONE)
  {
    hide ExpLog, MaclaurinValue;
    if 0 < exp < ONE && exp != HALF {
      if HALF <= base < TWO {
        MaclaurinBounds(base, exp, sqrt);
      } else {
        ExpLogSide(base, exp);
      }
    }
  }

  /**
   The exp/log method composes the two exact series, whenever it returns. Its
   logarithm l is k ln 2 plus s, and s is within 10^-8 and 2 m + 2 ulp of all
   late partial sums of ln(1 + y), where 1 + y is the reduced base. l times the
   exponent, rounded, is j ln 2 plus w, and the result r is 2^j times e, to an
   ulp, where e is within 10^-8 and 58 ulp of all late partial sums of e^w.
   */
  lemma ExpLogRefines(base: int, exp: int, bits: nat)
    returns (l: int, k: int, y: int, s: int, m: nat, r: int, j: int, w: int, e: int, n: nat)
    requires base <= Pow2(bits) && bits < 1_000_000_000_000_000
    requires 0 <= exp <= ONE && Ln(base).Some?
    ensures base > 0 && (if base == TWO then (y, k) == (0, 1) else (ONE + y, k) == Reduced(base))
    ensures IsLn2Times(l, k, s) && m <= (if y <= HALF then 27 else LIMIT + 1)
    ensures forall i | i >= m ::
              Magnitude(s as real - ULPS * LogSeries(Fraction(y), i)) <= (PRECISION + 2 * m + 2) as real
    ensures IsLn2Times(Mul(exp, l), j, w) && Abs(w) <= ONE && n <= 28
    ensures forall i | i >= n :: Magnitude(e as real - ULPS * Taylor(Fraction(w), i)) <= PRECISION as real + 58.0
    ensures ExpLog(base, exp) == Value(r) && TimesTwoTo(r, e, j)
  {
    hide Ln, Exp, Mul, LogSeries, Taylor, Reduced, Pow2, Fraction, IsLn2Times, TimesTwoTo;
    k, y, s, m := LnRefinesSeries(base);
    l := Ln(base).value;
    ProductInRange(base, exp, bits);
    j, w, e, n := ExpRefinesTaylor(Mul(exp, l));
    r := Exp(Mul(exp, l)).value;
  }

  /** What the exponential is asked for is in the range where it returns. */
  lemma ProductInRange(base: int, exp: int, bits: nat)
    requires base <= Pow2(bits) && bits < 1_000_000_000_000_000
    requires 0 <= exp <= ONE && Ln(base).Some?
    ensures -42 * ONE < Mul(exp, Ln(base).value) <= 1_000_000_000_000_000 * ONE
  {
    hide Ln, Mul, Pow2;
    LnBounds(base);
    LnAtMost(base, bits);
    var l := Ln(base).value;
    MulCommutes(exp, l);
    MulFraction(l, exp);
  }

  /**
   For base in [0.5, 2) a returned power is within the stated accuracy of the
   power itself, the limit of the binomial series: 10^-8 and 69 ulp up to 1.5.
   */
  lemma PowerIsAccurate(base: int, exp: int, sqrt: int -> Option<int>, power: real)
    requires HALF <= base < TWO && 0 < exp < ONE && exp != HALF
    requires PowerApproximation(base, exp, sqrt).Value?
    requires IsLimit(Partials(Fraction(exp), Fraction(base - ONE)), power)
    ensures Magnitude(PowerApproximation(base, exp, sqrt).value as real - ULPS * power) <= Accuracy(base)
  {
    hide MaclaurinValue, Partial, Fraction, Accuracy, Total, IsLimit, Magnitude;
    var n := RefinesExactSeries(base, exp, sqrt);
    var r := MaclaurinValue(base, exp, PRECISION, sqrt).value;
    NearLimit(Partials(Fraction(exp), Fraction(base - ONE)), power, r as real, n, Accuracy(base));
  }

  // ----- whole exponents, and the whole part of others -----

  /** A whole exponent gives the power, up to 2^63 - 1, and a panic from there on. */
  lemma WholeExponent(base: int, n: nat, sqrt: int -> Option<int>)
    requires base > 0
    ensures if n <= 9_223_372_036_854_775_807 then
              PowerApproximation(base, n * ONE, sqrt).Value?
              && IsPower(PowerApproximation(base, n * ONE, sqrt).value, base, n, ONE)
            else PowerApproximation(base, n * ONE, sqrt) == Panic
  {
    hide Power, ExpLog, MaclaurinValue, IsPower, BigPower;
    PowerIsPower(base, n);
    assert (n * ONE) % ONE == 0 && Truncate(n * ONE) == n;
    if n == 1 {
      OnePower(base);
    } else if n == 0 {
      NoPower(base);
    } else if n >= TWO_TO_THE_64 {
      assert FromDec(n * ONE) == n * BIG;
      DivUnique(n * BIG, BIG, n, 0);
    }
  }

  lemma OnePower(base: int)
    ensures Power(base, 1) == base
  {
    MulExact(1, base);
  }

  lemma NoPower(base: int)
    ensures Power(base, 0) == ONE
  {
  }

  /** Bases that are not positive are refused, and exponents that are too large for a count. */
  lemma Refused(base: int, exp: int, sqrt: int -> Option<int>)
    ensures base <= 0 ==> PowerApproximation(base, exp, sqrt) == Error && Pow(base, exp, sqrt) == Panic
                          && MaclaurinValue(base, exp, PRECISION, sqrt) == Panic
    ensures exp < 0 ==> PowerApproximation(base, exp, sqrt) == Error
    ensures exp >= 9_223_372_036_854_775_808 * BIG ==> Pow(base, exp, sqrt) == Panic
  {
    if exp >= 9_223_372_036_854_775_808 * BIG {
      DivAtLeast(exp, BIG, 9_223_372_036_854_775_808);
    }
  }

  /** For exponent 1/2 it is the square root, or an error. */
  lemma HalfExponent(base: int, sqrt: int -> Option<int>)
    requires base > 0
    ensures match sqrt(base)
            case Some(root) => PowerApproximation(base, HALF, sqrt) == Value(root)
            case None => PowerApproximation(base, HALF, sqrt) == Error
    ensures match sqrt(base)
            case Some(root) => MaclaurinValue(base, HALF, PRECISION, sqrt) == Value(root)
            case None => MaclaurinValue(base, HALF, PRECISION, sqrt) == Panic
  {
  }

  /**
   Pow of n and a fraction g, in 36 digits, for any base: p is the n-th power. It
   is the result if there is no fraction; otherwise the result is p times the
   power of the first 18 fractional digits of the exponent, to a base cut to 18
   digits, that product rounded; it panics if that power fails.
   */
  lemma PowSplits(base: int, n: nat, g: int, sqrt: int -> Option<int>) returns (p: int)
    requires base > 0 && n <= 9_223_372_036_854_775_807 && 0 <= g < BIG
    ensures p >= 0 && IsPower(p, base, n, BIG)
    ensures g == 0 ==> Pow(base, n * BIG + g, sqrt) == Value(p)
    ensures forall d: int, f: int | d * ONE <= base < (d + 1) * ONE && f * ONE <= g < (f + 1) * ONE && g > 0 ::
              IsProduct(Pow(base, n * BIG + g, sqrt), p, PowerApproximation(d, f, sqrt))
  {
    hide PowerApproximation, BigPower, BigMul, IsPower;
    var exp := n * BIG + g;
    p := BigPower(base, n);
    BigPowerIsPower(base, n);
    BigPowerKeepsSide(base, n);
    DivUnique(exp, BIG, n, g);
    assert TruncDiv(exp, BIG) == n && n % TWO_TO_THE_64 == n;
    if g > 0 {
      var d, f := ToDec(base), ToDec(g);
      var r := PowerApproximation(d, f, sqrt);
      if r.Value? && r.value >= 0 {
        BigMulRounds(p, FromDec(r.value));
      }
      assert IsProduct(Pow(base, exp, sqrt), p, r);
    }
  }

  /** w is p times the outcome r of the fractional power, rounded. */
  ghost predicate IsProduct(w: Outcome<int>, p: int, r: Outcome<int>) {
    match r
    case Value(v) => w.Value? && (v >= 0 ==> RoundsTo(w.value, p, v * ONE, BIG))
    case Error => w == Panic
    case Panic => w == Panic
  }

  /** The same for an exponent above 1 that is not whole, in 18 digits: the product is cut to 18 digits. */
  lemma MixedExponent(base: int, n: nat, f: int, sqrt: int -> Option<int>) returns (p: int, w: Outcome<int>)
    requires base > 0 && 1 <= n <= 9_223_372_036_854_775_807 && 0 < f < ONE
    ensures p >= 0 && IsPower(p, base * ONE, n, BIG) && IsProduct(w, p, PowerApproximation(base, f, sqrt))
    ensures match w
            case Value(v) =>
              var r := PowerApproximation(base, n * ONE + f, sqrt);
              r.Value? && (v >= 0 ==> r.value * ONE <= v < (r.value + 1) * ONE)
            case Error => true
            case Panic => PowerApproximation(base, n * ONE + f, sqrt) == Panic
  {
    hide Pow, IsPower, IsProduct, ExpLog, MaclaurinValue;
    var exp := n * ONE + f;
    p := PowSplits(FromDec(base), n, f * ONE, sqrt);
    assert FromDec(exp) == n * BIG + f * ONE;
    w := Pow(FromDec(base), FromDec(exp), sqrt);
    assert base * ONE <= FromDec(base) < (base + 1) * ONE && f * ONE <= f * ONE < (f + 1) * ONE;
    DivUnique(exp, ONE, n, f);
    assert exp % ONE == f && exp > ONE;
  }

  // ----- whole bases -----

  /** A whole base to a whole exponent is exact. */
  lemma WholePowerExact(a: nat, n: nat, sqrt: int -> Option<int>)
    requires a > 0 && n <= MAX_INT64
    ensures PowerApproximation(a * ONE, n * ONE, sqrt) == Value(IntPow(a, n) * ONE)
  {
    hide Power, ExpLog, MaclaurinValue, Pow;
    PowerOfWhole(a, n);
    assert (n * ONE) % ONE == 0;
    assert Truncate(n * ONE) == n;
    if n == 1 {
      IntPowOne(a);
    }
  }

  /** Pow splits off the whole part without loss for a whole base: a^(n + f) is
      exactly a^n times the fractional power, in 18 digits and in 36. */
  lemma WholeBaseSplits(a: nat, n: nat, f: int, sqrt: int -> Option<int>)
    requires a > 0 && n <= MAX_INT64 && 0 < f < ONE
    ensures Pow(a * BIG, n * BIG + FromDec(f), sqrt)
            == match PowerApproximation(a * ONE, f, sqrt)
               case Value(r) => Value(BigMul(IntPow(a, n) * BIG, FromDec(r)))
               case Error => Panic
               case Panic => Panic
    ensures PowerApproximation(a * ONE, f, sqrt).Value? && PowerApproximation(a * ONE, f, sqrt).value >= 0 ==>
              Pow(a * BIG, n * BIG + FromDec(f), sqrt)
              == Value(IntPow(a, n) * FromDec(PowerApproximation(a * ONE, f, sqrt).value))
  {
    hide PowerApproximation, BigPower, BigMul;
    var exp := n * BIG + FromDec(f);
    BigPowerOfWhole(a, n);
    IntPowNonNegative(a, n);
    DivUnique(exp, BIG, n, FromDec(f));
    assert TruncDiv(exp, BIG) == n && n % TWO_TO_THE_64 == n;
    assert ToDec(a * BIG) == a * ONE && ToDec(FromDec(f)) == f;
    var r := PowerApproximation(a * ONE, f, sqrt);
    if r.Value? && r.value >= 0 {
      BigMulExact(IntPow(a, n), FromDec(r.value));
    }
  }

  lemma {:induction false} IntPowNonNegative(a: nat, n: nat)
    ensures IntPow(a, n) >= 0
  {
    if n > 0 {
      IntPowNonNegative(a, n - 1);
      ScaleOrder(a, 0, IntPow(a, n - 1));
    }
  }

  // ----- all exponents -----

  /** The same for every exponent: whole powers, and Pow for the rest. */
  lemma PowerSide(base: int, exp: int, sqrt: int -> Option<int>)
    requires PowerApproximation(base, exp, sqrt).Value? && SqrtContract(sqrt)
    ensures base > 0 && SameSide(base, PowerApproximation(base, exp, sqrt).value, ONE)
    decreases if exp > ONE then 2 else 0
  {
    hide ExpLog, MaclaurinValue, Pow, Power;
    if exp <= ONE {
      FractionalPowerSide(base, exp, sqrt);
    } else if exp % ONE == 0 && exp <= (TWO_TO_THE_64 - 1) * ONE {
      PowerKeepsSide(base, Truncate(exp));
    } else {
      PowSide(FromDec(base), FromDec(exp), sqrt);
    }
  }

  /** Pow keeps the side of 1, over 36-digit bases and exponents. That includes
      negative exponents, whose whole part wraps to an unsigned count, so there
      the result is not the reciprocal power. */
  lemma PowSide(base: int, exp: int, sqrt: int -> Option<int>)
    requires Pow(base, exp, sqrt).Value? && SqrtContract(sqrt)
    ensures base > 0 && SameSide(base, Pow(base, exp, sqrt).value, BIG)
    decreases 1
  {
    hide PowerApproximation, BigPower, BigMul;
    var integer := TruncDiv(exp, BIG);
    var fractional := exp - integer * BIG;
    assert -BIG < fractional < BIG;
    var n := integer % TWO_TO_THE_64;
    BigPowerKeepsSide(base, n);
    var integerPow := BigPower(base, n);
    if fractional != 0 {
      if ToDec(fractional) < 0 {
        NegativeExponent(ToDec(base), ToDec(fractional), sqrt);
        assert false;
      }
      FractionalPowerSide(ToDec(base), ToDec(fractional), sqrt);
      var f := PowerApproximation(ToDec(base), ToDec(fractional), sqrt).value;
      BigMulSide(integerPow, FromDec(f));
    }
  }

  /**
   A negative exponent gives a value exactly if it has no digits within the first
   18 fractional places (and if the base has some there, should the exponent have
   further digits); that value is the power with the whole part wrapped to 64
   bits. It is on the base's side of 1. The power itself is on the other side, so
   it is met at most by a base or a value of 1.
   */
  lemma NegativeExponents(base: int, exp: int, sqrt: int -> Option<int>)
    requires exp < 0
    ensures var whole := TruncDiv(exp, BIG);
            var rest := exp - whole * BIG;
            if base > 0 && whole >= -MAX_INT64 - 1 && (rest == 0 || (ToDec(rest) == 0 && ToDec(base) > 0)) then
              Pow(base, exp, sqrt).Value? && IsPower(Pow(base, exp, sqrt).value, base, whole % TWO_TO_THE_64, BIG)
            else Pow(base, exp, sqrt) == Panic
    ensures Pow(base, exp, sqrt).Value? ==> SameSide(base, Pow(base, exp, sqrt).value, BIG)
  {
    hide BigPower, BigMul, IsPower;
    var whole := TruncDiv(exp, BIG);
    var rest := exp - whole * BIG;
    var n := whole % TWO_TO_THE_64;
    BigPowerKeepsSide(base, n);
    if base > 0 {
      BigPowerIsPower(base, n);
    }
    BigMulOne(BigPower(base, n));
    if rest != 0 && ToDec(rest) < 0 {
      NegativeExponent(ToDec(base), ToDec(rest), sqrt);
    }
  }

  /** 2 to the -1 is no less than 1. */
  lemma NegativeExponentFails(sqrt: int -> Option<int>)
    ensures Pow(2 * BIG, -BIG, sqrt).Value? && Pow(2 * BIG, -BIG, sqrt).value >= BIG
  {
    hide BigPower;
    NegativeExponents(2 * BIG, -BIG, sqrt);
  }

  lemma NegativeExponent(base: int, exp: int, sqrt: int -> Option<int>)
    requires exp < 0
    ensures PowerApproximation(base, exp, sqrt) == Error
  {
  }

  // ----- which calls return -----

  /**
   Fractional exponents other than 1/2, and bases of up to 10^15 binary digits:
   for each exponent there is a base tm in [1.999956652671814, 2), and for all of
   them a number tl, 1.999956652671816 to 2000 ulp, so that a value is returned
   exactly for bases up to tm, for 2, and for bases above 2 that reduce to at
   most tl. Between tm and 2 the call panics, above 2 it is an error. From
   exponent 1/2 on, and up to 0.00149, there is no base between tm and 2; from
   0.00155 to 0.399 there is one.
   */
  lemma ReturnsExactly(exp: int, bits: nat, sqrt: int -> Option<int>) returns (tm: int, tl: int)
    requires 0 < exp < ONE && exp != HALF && bits < 1_000_000_000_000_000
    ensures ONE + LOW <= tm < TWO && ONE + LOW <= tl < ONE + HIGH
    ensures exp > HALF || exp <= 1_490_000_000_000_000 ==> tm == TWO - 1
    ensures 1_550_000_000_000_000 <= exp <= 399_000_000_000_000_000 ==> tm < TWO - 1
    ensures forall base | 0 < base <= Pow2(bits) ::
              PowerApproximation(base, exp, sqrt).Value?
              <==> base <= tm || base == TWO || (base > TWO && Reduced(base).0 <= tl)
    ensures forall base | 0 < base <= Pow2(bits) ::
              PowerApproximation(base, exp, sqrt) == Panic <==> tm < base < TWO
  {
    hide MaclaurinValue, Ln, Reduced, ExpLog, Pow2;
    tl := LnExactly();
    tm := MaclaurinExactly(exp, sqrt);
    if exp > HALF || exp <= 1_490_000_000_000_000 {
      AlwaysReturns(TWO - 1, exp, sqrt);
    } else if 1_550_000_000_000_000 <= exp <= 399_000_000_000_000_000 {
      PanicsNearTwo(exp, sqrt);
    }
    forall base | 0 < base <= Pow2(bits)
      ensures PowerApproximation(base, exp, sqrt).Value?
              <==> base <= tm || base == TWO || (base > TWO && Reduced(base).0 <= tl)
      ensures PowerApproximation(base, exp, sqrt) == Panic <==> tm < base < TWO
    {
      if base < HALF {
        LnReturns(base);
        ExpLogReturns(base, exp, bits);
      } else if base >= TWO {
        LnOfTwo();
        ExpLogReturns(base, exp, bits);
      }
    }
  }

  lemma LnOfTwo()
    ensures Ln(TWO) == Some(LN2)
  {
  }

  /** The exp/log method returns exactly when the logarithm does; otherwise it is an error. */
  lemma ExpLogReturns(base: int, exp: int, bits: nat)
    requires base <= Pow2(bits) && bits < 1_000_000_000_000_000 && 0 <= exp <= ONE
    ensures if Ln(base).Some? then ExpLog(base, exp).Value? else ExpLog(base, exp) == Error
  {
    hide Ln, Exp, Mul, Pow2;
    if Ln(base).Some? {
      ProductInRange(base, exp, bits);
      ExpDefined(Mul(exp, Ln(base).value));
    }
  }

  lemma ExpDefined(x: int)
    requires x <= 1_000_000_000_000_000 * ONE
    ensures Exp(x).Some?
  {
    if -42 * ONE < x && x != 0 && x != ONE {
      ExpReturns(x);
    }
  }

  /** 4, 8, 16, ... to a fractional exponent other than 1/2 is an error. */
  lemma PowersOfTwoFail(j: nat, exp: int, sqrt: int -> Option<int>)
    requires j >= 2 && 0 < exp < ONE && exp != HALF
    ensures PowerApproximation(Pow2(j) * ONE, exp, sqrt) == Error
  {
    hide Ln;
    LnFailures(j);
    Pow2Monotone(2, j);
    assert Pow2(2) == 4;
  }
}
