/** Powers with a fractional exponent by the binomial series (utils/pow_approx.go). */
module Maclaurin {
  import opened Basics
  import opened Decimal
  import opened Exponential
  import opened MutableDecimal
  import opened RealDecimal
  import opened BinomialSeries

  /** What a call can end in: a value, a returned error, or a panic. */
  datatype Outcome<+T> = Value(value: T) | Error | Panic

  function NextMagnitude(term: int, c: int, x: int, i: nat): int
    requires i >= 1
  {
    Quo(Mul(Mul(term, c), x), i * ONE)
  }

  /** The loop from the head of its i-th pass on, when at most `limit` passes may be made. */
  function SeriesFrom(x: int, xneg: bool, exp: int, i: nat, term: int, sum: int, negative: bool,
                      precision: int, limit: nat): Outcome<int>
    requires 1 <= i <= limit
    decreases limit - i, x
  {
    if term < precision then Value(sum)
    else
      var c := exp - (i - 1) * ONE;
      var t := NextMagnitude(term, Abs(c), x, i);
      if t == 0 then Value(sum)
      else
        var negative' := (negative != xneg) != (c < 0);
        var sum' := if negative' then sum - t else sum + t;
        if i == limit then Panic
        else SeriesFrom(x, xneg, exp, i + 1, t, sum', negative', precision, limit)
  }

  function FromSqrt(s: Option<int>, failure: Outcome<int>): Outcome<int> {
    match s
    case Some(v) => Value(v)
    case None => failure
  }

  function MaclaurinValue(base: int, exp: int, precision: int, sqrt: int -> Option<int>): Outcome<int> {
    if base <= 0 then Panic
    else if exp == 0 then Value(ONE)
    else if exp == HALF then FromSqrt(sqrt(base), Panic)
    else SeriesFrom(Abs(base - ONE), base < ONE, exp, 1, ONE, ONE, false, precision, LIMIT)
  }

  // ----- one term -----

  lemma QuoByWhole(m: nat, i: nat)
    requires i >= 1
    ensures var q := Quo(m, i * ONE);
            && q >= 0 && 2 * i * q <= 2 * m + i
            && (2 * i < ONE ==> 2 * i * q >= 2 * m - i)
  {
    var n := (m * ONE) / i;
    QuoOfWhole(m, i);
    hide Chop, Quo;
    ChopNearest(n);
    NearShare(m, i, n, (m * ONE) % i, Chop(n));
  }

  lemma QuoOfWhole(m: nat, i: nat)
    requires i >= 1
    ensures Quo(m, i * ONE) == Chop((m * ONE) / i) && (m * ONE) / i >= 0
    ensures m * ONE == i * ((m * ONE) / i) + (m * ONE) % i
  {
    hide Chop;
    DivCancel(m * ONE, i, ONE);
  }

  lemma NearShare(m: nat, i: nat, n: int, r: int, q: int)
    requires i >= 1 && m * ONE == i * n + r && 0 <= r < i && -ONE <= 2 * (q * ONE - n) <= ONE
    ensures 2 * i * q <= 2 * m + i && (2 * i < ONE ==> 2 * i * q >= 2 * m - i)
  {
    ScaleOrder(i, 2 * n - ONE, 2 * q * ONE);
    ScaleOrder(i, 2 * q * ONE, 2 * n + ONE);
    assert i * (2 * q * ONE) == 2 * i * q * ONE && i * (2 * n + ONE) == 2 * (i * n) + i * ONE
        && i * (2 * n - ONE) == 2 * (i * n) - i * ONE;
  }

  lemma CutQuotient(m: nat, i: nat, v: int)
    requires i >= 1 && m <= i * v
    ensures 0 <= Quo(m, i * ONE) <= v
  {
    hide Quo;
    QuoByWhole(m, i);
    var q := Quo(m, i * ONE);
    if q > v {
      ScaleOrder(i, v + 1, q);
      assert false;
    }
  }

  /** With |c| <= max(1, i-1) and |x| <= 1 a term never exceeds the one before. */
  lemma TermsShrink(term: nat, c: int, x: int, i: nat)
    requires i >= 1 && 0 <= x <= ONE
    requires 0 <= c <= (if i == 1 then ONE else (i - 1) * ONE)
    ensures 0 <= NextMagnitude(term, c, x, i) <= term
  {
    hide Chop, Quo;
    var bound := if i == 1 then 1 else i - 1;
    var m := Mul(term, c);
    assert 0 <= m <= term * bound by {
      ScaleOrder(term, 0, c);
      ScaleOrder(term, c, bound * ONE);
      assert term * (bound * ONE) == (term * bound) * ONE;
      ChopNearest(term * c);
      ChopAtMost(term * c, term * bound);
    }
    Shrink2(m, x);
    ScaleOrder(term, bound, i);
    CutQuotient(Mul(m, x), i, term);
  }

  lemma Shrink2(m: nat, x: int)
    requires 0 <= x <= ONE
    ensures 0 <= Mul(m, x) <= m
  {
    MulFraction(m, x);
  }

  lemma FirstMagnitude(exp: int, x: int)
    requires exp >= 0 && x >= 0
    ensures NextMagnitude(ONE, exp, x, 1) == Mul(exp, x) >= 0
  {
    hide Chop, TruncDiv;
    MulExact(1, exp);
    ScaleOrder(exp, 0, x);
    ChopNearest(exp * x);
    QuoByWhole(Mul(exp, x), 1);
  }

  // ----- base >= 1: signs alternate -----

  lemma {:induction false} Alternates(x: int, exp: int, i: nat, term: nat, sum: int, negative: bool, precision: int)
    requires 2 <= i <= LIMIT && 0 <= x <= ONE && 0 <= exp <= ONE
    ensures var r := SeriesFrom(x, false, exp, i, term, sum, negative, precision, LIMIT);
            r.Value? ==> if negative then sum <= r.value <= sum + term else sum - term <= r.value <= sum
    decreases LIMIT - i
  {
    hide NextMagnitude;
    var c := (i - 1) * ONE - exp;
    TermsShrink(term, c, x, i);
    var t := NextMagnitude(term, c, x, i);
    if term >= precision && t != 0 && i < LIMIT && exp < (i - 1) * ONE {
      Alternates(x, exp, i + 1, t, if negative then sum + t else sum - t, !negative, precision);
    } else if exp == (i - 1) * ONE {
      ZeroFactor(term, x, i);
    }
  }

  lemma ZeroFactor(term: int, x: int, i: nat)
    requires i >= 1
    ensures NextMagnitude(term, 0, x, i) == 0
  {
    assert term * 0 == 0 && 0 * x == 0;
    CutQuotient(0, i, 0);
  }

  // ----- base < 1: every term is subtracted -----

  lemma {:induction false} Descends(x: int, exp: int, i: nat, term: nat, sum: int, precision: int)
    requires 2 <= i <= LIMIT && 0 <= x <= ONE && 0 <= exp <= ONE
    ensures var r := SeriesFrom(x, true, exp, i, term, sum, true, precision, LIMIT);
            r.Value? ==> r.value <= sum
    decreases LIMIT - i
  {
    hide NextMagnitude;
    var c := (i - 1) * ONE - exp;
    TermsShrink(term, c, x, i);
    var t := NextMagnitude(term, c, x, i);
    if term >= precision && t != 0 && i < LIMIT && exp < (i - 1) * ONE {
      Descends(x, exp, i + 1, t, sum - t, precision);
    } else if exp == (i - 1) * ONE {
      ZeroFactor(term, x, i);
    }
  }

  /**
   Bernoulli's inequality survives the rounding: for 0 <= exp <= 1 and base in
   (0, 2] a returned sum is at most 1 + exp * (base - 1), that product rounded;
   for base >= 1 it is at least 1.
   */
  lemma Bernoulli(base: int, exp: int, precision: int)
    requires 0 < base <= TWO && 0 <= exp <= ONE && precision <= ONE
    requires SeriesFrom(Abs(base - ONE), base < ONE, exp, 1, ONE, ONE, false, precision, LIMIT).Value?
    ensures var r := SeriesFrom(Abs(base - ONE), base < ONE, exp, 1, ONE, ONE, false, precision, LIMIT).value;
            r <= ONE + Mul(exp, base - ONE) && (base >= ONE ==> r >= ONE)
  {
    hide NextMagnitude, Mul;
    var x := Abs(base - ONE);
    FirstMagnitude(exp, x);
    MulNegate(exp, x);
    var t := NextMagnitude(ONE, exp, x, 1);
    if t != 0 {
      if base >= ONE {
        Alternates(x, exp, 2, t, ONE + t, false, precision);
      } else {
        Descends(x, exp, 2, t, ONE - t, precision);
      }
    }
  }

  // ----- the exact series -----

  function Signed(negative: bool, t: real): real {
    if negative then -t else t
  }

  lemma ErrorParts(term: real, exact: real, c: real, x: real, i: real, m1: real, m2: real, t: real)
    ensures i * t - exact * c * x == (i * t - m2) + (m2 - m1 * x) + (m1 - term * c) * x + (term - exact) * (c * x)
  {
  }

  /** One pass: two rounded products and a rounded division by i. */
  ghost predicate Rounded(term: real, c: real, x: real, i: real, m1: real, m2: real, t: real) {
    && -1.0 <= 2.0 * (m1 - term * c) <= 1.0
    && -1.0 <= 2.0 * (m2 - m1 * x) <= 1.0
    && -i <= 2.0 * (i * t - m2) <= i
  }

  /** How far the n-th term may be off, in ulp; `far` says that |x| exceeds 1/2. */
  function Slack(far: bool, n: nat): real {
    if !far then 2.5 else if n == 0 then 0.0 else (n as real + 5.0) / 4.0
  }

  /** How far the sum of the first n terms may be off. */
  function Total(far: bool, n: nat): real {
    if !far then 2.5 * n as real else n as real * (n as real + 11.0) / 8.0
  }

  lemma TotalGrows(far: bool, n: nat)
    requires n >= 1
    ensures Total(far, n - 1) + Slack(far, n) == Total(far, n)
  {
  }

  /** What a pass keeps of an inherited error e leaves room for its three roundings. */
  ghost predicate Room(e: real, c: real, x: real, i: real, bound: real) {
    Magnitude(e * (c * x)) + 0.5 * i + 0.5 + 0.5 * x <= i * bound
  }

  lemma RoomForRounding(far: bool, i: nat, e: real, c: real, x: real)
    requires i >= 1 && 0.0 <= c <= (if i == 1 then 1.0 else (i - 1) as real)
    requires 0.0 <= x <= (if far then 1.0 else 0.5) && Magnitude(e) <= Slack(far, i - 1)
    ensures Room(e, c, x, i as real, Slack(far, i))
  {
    hide Slack;
    var bound, most := if i == 1 then 1.0 else (i - 1) as real, if far then 1.0 else 0.5;
    ProductOrder(c, x, bound, most);
    MagnitudeOfProduct(e, c * x);
    ProductOrder(Magnitude(e), c * x, Slack(far, i - 1), bound * most);
    SlackGrows(far, i);
  }

  lemma SlackGrows(far: bool, i: nat)
    requires i >= 1
    ensures var bound, most := if i == 1 then 1.0 else (i - 1) as real, if far then 1.0 else 0.5;
            Slack(far, i - 1) * (bound * most) + 0.5 * i as real + 0.5 + 0.5 * most <= i as real * Slack(far, i)
  {
  }

  lemma ErrorStep(term: real, exact: real, c: real, x: real, i: real, m1: real, m2: real, t: real, bound: real)
    requires i >= 1.0 && x >= 0.0 && Rounded(term, c, x, i, m1, m2, t) && Room(term - exact, c, x, i, bound)
    ensures Magnitude(t - Advance(exact, c, x, i)) <= bound
  {
    hide Rounded, Room;
    ErrorSum(term, exact, c, x, i, m1, m2, t, bound);
    CompareScaled(i, t, exact * c * x, bound);
  }

  lemma ErrorSum(term: real, exact: real, c: real, x: real, i: real, m1: real, m2: real, t: real, bound: real)
    requires i >= 1.0 && x >= 0.0 && Rounded(term, c, x, i, m1, m2, t) && Room(term - exact, c, x, i, bound)
    ensures -(i * bound) <= i * t - exact * c * x <= i * bound
  {
    HalfError(m1 - term * c, x);
    ErrorParts(term, exact, c, x, i, m1, m2, t);
    AddErrors(i * t - exact * c * x, i * t - m2, m2 - m1 * x, (m1 - term * c) * x, (term - exact) * (c * x), i, x,
              i * bound);
  }

  lemma HalfError(d: real, x: real)
    requires -1.0 <= 2.0 * d <= 1.0 && x >= 0.0
    ensures Magnitude(d * x) <= 0.5 * x
  {
    BoundedProduct(d, x, 0.5, x);
  }

  lemma AddErrors(sum: real, d: real, e: real, v: real, u: real, i: real, x: real, bound: real)
    requires sum == d + e + v + u && -i <= 2.0 * d <= i && -1.0 <= 2.0 * e <= 1.0
    requires Magnitude(v) <= 0.5 * x && Magnitude(u) + 0.5 * i + 0.5 + 0.5 * x <= bound
    ensures -bound <= sum <= bound
  {
  }

  lemma CompareScaled(i: real, t: real, p: real, bound: real)
    requires i >= 1.0 && -(i * bound) <= i * t - p <= i * bound
    ensures Magnitude(t - p / i) <= bound
  {
    var gap := t - p / i;
    assert i * gap == i * t - p;
    Unscale(i, gap, bound);
  }

  lemma UnfoldTerm(a: real, x: real, k: nat)
    requires k >= 1
    ensures Term(a, x, k) == Advance(Term(a, x, k - 1), a - (k - 1) as real, x, k as real)
  {
  }

  lemma SignedFraction(c: int)
    ensures Fraction(c) == Signed(c < 0, Fraction(Abs(c)))
  {
  }

  lemma SubtractWhole(a: int, k: int)
    ensures Fraction(a - k * ONE) == Fraction(a) - k as real
  {
  }

  lemma FractionRange(c: nat, i: int)
    ensures c <= i * ONE ==> 0.0 <= Fraction(c) <= i as real
    ensures c <= HALF ==> 0.0 <= Fraction(c) <= 0.5
    ensures c <= ONE ==> 0.0 <= Fraction(c) <= 1.0
  {
  }

  lemma NextExact(base: int, exp: int, i: nat, negative: bool)
    requires i >= 1
    ensures var c, x, a, y := exp - (i - 1) * ONE, base - ONE, Fraction(exp), Fraction(base - ONE);
            var negative' := (negative != (x < 0)) != (c < 0);
            Signed(negative', Term(a, y, i))
            == Advance(Signed(negative, Term(a, y, i - 1)), Fraction(Abs(c)), Fraction(Abs(x)), i as real)
  {
    var c, x, a, y := exp - (i - 1) * ONE, base - ONE, Fraction(exp), Fraction(base - ONE);
    hide *;
    UnfoldTerm(a, y, i);
    SubtractWhole(exp, i - 1);
    SignedFraction(c);
    SignedFraction(x);
    SignsCancel(Term(a, y, i - 1), a - (i - 1) as real, y, Fraction(Abs(c)), Fraction(Abs(x)), i as real,
                negative, c < 0, x < 0);
  }

  lemma SignsCancel(t: real, u: real, v: real, c: real, x: real, i: real, n: bool, cneg: bool, xneg: bool)
    requires i >= 1.0 && u == Signed(cneg, c) && v == Signed(xneg, x)
    ensures Signed((n != xneg) != cneg, Advance(t, u, v, i)) == Advance(Signed(n, t), c, x, i)
  {
  }

  lemma Roundings(term: nat, c: nat, x: nat, i: nat)
    requires 1 <= i <= LIMIT
    ensures var m1 := Mul(term, c);
            var m2 := Mul(m1, x);
            var t := NextMagnitude(term, c, x, i);
            Rounded(term as real, Fraction(c), Fraction(x), i as real, m1 as real, m2 as real, t as real)
  {
    hide Mul, Quo;
    MulReal(term, c);
    var m1 := Mul(term, c);
    MulReal(m1, x);
    var m2 := Mul(m1, x);
    ProductNonNegative(term, c);
    ProductNonNegative(m1, x);
    QuoByWhole(m2, i);
    QuotientError(i, Quo(m2, i * ONE), m2);
  }

  lemma MagnitudeError(far: bool, term: nat, c: nat, x: nat, i: nat, exact: real)
    requires 1 <= i <= LIMIT && c <= (if i == 1 then ONE else (i - 1) * ONE) && x <= (if far then ONE else HALF)
    requires Magnitude(term as real - exact) <= Slack(far, i - 1)
    ensures var t := NextMagnitude(term, c, x, i);
            Magnitude(t as real - Advance(exact, Fraction(c), Fraction(x), i as real)) <= Slack(far, i)
  {
    hide *;
    FractionRange(c, if i == 1 then 1 else i - 1);
    FractionRange(x, 1);
    Roundings(term, c, x, i);
    var m1 := Mul(term, c);
    RoomForRounding(far, i, term as real - exact, Fraction(c), Fraction(x));
    ErrorStep(term as real, exact, Fraction(c), Fraction(x), i as real, m1 as real, Mul(m1, x) as real,
              NextMagnitude(term, c, x, i) as real, Slack(far, i));
  }

  lemma QuotientError(i: int, t: int, m: int)
    requires 2 * m - i <= 2 * i * t <= 2 * m + i
    ensures -(i as real) <= 2.0 * (i as real * t as real - m as real) <= i as real
  {
  }

  lemma ProductNonNegative(a: nat, b: nat)
    ensures Mul(a, b) >= 0
  {
  }

  /** With |x| <= 0.5 a term is at most half the one before, plus one ulp. */
  lemma TermsHalve(term: nat, c: nat, x: nat, i: nat)
    requires i >= 1 && c <= i * ONE && x <= HALF
    ensures 0 <= NextMagnitude(term, c, x, i)
    ensures 2 * NextMagnitude(term, c, x, i) <= term + 2
  {
    hide Mul, Quo;
    var m1 := Mul(term, c);
    assert 0 <= m1 <= term * i by {
      MulAtMostWhole(term, c, i);
    }
    ProductNonNegative(m1, x);
    MulMagnitude(m1, x, HALF);
    var m2 := Mul(m1, x);
    assert 2 * m2 <= term * i + 1;
    QuoByWhole(m2, i);
    HalfQuotient(term, i, m2, Quo(m2, i * ONE));
  }

  lemma MulAtMostWhole(term: nat, c: nat, i: nat)
    requires c <= i * ONE
    ensures 0 <= Mul(term, c) <= term * i
  {
  }

  lemma HalfQuotient(term: nat, i: nat, m: nat, q: int)
    requires i >= 1 && 2 * m <= term * i + 1 && 2 * i * q <= 2 * m + i
    ensures 2 * q <= term + 2
  {
    assert i * (term + 3) == term * i + 3 * i && i * (2 * q) == 2 * i * q;
    if 2 * q >= term + 3 {
      ScaleOrder(i, term + 3, 2 * q);
      assert false;
    }
  }

  /** The state at the head of pass i is near the exact series cut before term i. */
  ghost predicate Near(base: int, exp: int, i: nat, term: int, sum: int, negative: bool)
    requires i >= 1
  {
    var a, y, far := Fraction(exp), Fraction(base - ONE), Abs(base - ONE) > HALF;
    && term >= 0
    && Magnitude(term as real - ULPS * Signed(negative, Term(a, y, i - 1))) <= Slack(far, i - 1)
    && Magnitude(sum as real - ULPS * Partial(a, y, i - 1)) <= Total(far, i - 1)
  }

  lemma NearStep(base: int, exp: int, i: nat, term: int, sum: int, negative: bool)
    requires 1 <= i <= LIMIT && HALF <= base <= TWO && 0 <= exp <= ONE
    requires Near(base, exp, i, term, sum, negative)
    ensures var c := exp - (i - 1) * ONE;
            var t := NextMagnitude(term, Abs(c), Abs(base - ONE), i);
            var negative' := (negative != (base < ONE)) != (c < 0);
            Near(base, exp, i + 1, t, if negative' then sum - t else sum + t, negative')
  {
    hide NextMagnitude, Term, Partial, Fraction, Advance, Slack, Total;
    var c, x, a, y := exp - (i - 1) * ONE, base - ONE, Fraction(exp), Fraction(base - ONE);
    var t, far := NextMagnitude(term, Abs(c), Abs(x), i), Abs(x) > HALF;
    var negative' := (negative != (x < 0)) != (c < 0);
    var exact := Signed(negative, Term(a, y, i - 1));
    var scaled := ULPS * exact;
    MagnitudeError(far, term, Abs(c), Abs(x), i, scaled);
    TermsShrink(term, Abs(c), Abs(x), i);
    NextExact(base, exp, i, negative);
    ScaleThrough(exact, scaled, Fraction(Abs(c)), Fraction(Abs(x)), i as real);
    NextPartial(a, y, i);
    TotalGrows(far, i);
    SumStep(sum as real, t as real, Partial(a, y, i - 1), Term(a, y, i), negative', Slack(far, i), Total(far, i - 1));
  }

  lemma SumStep(s: real, t: real, p: real, u: real, negative: bool, slack: real, total: real)
    requires Magnitude(t - ULPS * Signed(negative, u)) <= slack && Magnitude(s - ULPS * p) <= total
    ensures Magnitude((if negative then s - t else s + t) - ULPS * (p + u)) <= total + slack
  {
  }

  lemma ScaleThrough(e: real, s: real, c: real, x: real, i: real)
    requires i >= 1.0 && s == ULPS * e
    ensures Advance(s, c, x, i) == ULPS * Advance(e, c, x, i)
  {
  }

  lemma NextPartial(a: real, x: real, n: nat)
    requires n >= 1
    ensures Partial(a, x, n) == Partial(a, x, n - 1) + Term(a, x, n)
  {
  }

  /** What the loop's stopping tests say of the first exact term left out. */
  ghost predicate StopsAt(base: int, exp: int, n: nat) {
    var next := ULPS * Magnitude(Term(Fraction(exp), Fraction(base - ONE), n + 1));
    if base <= ONE + HALF then 2.0 * next <= PRECISION as real + 1.5
    else next <= PRECISION as real + Slack(true, n + 1)
  }

  lemma StopsOnSmallTerm(base: int, exp: int, n: nat, term: int, negative: bool)
    requires HALF <= base <= TWO && 0 <= exp <= ONE && 0 <= term < PRECISION
    requires var far := Abs(base - ONE) > HALF;
             Magnitude(term as real - ULPS * Signed(negative, Term(Fraction(exp), Fraction(base - ONE), n)))
             <= Slack(far, n)
    ensures StopsAt(base, exp, n)
  {
    hide Term, Fraction;
    var a, y := Fraction(exp), Fraction(base - ONE);
    UnitRange(exp);
    UnitRange(Abs(base - ONE));
    SignedFraction(base - ONE);
    FractionRange(Abs(base - ONE), 1);
    TermRatio(a, y, n, if base <= ONE + HALF then 0.5 else 1.0);
  }

  lemma UnitRange(c: int)
    ensures 0 <= c <= ONE ==> 0.0 <= Fraction(c) <= 1.0
  {
  }

  lemma StopsOnZero(base: int, exp: int, n: nat, negative: bool)
    requires HALF <= base <= TWO
    requires var far := Abs(base - ONE) > HALF;
             Magnitude(-ULPS * Signed(negative, Term(Fraction(exp), Fraction(base - ONE), n + 1))) <= Slack(far, n + 1)
    ensures StopsAt(base, exp, n)
  {
    hide Term, Fraction;
  }

  /**
   The loop from its i-th pass on, where it returns, ends with a sum near the
   exact one cut after n terms, one term a pass; and the next exact term is as
   small as the stopping tests ask.
   */
  lemma {:induction false} Tracks(base: int, exp: int, i: nat, term: int, sum: int, negative: bool, limit: nat)
    returns (n: nat)
    requires 1 <= i <= limit <= LIMIT && HALF <= base <= TWO && 0 <= exp <= ONE
    requires Near(base, exp, i, term, sum, negative)
    requires SeriesFrom(Abs(base - ONE), base < ONE, exp, i, term, sum, negative, PRECISION, limit).Value?
    ensures i - 1 <= n < limit && StopsAt(base, exp, n)
    ensures var r := SeriesFrom(Abs(base - ONE), base < ONE, exp, i, term, sum, negative, PRECISION, limit).value;
            Magnitude(r as real - ULPS * Partial(Fraction(exp), Fraction(base - ONE), n)) <= Total(base > ONE + HALF, n)
    decreases limit - i
  {
    hide NextMagnitude, Term, Partial, Fraction, Slack, Total, StopsAt;
    n := i - 1;
    if term < PRECISION {
      StopsOnSmallTerm(base, exp, n, term, negative);
    } else {
      NearStep(base, exp, i, term, sum, negative);
      var c := exp - (i - 1) * ONE;
      var t := NextMagnitude(term, Abs(c), Abs(base - ONE), i);
      var negative' := (negative != (base < ONE)) != (c < 0);
      if t == 0 {
        StopsOnZero(base, exp, n, negative');
      } else {
        n := Tracks(base, exp, i + 1, t, if negative' then sum - t else sum + t, negative', limit);
      }
    }
  }

  /** For |x| <= 1/2 terms halve, so at most 27 passes are made: a limit of 28 never bites. */
  lemma {:induction false} FewPasses(x: nat, neg: bool, exp: int, i: nat, term: nat, sum: int, negative: bool, limit: nat)
    requires x <= HALF && 0 <= exp <= ONE && 1 <= i <= 28 <= limit && (term - 2) * Pow2(i - 1) <= ONE
    ensures var r := SeriesFrom(x, neg, exp, i, term, sum, negative, PRECISION, limit);
            r.Value? && r == SeriesFrom(x, neg, exp, i, term, sum, negative, PRECISION, 28)
    decreases 28 - i
  {
    hide NextMagnitude, Pow2;
    if term >= PRECISION {
      BudgetRunsOut(term - 2, i - 1);
      var c := exp - (i - 1) * ONE;
      var t := NextMagnitude(term, Abs(c), x, i);
      TermsHalve(term, Abs(c), x, i);
      BudgetHalves(t, term, i);
      var negative' := (negative != neg) != (c < 0);
      if t != 0 {
        FewPasses(x, neg, exp, i + 1, t, if negative' then sum - t else sum + t, negative', limit);
      }
    }
  }

  lemma BudgetHalves(t: int, term: int, i: nat)
    requires i >= 1 && t >= 0 && 2 * t <= term + 2 && term >= 2 && (term - 2) * Pow2(i - 1) <= ONE
    ensures (t - 2) * Pow2(i) <= ONE
  {
    if t >= 2 {
      HalvingBudget(t - 2, term - 2, i - 1);
    } else {
      ScaleOrder(Pow2(i), t - 2, 0);
    }
  }

  /** What the roundings and the terms left out can add up to: in ulp, of which 10^10 are the precision. */
  function Accuracy(base: int): real {
    if base <= ONE + HALF then PRECISION as real + 69.0 else 13_000_000_000.0
  }

  lemma TotalAtMost(far: bool, n: nat)
    requires n <= (if far then LIMIT else 27)
    ensures Total(far, n) <= if far then 2_813_000_000.0 else 67.5
    ensures Slack(true, n + 1) <= 40_000.0 + n as real
  {
    if far {
      ProductOrder(n as real, n as real + 11.0, LIMIT as real, LIMIT as real + 11.0);
    }
  }

  /**
   The fixed-point routine refines the exact series. Whenever it returns, which
   for base in [0.5, 1.5] is always, its value is within `Accuracy` of every
   partial sum from the n-th on: 10^-8 and 69 ulp for base up to 1.5, where at
   most 27 passes are made, and 1.3 * 10^-8 up to 2, for all that may be made there.
   */
  lemma RefinesExactSeries(base: int, exp: int, sqrt: int -> Option<int>) returns (n: nat)
    requires HALF <= base <= TWO && 0 < exp <= ONE && exp != HALF
    requires base <= ONE + HALF || MaclaurinValue(base, exp, PRECISION, sqrt).Value?
    ensures n < (if base <= ONE + HALF then 28 else LIMIT)
    ensures base <= ONE + HALF ==>
              MaclaurinValue(base, exp, PRECISION, sqrt)
              == SeriesFrom(Abs(base - ONE), base < ONE, exp, 1, ONE, ONE, false, PRECISION, 28)
    ensures var r, a, y := MaclaurinValue(base, exp, PRECISION, sqrt), Fraction(exp), Fraction(base - ONE);
            && r.Value?
            && Magnitude(r.value as real - ULPS * Partial(a, y, n)) <= Total(base > ONE + HALF, n)
            && forall m | m >= n :: Magnitude(r.value as real - ULPS * Partial(a, y, m)) <= Accuracy(base)
  {
    hide NextMagnitude, Fraction, Partial, Total, Term;
    var a, y, far := Fraction(exp), Fraction(base - ONE), base > ONE + HALF;
    NothingSummed(a, y, far);
    assert Pow2(0) == 1;
    if !far {
      FewPasses(Abs(base - ONE), base < ONE, exp, 1, ONE, ONE, false, LIMIT);
    }
    n := Tracks(base, exp, 1, ONE, ONE, false, if far then LIMIT else 28);
    var r := MaclaurinValue(base, exp, PRECISION, sqrt).value;
    TotalAtMost(far, n);
    UnitRange(exp);
    FractionRange(Abs(base - ONE), 1);
    SignedFraction(base - ONE);
    var next := Magnitude(Term(a, y, n + 1));
    forall m | m >= n ensures Magnitude(r as real - ULPS * Partial(a, y, m)) <= Accuracy(base) {
      if far {
        AlternatingRest(a, y, n, m);
        NearAll(r as real, Partial(a, y, n), Partial(a, y, m), Total(far, n), ULPS * next);
      } else {
        HalvingRest(a, y, n, m);
        NearAll(r as real, Partial(a, y, n), Partial(a, y, m), Total(far, n), 2.0 * (ULPS * next));
      }
    }
  }

  lemma NothingSummed(a: real, y: real, far: bool)
    ensures Term(a, y, 0) == Partial(a, y, 0) == 1.0 && Total(far, 0) == 0.0 && Slack(far, 0) >= 0.0
  {
  }

  /** 0.5 <= base < 1: what is lost below the base to rounding is at most 68 ulp. */
  lemma AboveBase(base: int, exp: int, sqrt: int -> Option<int>)
    requires HALF <= base <= ONE && 0 < exp <= ONE && exp != HALF
    requires MaclaurinValue(base, exp, PRECISION, sqrt).Value?
    ensures MaclaurinValue(base, exp, PRECISION, sqrt).value >= base - 68
  {
    hide MaclaurinValue;
    var n := RefinesExactSeries(base, exp, sqrt);
    var a, y := Fraction(exp), Fraction(base - ONE);
    if n >= 1 {
      PartialAtLeastBase(a, y, n);
    } else {
      assert Partial(a, y, 0) == 1.0;
    }
    assert ULPS * (1.0 + y) == base as real;
  }

  /**
   Where the routine returns, for 0 < exp <= 1 other than 0.5: between 1 and
   the base when base is in [1, 2], and between base - 68 ulp and 1 when base
   is in [0.5, 1].
   */
  lemma MaclaurinBounds(base: int, exp: int, sqrt: int -> Option<int>)
    requires HALF <= base <= TWO && 0 < exp <= ONE && exp != HALF
    requires MaclaurinValue(base, exp, PRECISION, sqrt).Value?
    ensures var r := MaclaurinValue(base, exp, PRECISION, sqrt).value;
            && r <= ONE + Mul(exp, base - ONE)
            && (base >= ONE ==> ONE <= r <= base)
            && (base <= ONE ==> base - 68 <= r <= ONE)
  {
    hide NextMagnitude, Mul;
    Bernoulli(base, exp, PRECISION);
    if base >= ONE {
      MulCommutes(exp, base - ONE);
      MulFraction(base - ONE, exp);
    }
    if base <= ONE {
      AboveBase(base, exp, sqrt);
      MulCommutes(exp, base - ONE);
      MulFraction(base - ONE, exp);
    }
  }

  lemma MulCommutes(a: int, b: int)
    ensures Mul(a, b) == Mul(b, a)
  {
  }

  // ----- the loop, in place -----

  /** One pass over the shared numbers: `c` is the working copy `a` under another
      name, overwritten by the difference and reset from the exponent. */
  method NextTermMut(term: Dec, a: Dec, bigK: Dec, x: Dec, exp: Dec, i: int) returns (cneg: bool)
    requires i >= 1 && a.i == exp.i && bigK.i == (i - 1) * ONE
    requires a != bigK && term !in {a, bigK} && x !in {a, bigK, term} && exp !in {a, bigK, term}
    modifies term, a, bigK
    ensures a.i == exp.i && bigK.i == i * ONE
    ensures cneg == (exp.i < (i - 1) * ONE)
    ensures term.i == NextMagnitude(old(term.i), Abs(exp.i - (i - 1) * ONE), x.i, i)
  {
    hide Mul, Quo;
    var c;
    c, cneg := AbsDifferenceWithSign(a, bigK);
    bigK.SetInt64(i);
    var product := term.MulMut(c);
    product := product.MulMut(x);
    product := product.QuoMut(bigK);
    a.Set(exp);
  }

  method SumSeries(x: Dec, xneg: bool, exp: Dec, precision: Dec) returns (r: Outcome<Dec>)
    ensures r.Value? ==> fresh(r.value)
    ensures (match r case Value(d) => Value(d.i) case Error => Error case Panic => Panic)
            == SeriesFrom(x.i, xneg, exp.i, 1, ONE, ONE, false, precision.i, LIMIT)
  {
    hide NextMagnitude, Mul, Quo;
    var term := new Dec(ONE);
    var sum := new Dec(ONE);
    var negative := false;
    var a := exp.Clone();
    var bigK := new Dec(0);
    var i := 1;
    while term.i >= precision.i
      invariant 1 <= i <= LIMIT
      invariant a.i == exp.i && bigK.i == (i - 1) * ONE
      invariant SeriesFrom(x.i, xneg, exp.i, i, term.i, sum.i, negative, precision.i, LIMIT)
                == SeriesFrom(x.i, xneg, exp.i, 1, ONE, ONE, false, precision.i, LIMIT)
      decreases LIMIT - i
    {
      var cneg := NextTermMut(term, a, bigK, x, exp, i);
      if term.i == 0 {
        break;
      }
      if xneg {
        negative := !negative;
      }
      if cneg {
        negative := !negative;
      }
      if negative {
        var s := sum.SubMut(term);
      } else {
        var s := sum.AddMut(term);
      }
      if i == LIMIT {
        return Panic;
      }
      i := i + 1;
    }
    return Value(sum);
  }

  /**
   maclaurinSeriesApproximation. The caller's numbers are not in the method's
   frame, so for all the overwriting through aliases they cannot change.
   */
  method MaclaurinSeries(originalBase: Dec, exp: Dec, precision: Dec, sqrt: int -> Option<int>)
    returns (r: Outcome<Dec>)
    ensures r.Value? ==> fresh(r.value)
    ensures (match r case Value(d) => Value(d.i) case Error => Error case Panic => Panic)
            == MaclaurinValue(originalBase.i, exp.i, precision.i, sqrt)
  {
    hide SeriesFrom;
    if originalBase.i <= 0 {
      return Panic;
    }
    if exp.i == 0 {
      var one := new Dec(ONE);
      return Value(one);
    }
    if exp.i == HALF {
      var root := sqrt(originalBase.i);
      if root.None? {
        return Panic;
      }
      var output := new Dec(root.value);
      return Value(output);
    }
    var base := originalBase.Clone();
    var one := new Dec(ONE);
    var x, xneg := AbsDifferenceWithSign(base, one);
    r := SumSeries(x, xneg, exp, precision);
  }
}
