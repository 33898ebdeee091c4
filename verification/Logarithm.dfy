/** The natural logarithm by range reduction and a series (utils/pow_approx.go). */
module Logarithm {
  import opened Basics
  import opened Decimal
  import opened Exponential

  /** Halving rounds to nearest, so doubling back is off by at most one ulp. */
  lemma HalveRounds(x: nat)
    ensures -1 <= 2 * Quo(x, TWO) - x <= 1 && Quo(x, TWO) >= 0
    ensures x > TWO ==> ONE <= Quo(x, TWO) < x
  {
  }

  /** The loop that halves x while it exceeds 2, counting in k. */
  function ScaleDown(x: nat, k: int): (nat, int)
    decreases x
  {
    HalveRounds(x);
    if x > TWO then ScaleDown(Quo(x, TWO), k + 1) else (x, k)
  }

  /** The loop that doubles x while it is below 1/2, counting down in k. */
  function ScaleUp(x: int, k: int): (int, int)
    requires x > 0
    decreases HALF - x
  {
    if x < HALF then ScaleUp(2 * x, k - 1) else (x, k)
  }

  function LnTerm(n: nat, yPower: int): int
    requires n >= 1
  {
    QuoInt(yPower * (if (n + 1) % 2 == 0 then 1 else -1), n)
  }

  /** The loop from its n-th pass on; None when the pass limit is exceeded. */
  function LnSeries(y: int, n: nat, yPower: int, sum: int, limit: nat): Option<int>
    requires 1 <= n <= limit + 1
    decreases limit + 1 - n, y
  {
    var t := LnTerm(n, yPower);
    if PRECISION > Abs(t) then Some(sum + t)
    else if n > limit then None
    else LnSeries(y, n + 1, Mul(yPower, y), sum + t, limit)
  }

  function Reduced(x: int): (int, int)
    requires x > 0
  {
    var (down, k) := ScaleDown(x, 0);
    ScaleDownRange(x, 0);
    ScaleUp(down, k)
  }

  function Ln(x: int): Option<int> {
    if x <= 0 then None
    else if x == ONE then Some(0)
    else if x == TWO then Some(LN2)
    else
      var (z, k) := Reduced(x);
      match LnSeries(z - ONE, 1, z - ONE, 0, LIMIT)
      case None => None
      case Some(s) => Some(s + LN2 * k)
  }

  // ----- range reduction -----

  lemma {:induction false} ScaleDownRange(x: nat, k: int)
    ensures var (z, j) := ScaleDown(x, k);
            && j >= k && z <= TWO
            && (x <= TWO ==> z == x && j == k)
            && (x > TWO ==> z >= ONE && j > k)
            && z + (j - k) * LN2 <= x
            && Abs(x - z * Pow2(j - k)) < Pow2(j - k)
    decreases x
  {
    hide Quo;
    HalveRounds(x);
    if x > TWO {
      var h := Quo(x, TWO);
      ScaleDownRange(h, k + 1);
      var (z, j) := ScaleDown(x, k);
      DoubleBack(x, h, z, Pow2(j - k - 1));
    }
  }

  lemma DoubleBack(x: int, h: int, z: int, p: int)
    requires -1 <= 2 * h - x <= 1 && Abs(h - z * p) < p
    ensures Abs(x - z * (2 * p)) < 2 * p
  {
  }

  lemma {:induction false} ScaleUpRange(x: int, k: int)
    requires x > 0
    ensures var (z, j) := ScaleUp(x, k);
            && j <= k && z >= HALF
            && (x >= HALF ==> z == x && j == k)
            && (x < HALF ==> z < ONE && j < k)
            && z + (j - k) * LN2 <= x
            && z == x * Pow2(k - j)
    decreases HALF - x
  {
    if x < HALF {
      ScaleUpRange(2 * x, k - 1);
      var (z, j) := ScaleUp(x, k);
      var p := Pow2(k - j - 1);
      assert Pow2(k - j) == 2 * p;
      assert x * (2 * p) == 2 * x * p;
    }
  }

  /**
   Range reduction ends with z in [0.5, 2] and only one of its two loops runs.
   Scaling up is exact; scaling down k times is off by less than 2^k ulp.
   */
  lemma ReductionRange(x: int)
    requires x > 0
    ensures var (z, k) := Reduced(x);
            && HALF <= z <= TWO
            && z + k * LN2 <= x
            && (x > TWO ==> k > 0 && z >= ONE && Abs(x - z * Pow2(k)) < Pow2(k))
            && (HALF <= x <= TWO ==> k == 0 && z == x)
            && (x < HALF ==> -59 <= k < 0 && z < ONE && z == x * Pow2(-k))
  {
    ScaleDownRange(x, 0);
    var (down, j) := ScaleDown(x, 0);
    ScaleUpRange(down, j);
    if x < HALF {
      var (z, k) := Reduced(x);
      FewDoublings(x, -k);
    }
  }

  lemma FewDoublings(x: int, m: nat)
    requires x >= 1 && x * Pow2(m) < ONE
    ensures m <= 59
  {
    hide Pow2;
    Pow2Values();
    if m >= 60 {
      Pow2Monotone(60, m);
      ScaleOrder(Pow2(m), 1, x);
      assert false;
    }
  }

  // ----- the series -----

  lemma LnTermSigns(n: nat, yPower: int)
    requires n >= 1
    ensures Abs(LnTerm(n, yPower)) <= Abs(yPower)
    ensures n >= 2 ==> 2 * Abs(LnTerm(n, yPower)) <= Abs(yPower)
    ensures yPower >= 0 ==> (if n % 2 == 1 then LnTerm(n, yPower) >= 0 else LnTerm(n, yPower) <= 0)
    ensures yPower <= 0 ==> (if n % 2 == 1 then LnTerm(n, yPower) <= 0 else LnTerm(n, yPower) >= 0)
  {
    hide TruncDiv;
    TruncDivShrinks(yPower, n);
    TruncDivShrinks(-yPower, n);
  }

  lemma LnTermMagnitude(n: nat, p: int)
    requires n >= 1
    ensures Abs(LnTerm(n, p)) == Abs(p) / n
  {
    hide TruncDiv;
    TruncDivMagnitude(p, n);
    TruncDivMagnitude(-p, n);
  }

  /** Whatever the sign of y and of the power at hand, terms never grow. */
  lemma LnTermsShrink(y: int, n: nat, yPower: int)
    requires n >= 1 && -ONE <= y <= ONE
    ensures Abs(LnTerm(n + 1, Mul(yPower, y))) <= Abs(LnTerm(n, yPower))
  {
    hide LnTerm, Mul;
    var q := Mul(yPower, y);
    MulFraction(yPower, Abs(y));
    MulNegate(yPower, Abs(y));
    LnTermMagnitude(n, yPower);
    LnTermMagnitude(n + 1, q);
    DivOrder(Abs(q), n, n + 1);
    DivIncreases(Abs(q), Abs(yPower), n);
  }

  /** For 0 <= y <= 1 the terms alternate and never grow. */
  lemma {:induction false} LnAlternates(y: int, n: nat, yPower: int, sum: int, limit: nat)
    requires 1 <= n <= limit + 1 && 0 <= y <= ONE && yPower >= 0
    ensures var r, t := LnSeries(y, n, yPower, sum, limit), LnTerm(n, yPower);
            r.Some? ==> if n % 2 == 1 then sum <= r.value <= sum + t else sum + t <= r.value <= sum
    decreases limit + 1 - n
  {
    hide LnTerm, Mul;
    LnTermSigns(n, yPower);
    var t := LnTerm(n, yPower);
    if PRECISION <= Abs(t) && n <= limit {
      MulFraction(yPower, y);
      LnTermsShrink(y, n, yPower);
      LnTermSigns(n + 1, Mul(yPower, y));
      LnAlternates(y, n + 1, Mul(yPower, y), sum + t, limit);
    }
  }

  /** For -0.5 <= y < 0 every term is negative and the powers of y halve. */
  lemma {:induction false} LnDescends(y: int, n: nat, yPower: int, sum: int, limit: nat)
    requires 1 <= n <= limit + 1 && -HALF <= y <= 0
    requires if n % 2 == 1 then yPower <= 0 else yPower >= 0
    ensures var r := LnSeries(y, n, yPower, sum, limit);
            r.Some? ==> r.value <= sum + LnTerm(n, yPower) <= sum
                        && 100 * (sum - r.value) <= 205 * Abs(yPower)
    decreases limit + 1 - n
  {
    hide LnTerm, Mul;
    LnTermSigns(n, yPower);
    var t := LnTerm(n, yPower);
    if PRECISION <= Abs(t) && n <= limit {
      MulNegate(yPower, -y);
      MulFraction(yPower, -y);
      MulMagnitude(yPower, y, HALF);
      LnDescends(y, n + 1, Mul(yPower, y), sum + t, limit);
    }
  }

  /** With |y| <= 0.5 at most 27 passes are made. */
  lemma {:induction false} LnConverges(y: int, n: nat, yPower: int, sum: int, limit: nat)
    requires 1 <= n <= 27 <= limit && Abs(y) <= HALF
    requires (Abs(yPower) - 1) * Pow2(n) <= ONE
    ensures LnSeries(y, n, yPower, sum, limit).Some?
    ensures LnSeries(y, n, yPower, sum, limit) == LnSeries(y, n, yPower, sum, 26)
    decreases 28 - n
  {
    hide LnTerm, Mul, Pow2;
    LnTermSigns(n, yPower);
    var t := LnTerm(n, yPower);
    if PRECISION <= Abs(t) {
      var next := Mul(yPower, y);
      MulMagnitude(yPower, y, HALF);
      HalvingBudget(if next == 0 then 0 else Abs(next) - 1, Abs(yPower) - 1, n);
      if n >= 2 {
        BudgetRunsOut(Abs(yPower) - 1, n);
      }
      LnConverges(y, n + 1, next, sum + t, limit);
    }
  }

  // ----- the results -----

  /**
   Wherever the routine returns, its value is at most x - 1 with no slack, has
   the sign of x - 1, and stays above -42.
   */
  lemma LnBounds(x: int)
    requires Ln(x).Some?
    ensures x > 0
    ensures Ln(x).value <= x - ONE
    ensures x < ONE <==> Ln(x).value < 0
    ensures x > ONE <==> Ln(x).value > 0
    ensures Ln(x).value > -42 * ONE
  {
    hide Reduced, LnTerm, Mul;
    if x != ONE && x != TWO {
      ReductionRange(x);
      var (z, k) := Reduced(x);
      var y := z - ONE;
      LnTermSigns(1, y);
      FirstLnTerm(y);
      if y >= 0 {
        LnAlternates(y, 1, y, 0, LIMIT);
        if y > 0 {
          LnStrict(y);
        }
      } else {
        LnDescends(y, 1, y, 0, LIMIT);
      }
    }
  }

  lemma FirstLnTerm(y: int)
    ensures LnTerm(1, y) == y
  {
  }

  lemma LnStrict(y: int)
    requires 0 < y <= ONE && LnSeries(y, 1, y, 0, LIMIT).Some?
    ensures LnSeries(y, 1, y, 0, LIMIT).value > 0
  {
    hide LnTerm, Mul;
    FirstLnTerm(y);
    if PRECISION <= Abs(y) {
      MulFraction(y, y);
      var q := Mul(y, y);
      LnTermSigns(2, q);
      LnAlternates(y, 2, q, y, LIMIT);
    }
  }

  /** A number of m binary digits is halved fewer than m times. */
  lemma FewHalvings(x: int, k: nat, z: int, m: nat)
    requires x <= Pow2(m) && z >= ONE && Abs(x - z * Pow2(k)) < Pow2(k)
    ensures k < m
  {
    hide Pow2;
    if k >= m {
      Pow2Monotone(m, k);
      ScaleOrder(Pow2(k), ONE, z);
      assert false;
    }
  }

  lemma LnAtMost(x: int, m: nat)
    requires Ln(x).Some? && x <= Pow2(m)
    ensures Ln(x).value <= (m + 1) * ONE
  {
    hide Reduced, LnTerm, Mul, LnSeries, Pow2;
    if x <= TWO {
      LnBounds(x);
    } else {
      ReductionRange(x);
      var (z, k) := Reduced(x);
      FewHalvings(x, k, z, m);
      var y := z - ONE;
      FirstLnTerm(y);
      LnAlternates(y, 1, y, 0, LIMIT);
    }
  }

  /** For 0 < x <= 1.5 the routine returns, and after at most 27 passes. */
  lemma LnReturns(x: int)
    requires 0 < x <= ONE + HALF
    ensures Ln(x).Some?
    ensures var y := Reduced(x).0 - ONE;
            LnSeries(y, 1, y, 0, LIMIT) == LnSeries(y, 1, y, 0, 26)
  {
    hide Reduced, LnTerm, Mul;
    ReductionRange(x);
    var y := Reduced(x).0 - ONE;
    Pow2Values();
    LnConverges(y, 1, y, 0, LIMIT);
  }

  lemma {:induction false} PowersOfTwoReduceToTwo(j: nat, k: int)
    requires j >= 1
    ensures ScaleDown(Pow2(j) * ONE, k) == (TWO, k + j - 1)
  {
    if j > 1 {
      var x := Pow2(j) * ONE;
      HalveRounds(x);
      Pow2Monotone(2, j);
      assert Pow2(1) == 2;
      HalveEven(Pow2(j - 1) * ONE);
      PowersOfTwoReduceToTwo(j - 1, k + 1);
    }
  }

  lemma HalveEven(h: nat)
    ensures Quo(2 * h, TWO) == h
  {
  }

  // ----- the loops -----

  /** computeLn. */
  method ComputeLn(input: int) returns (r: Option<int>)
    ensures r == Ln(input)
  {
    hide Mul, Quo, TruncDiv;
    var x := input;
    if x <= 0 {
      return None;
    }
    if x == ONE {
      return Some(0);
    }
    if x == TWO {
      return Some(LN2);
    }
    var k := 0;
    while x > TWO
      invariant x > 0 && ScaleDown(x, k) == ScaleDown(input, 0)
      decreases x
    {
      HalveRounds(x);
      x := Quo(x, TWO);
      k := k + 1;
    }
    while x < HALF
      invariant x > 0 && ScaleUp(x, k) == Reduced(input)
      decreases HALF - x
    {
      x := x * 2;
      k := k - 1;
    }
    var y := x - ONE;
    var result, yPower := 0, y;
    var n := 1;
    while true
      invariant 1 <= n <= LIMIT + 1
      invariant LnSeries(y, n, yPower, result, LIMIT) == LnSeries(y, 1, y, 0, LIMIT)
      decreases LIMIT + 1 - n
    {
      var sign := -1;
      if (n + 1) % 2 == 0 {
        sign := 1;
      }
      var term := QuoInt(yPower * sign, n);
      result := result + term;
      if PRECISION > Abs(term) {
        break;
      }
      if n > LIMIT {
        return None;
      }
      yPower := Mul(yPower, y);
      n := n + 1;
    }
    return Some(result + LN2 * k);
  }
}
