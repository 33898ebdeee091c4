/**
 Fixed-point decimals with 18 fractional digits. A decimal is the integer it
 stores, that is, its value scaled by 10^18; one unit of that integer is one
 "ulp". Rounding is written out: `Mul` and `Quo` round half to even,
 `QuoInt` and `Truncate` cut toward zero, addition is exact.
 */
module Decimal {

  import opened Basics
  import opened SquareMultiply

  const ONE := 1_000_000_000_000_000_000
  const HALF := 500_000_000_000_000_000
  const TWO := 2_000_000_000_000_000_000

  /** Integer division that cuts toward zero, as Go and math/big do. */
  function TruncDiv(a: int, b: int): (q: int)
    requires b > 0
  {
    if a >= 0 then a / b else -((-a) / b)
  }

  function ChopNat(n: nat): int {
    var q, r := n / ONE, n % ONE;
    if 2 * r < ONE || (2 * r == ONE && q % 2 == 0) then q else q + 1
  }

  /** Drops 18 digits, rounding half to even, symmetrically around zero. */
  function Chop(n: int): int {
    if n >= 0 then ChopNat(n) else -ChopNat(-n)
  }

  function Mul(a: int, b: int): int {
    Chop(a * b)
  }

  /** The quotient keeps 18 guard digits, which are cut, before it is rounded. */
  function Quo(a: int, b: int): int
    requires b != 0
  {
    if b > 0 then Chop(TruncDiv(a * ONE * ONE, b)) else Chop(TruncDiv(-a * ONE * ONE, -b))
  }

  function QuoInt(a: int, n: int): int
    requires n > 0
  {
    TruncDiv(a, n)
  }

  /** The integer part. */
  function Truncate(a: int): int {
    TruncDiv(a, ONE)
  }

  function Abs(a: int): int {
    if a >= 0 then a else -a
  }

  function Power(d: int, n: nat): int {
    if n == 0 then ONE else PowerLoop(Mul, d, ONE, n)
  }

  // ----- rounding -----

  lemma ChopNearest(n: int)
    ensures -ONE <= 2 * (Chop(n) * ONE - n) <= ONE
    ensures n >= 0 ==> Chop(n) >= 0
    ensures n <= 0 ==> Chop(n) <= 0
    ensures Chop(-n) == -Chop(n)
  {
  }

  lemma ChopExact(q: int)
    ensures Chop(q * ONE) == q
  {
  }

  lemma ChopMonotone(a: int, b: int)
    requires a <= b
    ensures Chop(a) <= Chop(b)
  {
  }

  /** A value on one side of an exact multiple is not rounded across it. */
  lemma ChopAtMost(n: int, q: int)
    requires n <= q * ONE
    ensures Chop(n) <= q
  {
  }

  lemma ChopAtLeast(n: int, q: int)
    requires q * ONE <= n
    ensures q <= Chop(n)
  {
  }

  // ----- division -----

  lemma DivAtLeast(a: int, b: int, q: int)
    requires b > 0 && b * q <= a
    ensures q <= a / b
  {
    var p := a / b;
    if p < q {
      ScaleOrder(b, p + 1, q);
      assert false;
    }
  }

  lemma DivAtMost(a: int, b: int, q: int)
    requires b > 0 && a <= b * q
    ensures a / b <= q
  {
    var p := a / b;
    if p > q {
      ScaleOrder(b, q + 1, p);
      assert false;
    }
  }

  lemma DivUnique(a: int, b: int, q: int, r: int)
    requires b > 0 && a == b * q + r && 0 <= r < b
    ensures a / b == q
  {
    DivAtLeast(a, b, q);
    if a / b > q {
      ScaleOrder(b, q + 1, a / b);
      assert false;
    }
  }

  /** A common factor cancels, also under the cut. */
  lemma DivCancel(a: int, b: int, c: int)
    requires b > 0 && c > 0
    ensures b * c > 0 && (a * c) / (b * c) == a / b
  {
    var q, r := a / b, a % b;
    assert a * c == (b * c) * q + r * c by {
      assert a == b * q + r;
      assert (b * q + r) * c == (b * c) * q + r * c;
    }
    ScaleOrder(c, r + 1, b);
    ScaleOrder(c, 0, r);
    ScaleOrder(c, 1, b);
    DivUnique(a * c, b * c, q, r * c);
  }

  lemma DivOrder(a: nat, b: int, c: int)
    requires 0 < b <= c
    ensures 0 <= a / c <= a / b
  {
    ScaleOrder(a / c, b, c);
    DivAtLeast(a, b, a / c);
  }

  lemma DivIncreases(a: nat, b: nat, n: int)
    requires a <= b && n > 0
    ensures 0 <= a / n <= b / n
  {
    DivAtLeast(b, n, a / n);
  }

  lemma TruncDivShrinks(a: int, n: int)
    requires n > 0
    ensures a >= 0 ==> 0 <= TruncDiv(a, n) <= a
    ensures a <= 0 ==> a <= TruncDiv(a, n) <= 0
    ensures TruncDiv(-a, n) == -TruncDiv(a, n)
    ensures n >= 2 ==> 2 * Abs(TruncDiv(a, n)) <= Abs(a)
  {
    DivOrder(Abs(a), 1, n);
    if n >= 2 {
      DivOrder(Abs(a), 2, n);
    }
  }

  lemma TruncDivMagnitude(a: int, n: int)
    requires n > 0
    ensures Abs(TruncDiv(a, n)) == Abs(a) / n
  {
    DivOrder(Abs(a), n, n);
  }

  // ----- products -----

  lemma MulExact(a: int, b: int)
    ensures Mul(a * ONE, b) == a * b == Mul(b, a * ONE)
  {
    assert a * ONE * b == (a * b) * ONE == b * (a * ONE);
    ChopExact(a * b);
  }

  lemma ScaleOrder(t: int, y: int, z: int)
    requires y <= z
    ensures t >= 0 ==> t * y <= t * z
    ensures t <= 0 ==> t * z <= t * y
  {
  }

  lemma MulNegate(t: int, y: int)
    ensures Mul(t, -y) == Mul(-t, y) == -Mul(t, y)
  {
  }

  /** Multiplying by a fraction does not grow a magnitude. */
  lemma MulFraction(t: int, y: int)
    requires 0 <= y <= ONE
    ensures t >= 0 ==> 0 <= Mul(t, y) <= t
    ensures t <= 0 ==> t <= Mul(t, y) <= 0
  {
    var p := t * y;
    ScaleOrder(t, 0, y);
    ScaleOrder(t, y, ONE);
    ChopNearest(p);
    if t >= 0 {
      ChopAtMost(p, t);
    } else {
      ChopAtLeast(p, t);
    }
  }

  // ----- what rounding means -----

  /** A product is rounded to the nearest decimal, and to the even one of two that are as near. */
  lemma MulIsRounded(a: int, b: int)
    ensures 2 * Abs(Mul(a, b) * ONE - a * b) <= ONE
    ensures 2 * Abs(Mul(a, b) * ONE - a * b) == ONE ==> Mul(a, b) % 2 == 0
  {
    ChopTies(a * b);
  }

  lemma ChopTies(n: int)
    ensures 2 * Abs(Chop(n) * ONE - n) <= ONE
    ensures 2 * Abs(Chop(n) * ONE - n) == ONE ==> Chop(n) % 2 == 0
  {
  }

  /** A quotient is rounded to the nearest decimal, but for the guard digits that are cut. */
  lemma QuoIsRounded(a: int, b: int)
    requires b != 0
    ensures 2 * ONE * Abs(b * Quo(a, b) - a * ONE) <= (ONE + 2) * Abs(b)
  {
    hide Chop, TruncDiv;
    var c, d := if b > 0 then a else -a, Abs(b);
    var x := c * ONE * ONE;
    TruncDivLoses(x, d);
    ChopNearest(TruncDiv(x, d));
    TwoCuts(c, d, TruncDiv(x, d), Chop(TruncDiv(x, d)));
    SameQuotient(a, b);
  }

  lemma SameQuotient(a: int, b: int)
    requires b != 0
    ensures var c, d := if b > 0 then a else -a, Abs(b);
            Quo(a, b) == Chop(TruncDiv(c * ONE * ONE, d))
            && Abs(b * Quo(a, b) - a * ONE) == Abs(d * Quo(a, b) - c * ONE)
  {
    hide Chop, TruncDiv;
    if b < 0 {
      assert b * Quo(a, b) == -((-b) * Quo(a, b));
    }
  }

  lemma TruncDivLoses(a: int, b: int)
    requires b > 0
    ensures Abs(b * TruncDiv(a, b) - a) < b
  {
    var m := Abs(a);
    assert m == b * (m / b) + m % b;
    if a < 0 {
      assert b * -(m / b) == -(b * (m / b));
    }
  }

  lemma TwoCuts(a: int, b: int, n: int, q: int)
    requires b > 0 && Abs(b * n - a * ONE * ONE) < b && -ONE <= 2 * (q * ONE - n) <= ONE
    ensures 2 * ONE * Abs(b * q - a * ONE) <= (ONE + 2) * b
  {
    var d := 2 * (q * ONE - n);
    ScaleOrder(b, -ONE, d);
    ScaleOrder(b, d, ONE);
    assert 2 * (b * q - a * ONE) * ONE == b * d + 2 * (b * n - a * ONE * ONE) by {
      assert b * d == 2 * (b * q) * ONE - 2 * (b * n);
    }
  }

  // ----- whole powers -----

  lemma MulWhole(a: int, b: int)
    ensures Mul(a * ONE, b * ONE) == (a * b) * ONE
  {
    hide *;
    MulExact(a, b * ONE);
    assert a * (b * ONE) == (a * b) * ONE;
  }

  /** Square-and-multiply is exact for a whole base, whatever is rounded on the way. */
  lemma PowerOfWhole(a: int, n: nat)
    ensures Power(a * ONE, n) == IntPow(a, n) * ONE
  {
    hide Mul;
    if n > 0 {
      var whole := (x: int) => x * ONE;
      forall x, y ensures Mul(whole(x), whole(y)) == whole(x * y) {
        MulWhole(x, y);
      }
      PowerLoopOfWhole(Mul, whole, a, 1, n);
    }
  }

  lemma {:induction false} PowerOfTwo(n: nat)
    ensures Power(TWO, n) == Pow2(n) * ONE
  {
    PowerOfWhole(2, n);
    IntPowOfTwo(n);
  }

  lemma MulSide(a: int, b: int)
    ensures a >= ONE && b >= ONE ==> Mul(a, b) >= ONE
    ensures 0 <= a <= ONE && 0 <= b <= ONE ==> 0 <= Mul(a, b) <= ONE
  {
    hide Chop;
    if a >= ONE && b >= ONE {
      ScaleOrder(a, ONE, b);
      ChopAtLeast(a * b, ONE);
    }
    if 0 <= a <= ONE && 0 <= b <= ONE {
      MulFraction(a, b);
    }
  }

  lemma MulKeepsSide()
    ensures KeepsSide(Mul, ONE)
  {
    hide Mul;
    forall a, b
      ensures a >= ONE && b >= ONE ==> Mul(a, b) >= ONE
      ensures 0 <= a <= ONE && 0 <= b <= ONE ==> 0 <= Mul(a, b) <= ONE
    {
      MulSide(a, b);
    }
  }

  lemma PowerKeepsSide(d: int, n: nat)
    ensures d >= ONE ==> Power(d, n) >= ONE
    ensures 0 <= d <= ONE ==> 0 <= Power(d, n) <= ONE
  {
    MulKeepsSide();
    PowerLoopSide(Mul, ONE, d, ONE, n);
  }
}
