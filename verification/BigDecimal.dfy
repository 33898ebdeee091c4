/** Decimals with 36 fractional digits, stored as the value scaled by 10^36. */
module BigDecimal {
  import opened Basics
  import opened Decimal
  import opened SquareMultiply

  const BIG := 1_000_000_000_000_000_000_000_000_000_000_000_000

  function FromDec(d: int): int {
    d * ONE
  }

  /** Cuts the last 18 digits. */
  function ToDec(b: int): int {
    TruncDiv(b, ONE)
  }

  function BigChopNat(n: nat): int {
    var q, r := n / BIG, n % BIG;
    if 2 * r < BIG || (2 * r == BIG && q % 2 == 0) then q else q + 1
  }

  /** The product, rounded half to even. */
  function BigMul(a: int, b: int): int {
    var p := a * b;
    if p >= 0 then BigChopNat(p) else -BigChopNat(-p)
  }

  function BigPower(d: int, n: nat): int {
    if n == 0 then BIG else PowerLoop(BigMul, d, BIG, n)
  }

  /** Both factors on one side of 1: so is the rounded product. */
  lemma BigMulSide(a: int, b: int)
    ensures a >= BIG && b >= BIG ==> BigMul(a, b) >= BIG
    ensures 0 <= a <= BIG && 0 <= b <= BIG ==> 0 <= BigMul(a, b) <= BIG
  {
    var p := a * b;
    if a >= BIG && b >= BIG {
      ScaleOrder(a, BIG, b);
      BigChopSide(p);
    }
    if 0 <= a <= BIG && 0 <= b <= BIG {
      ScaleOrder(a, 0, b);
      ScaleOrder(a, b, BIG);
      BigChopSide(p);
    }
  }

  lemma BigChopSide(p: nat)
    ensures BigChopNat(p) >= 0
    ensures p >= BIG * BIG ==> BigChopNat(p) >= BIG
    ensures p <= BIG * BIG ==> BigChopNat(p) <= BIG
  {
  }

  /** A product is rounded to the nearest, and to the even one of two that are as near. */
  lemma BigMulIsRounded(a: int, b: int)
    ensures 2 * Abs(BigMul(a, b) * BIG - a * b) <= BIG
    ensures 2 * Abs(BigMul(a, b) * BIG - a * b) == BIG ==> BigMul(a, b) % 2 == 0
  {
    BigChopTies(Abs(a * b));
  }

  lemma BigChopTies(n: nat)
    ensures 2 * Abs(BigChopNat(n) * BIG - n) <= BIG
    ensures 2 * Abs(BigChopNat(n) * BIG - n) == BIG ==> BigChopNat(n) % 2 == 0
  {
  }

  lemma BigMulKeepsSide()
    ensures KeepsSide(BigMul, BIG)
  {
    hide BigMul;
    forall a, b
      ensures a >= BIG && b >= BIG ==> BigMul(a, b) >= BIG
      ensures 0 <= a <= BIG && 0 <= b <= BIG ==> 0 <= BigMul(a, b) <= BIG
    {
      BigMulSide(a, b);
    }
  }

  lemma BigPowerKeepsSide(d: int, n: nat)
    ensures d >= BIG ==> BigPower(d, n) >= BIG
    ensures 0 <= d <= BIG ==> 0 <= BigPower(d, n) <= BIG
  {
    BigMulKeepsSide();
    PowerLoopSide(BigMul, BIG, d, BIG, n);
  }

  lemma BigMulExact(a: int, b: int)
    ensures BigMul(a * BIG, b) == a * b
  {
    assert (a * BIG) * b == (a * b) * BIG;
    if a * b >= 0 {
      BigChopExact(a * b);
    } else {
      BigChopExact(-(a * b));
    }
  }

  lemma BigChopExact(q: nat)
    ensures BigChopNat(q * BIG) == q
  {
  }

  lemma BigMulOne(a: int)
    ensures BigMul(a, BIG) == a
  {
    BigMulExact(1, a);
    assert a * BIG == BIG * a;
  }

  lemma BigMulWhole(a: int, b: int)
    ensures BigMul(a * BIG, b * BIG) == (a * b) * BIG
  {
    hide BigMul;
    BigMulExact(a, b * BIG);
    assert a * (b * BIG) == (a * b) * BIG;
  }

  /** Square-and-multiply is exact for a whole base. */
  lemma BigPowerOfWhole(a: int, n: nat)
    ensures BigPower(a * BIG, n) == IntPow(a, n) * BIG
  {
    hide BigMul;
    if n > 0 {
      var whole := (x: int) => x * BIG;
      forall x, y ensures BigMul(whole(x), whole(y)) == whole(x * y) {
        BigMulWhole(x, y);
      }
      PowerLoopOfWhole(BigMul, whole, a, 1, n);
    }
  }
}
