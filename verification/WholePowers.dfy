/**
 Whole powers of any base, against exact real powers. Below 1 the rounding of
 all products adds up to half an ulp a factor; from 1 on the result is the power
 of a base that differs by half an ulp of 1, relatively.
 */
module WholePowers {
  import opened Basics
  import opened RealDecimal
  import opened RealPowers
  import opened SquareMultiply
  import opened Decimal
  import opened BigDecimal

  /** Products of numbers that are not negative are rounded to nearest. */
  ghost predicate Nearest(mul: (int, int) -> int, one: int) {
    forall a, b | a >= 0 && b >= 0 :: RoundsTo(mul(a, b), a, b, one)
  }

  ghost predicate RoundsTo(m: int, a: int, b: int, one: int) {
    m >= 0 && -one <= 2 * (m * one - a * b) <= one
  }

  /** The same over the reals, with b a share c of one. */
  lemma RoundedShare(m: int, a: int, b: int, one: int, c: real)
    requires one > 0 && RoundsTo(m, a, b, one) && c * one as real == b as real
    ensures -1.0 <= 2.0 * (m as real - a as real * c) <= 1.0
  {
    RealProduct(m, one);
    RealProduct(a, b);
    Rescale(m as real, a as real, b as real, c, one as real);
  }

  lemma Rescale(m: real, a: real, b: real, c: real, s: real)
    requires s > 0.0 && b == c * s && -s <= 2.0 * (m * s - a * b) <= s
    ensures -1.0 <= 2.0 * (m - a * c) <= 1.0
  {
    var gap := 2.0 * (m - a * c);
    assert s * gap == 2.0 * (m * s - a * (c * s));
    Unscale(s, gap, 1.0);
  }

  lemma ShareOf(b: int, one: int) returns (c: real)
    requires one > 0
    ensures c * one as real == b as real && (0 <= b ==> c >= 0.0) && (b <= one ==> c <= 1.0) && (b >= one ==> c >= 1.0)
  {
    c := b as real / one as real;
    if b >= 0 {
      CancelFactor(0.0, c, one as real);
    }
    if b <= one {
      CancelFactor(c, 1.0, one as real);
    }
    if b >= one {
      CancelFactor(1.0, c, one as real);
    }
  }

  // ----- up to 1 -----

  /** a is x times s, up to e. */
  ghost predicate Off(a: real, s: real, x: real, e: real) {
    Magnitude(a - s * x) <= e
  }

  lemma ProductError(m: int, a: int, b: int, one: int, x: real, y: real, ea: real, eb: real)
    requires one > 0 && RoundsTo(m, a, b, one) && 0 <= b <= one && 0.0 <= x <= 1.0
    requires Off(a as real, one as real, x, ea) && Off(b as real, one as real, y, eb)
    ensures Off(m as real, one as real, x * y, ea + eb + 0.5)
  {
    hide RoundsTo, Off;
    var c := ShareOf(b, one);
    RoundedShare(m, a, b, one, c);
    ErrorOfProduct(m as real, a as real, c, one as real, b as real, x, y, ea, eb);
  }

  lemma ErrorOfProduct(m: real, a: real, c: real, s: real, b: real, x: real, y: real, ea: real, eb: real)
    requires -1.0 <= 2.0 * (m - a * c) <= 1.0 && 0.0 <= c <= 1.0 && 0.0 <= x <= 1.0 && c * s == b
    requires Off(a, s, x, ea) && Off(b, s, y, eb)
    ensures Off(m, s, x * y, ea + eb + 0.5)
  {
    var da, db := a - s * x, b - s * y;
    ScaledError(da, c, ea);
    ScaledError(db, x, eb);
    SplitProducts(a, c, s, x, y);
    SumOfErrors(m, a * c, s * (x * y), da * c, db * x, ea, eb);
  }

  lemma SplitProducts(a: real, c: real, s: real, x: real, y: real)
    ensures a * c == s * (x * y) + (a - s * x) * c + (c * s - s * y) * x
  {
  }

  lemma SumOfErrors(m: real, p: real, exact: real, u: real, v: real, ea: real, eb: real)
    requires -1.0 <= 2.0 * (m - p) <= 1.0 && p == exact + u + v && Magnitude(u) <= ea && Magnitude(v) <= eb
    ensures Magnitude(m - exact) <= ea + eb + 0.5
  {
  }

  lemma ScaledError(d: real, c: real, e: real)
    requires 0.0 <= c <= 1.0 && Magnitude(d) <= e
    ensures Magnitude(d * c) <= e
  {
    MagnitudeOfProduct(d, c);
    ProductOrder(Magnitude(d), c, e, 1.0);
  }

  lemma PowerHalves(x: real, i: nat)
    ensures RealPower(x, i) == RealPower(x * x, i / 2) * (if i % 2 != 0 then x else 1.0)
  {
    hide RealPower;
    PowerOfProduct(x, x, i / 2);
    PowerAdds(x, i / 2, i / 2);
    if i % 2 != 0 {
      PowerAdds(x, 2 * (i / 2), 1);
      PowerOfOne(x);
    }
    assert i == 2 * (i / 2) + i % 2;
  }

  /** y x^i, and how square-and-multiply goes through it. */
  ghost function Exact(y: real, x: real, i: nat): real {
    y * RealPower(x, i)
  }

  lemma ExactHalves(y: real, x: real, i: nat)
    ensures Exact(y, x, i) == Exact(if i % 2 != 0 then y * x else y, x * x, i / 2)
    ensures Exact(y, x, 1) == x * y
  {
    hide RealPower;
    PowerOfOne(x);
    PowerHalves(x, i);
    var p := RealPower(x * x, i / 2);
    assert (y * x) * p == y * (p * x);
  }

  /** Errors of ed in the base and ea in the factor grow to ea + i ed, and i / 2 for the roundings. */
  function Budget(ea: real, ed: real, i: nat): real {
    ea + i as real * ed + 0.5 * i as real
  }

  lemma BudgetHalves(ea: real, ed: real, i: nat)
    ensures Budget(ea, ed, i) == Budget(if i % 2 != 0 then ea + ed + 0.5 else ea, ed + ed + 0.5, i / 2)
    ensures Budget(ea, ed, 1) == ed + ea + 0.5
  {
    var h := i / 2;
    assert i == 2 * h + i % 2;
    assert i as real == 2.0 * h as real + (i % 2) as real;
    assert h as real * (ed + ed + 0.5) == 2.0 * (h as real * ed) + 0.5 * h as real;
    assert (2.0 * h as real) * ed == 2.0 * (h as real * ed);
    if i % 2 != 0 {
      assert (2.0 * h as real + 1.0) * ed == 2.0 * (h as real * ed) + ed;
    }
  }

  lemma {:induction false} LoopUpToOne(mul: (int, int) -> int, one: int, d: int, acc: int, i: nat,
                                       x: real, y: real, ed: real, ea: real)
    requires one > 0 && Nearest(mul, one) && KeepsSide(mul, one) && i >= 1
    requires 0 <= d <= one && 0 <= acc <= one && 0.0 <= x <= 1.0 && 0.0 <= y <= 1.0
    requires Off(d as real, one as real, x, ed) && Off(acc as real, one as real, y, ea)
    ensures Off(PowerLoop(mul, d, acc, i) as real, one as real, Exact(y, x, i), Budget(ea, ed, i))
    decreases i
  {
    hide Exact, Budget, RoundsTo, Off;
    ExactHalves(y, x, i);
    BudgetHalves(ea, ed, i);
    if i == 1 {
      assert RoundsTo(mul(d, acc), d, acc, one);
      ProductError(mul(d, acc), d, acc, one, x, y, ed, ea);
    } else {
      assert RoundsTo(mul(d, d), d, d, one) && RoundsTo(mul(acc, d), acc, d, one);
      ProductError(mul(d, d), d, d, one, x, x, ed, ed);
      ProductOrder(x, x, 1.0, 1.0);
      ProductOrder(y, x, 1.0, 1.0);
      if i % 2 != 0 {
        ProductError(mul(acc, d), acc, d, one, y, x, ea, ed);
        LoopUpToOne(mul, one, mul(d, d), mul(acc, d), i / 2, x * x, y * x, ed + ed + 0.5, ea + ed + 0.5);
      } else {
        LoopUpToOne(mul, one, mul(d, d), acc, i / 2, x * x, y, ed + ed + 0.5, ea);
      }
    }
  }

  // ----- from 1 on -----

  /** Half an ulp of 1. */
  function HalfUlp(one: int): real
    requires one > 0
  {
    0.5 / one as real
  }

  /** m is the product of a and c, off by a share of u at most. */
  ghost predicate Between(m: real, a: real, c: real, u: real) {
    a * c * (1.0 - u) <= m <= a * c * (1.0 + u)
  }

  /** A rounded product of factors from 1 on is off by half an ulp of 1 at most, relatively. */
  lemma ProductBetween(m: int, a: int, b: int, one: int, c: real)
    requires one > 0 && RoundsTo(m, a, b, one) && a >= one && c * one as real == b as real && c >= 1.0
    ensures Between(m as real, a as real, c, HalfUlp(one))
  {
    hide Between;
    RoundedShare(m, a, b, one, c);
    RelativeError(m as real, a as real, c, one as real, HalfUlp(one));
  }

  lemma RelativeError(m: real, a: real, c: real, s: real, u: real)
    requires -1.0 <= 2.0 * (m - a * c) <= 1.0 && a >= s > 0.0 && c >= 1.0 && u == 0.5 / s
    ensures Between(m, a, c, u)
  {
    assert u * s == 0.5;
    var p := a * c;
    ProductOrder(s, 1.0, a, c);
    CancelFactor(0.0, u, s);
    ProductOrder(u, s, u, p);
    assert p * (1.0 - u) == p - u * p && p * (1.0 + u) == p + u * p;
  }

  /** b w, a number b and a factor w for the roundings, against z times s. */
  ghost predicate AtLeast(b: real, w: real, s: real, z: real) {
    b * w >= s * z
  }

  ghost predicate AtMost(b: real, w: real, s: real, z: real) {
    b * w <= s * z
  }

  lemma LowerProduct(m: real, a: real, b: real, c: real, u: real, s: real, y: real, z: real)
    requires s > 0.0 && 0.0 <= u <= 1.0 && y >= 0.0 && z >= 0.0 && c * s == b && Between(m, a, c, u)
    requires AtLeast(a, 1.0, s, y) && AtLeast(b, 1.0 - u, s, z)
    ensures AtLeast(m, 1.0, s, y * z)
  {
    var w := 1.0 - u;
    assert (c * w) * s == b * w;
    CancelFactor(z, c * w, s);
    Times(s, y);
    ProductOrder(s * y, z, a, c * w);
    assert a * (c * w) == a * c * w && (s * y) * z == s * (y * z);
  }

  lemma LowerSquare(m: real, b: real, c: real, u: real, s: real, z: real)
    requires s > 0.0 && 0.0 <= u <= 1.0 && z >= 0.0 && c * s == b && Between(m, b, c, u)
    requires AtLeast(b, 1.0 - u, s, z)
    ensures AtLeast(m, 1.0 - u, s, z * z)
  {
    var w := 1.0 - u;
    assert (c * w) * s == b * w;
    CancelFactor(z, c * w, s);
    Times(s, z);
    ProductOrder(s * z, z, b * w, c * w);
    assert (b * w) * (c * w) == (b * c * w) * w && (s * z) * z == s * (z * z);
    Times(m - b * c * w, w);
    assert (m - b * c * w) * w == m * w - (b * c * w) * w;
  }

  lemma UpperProduct(m: real, a: real, b: real, c: real, u: real, s: real, y: real, z: real)
    requires s > 0.0 && u >= 0.0 && a >= 0.0 && c >= 0.0 && c * s == b && Between(m, a, c, u)
    requires AtMost(a, 1.0, s, y) && AtMost(b, 1.0 + u, s, z)
    ensures AtMost(m, 1.0, s, y * z)
  {
    var w := 1.0 + u;
    assert (c * w) * s == b * w;
    CancelFactor(c * w, z, s);
    Times(c, w);
    ProductOrder(a, c * w, s * y, z);
    assert a * (c * w) == a * c * w && (s * y) * z == s * (y * z);
  }

  lemma UpperSquare(m: real, b: real, c: real, u: real, s: real, z: real)
    requires s > 0.0 && u >= 0.0 && b >= 0.0 && c >= 0.0 && c * s == b && Between(m, b, c, u)
    requires AtMost(b, 1.0 + u, s, z)
    ensures AtMost(m, 1.0 + u, s, z * z)
  {
    var w := 1.0 + u;
    assert (c * w) * s == b * w;
    CancelFactor(c * w, z, s);
    Times(c, w);
    Times(b, w);
    ProductOrder(b * w, c * w, s * z, z);
    assert (b * w) * (c * w) == (b * c * w) * w && (s * z) * z == s * (z * z);
    Times(b * c * w - m, w);
    assert (b * c * w - m) * w == (b * c * w) * w - m * w;
  }

  lemma SmallHalfUlp(one: int)
    requires one > 0
    ensures 0.0 < HalfUlp(one) <= 0.5
  {
    CancelFactor(HalfUlp(one), 0.5, one as real);
    assert HalfUlp(one) * one as real == 0.5;
    CancelFactor(0.0, HalfUlp(one), one as real);
  }

  /** A rounded square, and a rounded product, between the bounds of their factors. */
  lemma SquareBetween(m: int, d: int, one: int, z: real, t: real)
    requires one > 0 && RoundsTo(m, d, d, one) && d >= one && z >= 0.0
    requires AtLeast(d as real, 1.0 - HalfUlp(one), one as real, z)
    requires AtMost(d as real, 1.0 + HalfUlp(one), one as real, t)
    ensures z * z >= 0.0 && AtLeast(m as real, 1.0 - HalfUlp(one), one as real, z * z)
    ensures AtMost(m as real, 1.0 + HalfUlp(one), one as real, t * t)
  {
    hide AtLeast, AtMost, Between, RoundsTo, HalfUlp;
    SmallHalfUlp(one);
    var c := ShareOf(d, one);
    ProductBetween(m, d, d, one, c);
    LowerSquare(m as real, d as real, c, HalfUlp(one), one as real, z);
    UpperSquare(m as real, d as real, c, HalfUlp(one), one as real, t);
    Times(z, z);
  }

  lemma FactorBetween(m: int, a: int, d: int, one: int, y: real, z: real, v: real, t: real)
    requires one > 0 && RoundsTo(m, a, d, one) && a >= one && d >= one && y >= 0.0 && z >= 0.0
    requires AtLeast(a as real, 1.0, one as real, y) && AtLeast(d as real, 1.0 - HalfUlp(one), one as real, z)
    requires AtMost(a as real, 1.0, one as real, v) && AtMost(d as real, 1.0 + HalfUlp(one), one as real, t)
    ensures y * z >= 0.0 && AtLeast(m as real, 1.0, one as real, y * z) && AtMost(m as real, 1.0, one as real, v * t)
  {
    hide AtLeast, AtMost, Between, RoundsTo, HalfUlp;
    SmallHalfUlp(one);
    var c := ShareOf(d, one);
    ProductBetween(m, a, d, one, c);
    LowerProduct(m as real, a as real, d as real, c, HalfUlp(one), one as real, y, z);
    UpperProduct(m as real, a as real, d as real, c, HalfUlp(one), one as real, v, t);
    Times(y, z);
  }

  /** From bounds z and t on the base, off by half an ulp, and y and v on the factor. */
  lemma {:induction false} LoopFromOne(mul: (int, int) -> int, one: int, d: int, acc: int, i: nat,
                                       z: real, y: real, t: real, v: real)
    requires one > 0 && Nearest(mul, one) && KeepsSide(mul, one) && i >= 1
    requires d >= one && acc >= one && z >= 0.0 && y >= 0.0
    requires AtLeast(d as real, 1.0 - HalfUlp(one), one as real, z) && AtLeast(acc as real, 1.0, one as real, y)
    requires AtMost(d as real, 1.0 + HalfUlp(one), one as real, t) && AtMost(acc as real, 1.0, one as real, v)
    ensures AtLeast(PowerLoop(mul, d, acc, i) as real, 1.0, one as real, Exact(y, z, i))
    ensures AtMost(PowerLoop(mul, d, acc, i) as real, 1.0, one as real, Exact(v, t, i))
    decreases i
  {
    hide Exact, AtLeast, AtMost, RoundsTo, HalfUlp;
    ExactHalves(y, z, i);
    ExactHalves(v, t, i);
    assert RoundsTo(mul(d, d), d, d, one) && RoundsTo(mul(acc, d), acc, d, one);
    if i == 1 {
      assert RoundsTo(mul(d, acc), d, acc, one);
      Swapped(mul(d, acc), d, acc, one);
      FactorBetween(mul(d, acc), acc, d, one, y, z, v, t);
      Commute(y, z);
      Commute(v, t);
    } else {
      SquareBetween(mul(d, d), d, one, z, t);
      if i % 2 != 0 {
        FactorBetween(mul(acc, d), acc, d, one, y, z, v, t);
        LoopFromOne(mul, one, mul(d, d), mul(acc, d), i / 2, z * z, y * z, t * t, v * t);
      } else {
        LoopFromOne(mul, one, mul(d, d), acc, i / 2, z * z, y, t * t, v);
      }
    }
  }

  lemma Swapped(m: int, a: int, b: int, one: int)
    ensures RoundsTo(m, a, b, one) == RoundsTo(m, b, a, one)
  {
    assert a * b == b * a;
  }

  lemma Commute(y: real, z: real)
    ensures y * z == z * y
  {
  }

  // ----- the two decimal types -----

  function Less(x: real, u: real): real {
    x * (1.0 - u)
  }

  function More(x: real, u: real): real {
    x * (1.0 + u)
  }

  /** p is the n-th power of d / one: to half an ulp a factor up to 1, and from
      1 on of a base that differs from it by half an ulp of 1, relatively. */
  ghost predicate IsPower(p: int, d: int, n: nat, one: int)
    requires one > 0
  {
    var x, u, s := d as real / one as real, HalfUlp(one), one as real;
    if d <= one then Magnitude(p as real - s * RealPower(x, n)) <= 0.5 * n as real
    else s * RealPower(Less(x, u), n) <= p as real <= s * RealPower(More(x, u), n)
  }

  lemma LoopIsPower(mul: (int, int) -> int, one: int, d: nat, n: nat)
    requires one > 0 && Nearest(mul, one) && KeepsSide(mul, one) && n >= 1
    ensures IsPower(PowerLoop(mul, d, one, n), d, n, one)
  {
    hide PowerLoop, RealPower, HalfUlp, Nearest, KeepsSide, Off, AtLeast, AtMost, Exact, Budget, IsPower, Less, More;
    var s, u := one as real, HalfUlp(one);
    var x := d as real / s;
    assert x * s == d as real;
    CancelFactor(0.0, x, s);
    Itself(d as real, s, x);
    Itself(s, s, 1.0);
    if d <= one {
      CancelFactor(x, 1.0, s);
      LoopUpToOne(mul, one, d, one, n, x, 1.0, 0.0, 0.0);
      UpToOneIsPower(PowerLoop(mul, d, one, n), d, n, one, x);
    } else {
      SmallHalfUlp(one);
      SpreadBase(d as real, s, x, u);
      LoopFromOne(mul, one, d, one, n, Less(x, u), 1.0, More(x, u), 1.0);
      FromOneIsPower(PowerLoop(mul, d, one, n), d, n, one, x);
    }
  }

  lemma Itself(b: real, s: real, x: real)
    requires x * s == b
    ensures Off(b, s, x, 0.0) && AtLeast(b, 1.0, s, x) && AtMost(b, 1.0, s, x)
  {
  }

  lemma UpToOneIsPower(p: int, d: nat, n: nat, one: int, x: real)
    requires 0 < one && d <= one && x == d as real / one as real
    requires Off(p as real, one as real, Exact(1.0, x, n), Budget(0.0, 0.0, n))
    ensures IsPower(p, d, n, one)
  {
  }

  lemma FromOneIsPower(p: int, d: nat, n: nat, one: int, x: real)
    requires 0 < one < d && x == d as real / one as real
    requires AtLeast(p as real, 1.0, one as real, Exact(1.0, Less(x, HalfUlp(one)), n))
    requires AtMost(p as real, 1.0, one as real, Exact(1.0, More(x, HalfUlp(one)), n))
    ensures IsPower(p, d, n, one)
  {
    hide HalfUlp, Less, More;
  }

  lemma SpreadBase(b: real, s: real, x: real, u: real)
    requires x * s == b && x >= 0.0 && 0.0 <= u <= 1.0
    ensures Less(x, u) >= 0.0 && AtLeast(b, 1.0 - u, s, Less(x, u)) && AtMost(b, 1.0 + u, s, More(x, u))
  {
    Times(x, 1.0 - u);
    assert s * Less(x, u) == (x * s) * (1.0 - u) && s * More(x, u) == (x * s) * (1.0 + u);
  }

  lemma MulRounds(a: int, b: int)
    requires a >= 0 && b >= 0
    ensures RoundsTo(Mul(a, b), a, b, ONE)
  {
    hide Chop;
    ScaleOrder(a, 0, b);
    ChopNearest(a * b);
  }

  lemma BigMulRounds(a: int, b: int)
    requires a >= 0 && b >= 0
    ensures RoundsTo(BigMul(a, b), a, b, BIG)
  {
    hide BigChopNat;
    ScaleOrder(a, 0, b);
    BigChopNearest(a * b);
  }

  lemma BigChopNearest(n: nat)
    ensures BigChopNat(n) >= 0 && -BIG <= 2 * (BigChopNat(n) * BIG - n) <= BIG
  {
  }

  lemma PowerIsPower(d: nat, n: nat)
    ensures IsPower(Power(d, n), d, n, ONE)
  {
    hide Mul, IsPower;
    if n == 0 {
      NoFactors(d, ONE);
    } else {
      forall a, b ensures a >= 0 && b >= 0 ==> RoundsTo(Mul(a, b), a, b, ONE) {
        if a >= 0 && b >= 0 {
          MulRounds(a, b);
        }
      }
      MulKeepsSide();
      LoopIsPower(Mul, ONE, d, n);
    }
  }

  lemma BigPowerIsPower(d: nat, n: nat)
    ensures IsPower(BigPower(d, n), d, n, BIG)
  {
    hide BigMul, IsPower;
    if n == 0 {
      NoFactors(d, BIG);
    } else {
      forall a, b ensures a >= 0 && b >= 0 ==> RoundsTo(BigMul(a, b), a, b, BIG) {
        if a >= 0 && b >= 0 {
          BigMulRounds(a, b);
        }
      }
      BigMulKeepsSide();
      LoopIsPower(BigMul, BIG, d, n);
    }
  }

  lemma NoFactors(d: nat, one: int)
    requires one > 0
    ensures IsPower(one, d, 0, one)
  {
    assert forall x :: RealPower(x, 0) == 1.0;
  }
}
