/** Real numbers to whole powers, with bounds found by repeated squaring. */
module RealPowers {
  import opened RealDecimal

  ghost function RealPower(y: real, n: nat): real {
    if n == 0 then 1.0 else RealPower(y, n - 1) * y
  }

  lemma NextPowerExact(y: real, n: nat)
    ensures RealPower(y, n + 1) == RealPower(y, n) * y
  {
  }

  lemma {:induction false} PowerNonNegative(y: real, n: nat)
    requires y >= 0.0
    ensures RealPower(y, n) >= 0.0
  {
    if n > 0 {
      PowerNonNegative(y, n - 1);
      Times(RealPower(y, n - 1), y);
    }
  }

  lemma {:induction false} PowerFalls(y: real, n: nat, m: nat)
    requires 0.0 <= y <= 1.0 && n <= m
    ensures 0.0 <= RealPower(y, m) <= RealPower(y, n)
    decreases m
  {
    if n < m {
      PowerFalls(y, n, m - 1);
      BoundedProduct(RealPower(y, m - 1), y, RealPower(y, m - 1), 1.0);
      Times(RealPower(y, m - 1), y);
    } else if n > 0 {
      PowerFalls(y, n - 1, m - 1);
      Times(RealPower(y, m - 1), y);
    }
  }

  lemma {:induction false} PowerAdds(y: real, n: nat, m: nat)
    ensures RealPower(y, n + m) == RealPower(y, n) * RealPower(y, m)
  {
    if m > 0 {
      PowerAdds(y, n, m - 1);
      assert RealPower(y, n) * (RealPower(y, m - 1) * y) == (RealPower(y, n) * RealPower(y, m - 1)) * y;
    }
  }

  lemma PowerOfOne(y: real)
    ensures RealPower(y, 1) == y
  {
    assert RealPower(y, 0) == 1.0;
  }

  /** y^(2n + bit), from y^n. */
  lemma PowerDoubles(y: real, n: nat, bit: nat)
    requires bit <= 1
    ensures RealPower(y, 2 * n + bit) == RealPower(y, n) * RealPower(y, n) * (if bit == 1 then y else 1.0)
  {
    hide RealPower;
    PowerAdds(y, n, n);
    PowerAdds(y, 2 * n, 1);
    PowerOfOne(y);
  }

  lemma PowerBelow(y: real, n: nat, b: real, bit: nat, c: real)
    requires 0.0 <= y <= 1.0 && bit <= 1 && 0.0 <= RealPower(y, n) <= b
    requires b * b * (if bit == 1 then y else 1.0) <= c
    ensures 0.0 <= RealPower(y, 2 * n + bit) <= c
  {
    hide RealPower;
    PowerDoubles(y, n, bit);
    var p := RealPower(y, n);
    ProductOrder(p, p, b, b);
    ProductOrder(p * p, if bit == 1 then y else 1.0, b * b, if bit == 1 then y else 1.0);
  }

  lemma PowerAbove(y: real, n: nat, b: real, bit: nat, c: real)
    requires 0.0 <= y <= 1.0 && bit <= 1 && 0.0 <= b <= RealPower(y, n)
    requires c <= b * b * (if bit == 1 then y else 1.0)
    ensures c <= RealPower(y, 2 * n + bit)
  {
    hide RealPower;
    PowerDoubles(y, n, bit);
    var p := RealPower(y, n);
    ProductOrder(b, b, p, p);
    ProductOrder(b * b, if bit == 1 then y else 1.0, p * p, if bit == 1 then y else 1.0);
  }

  lemma {:induction false} PowerMonotone(y: real, z: real, n: nat)
    requires 0.0 <= y <= z
    ensures 0.0 <= RealPower(y, n) <= RealPower(z, n)
  {
    if n > 0 {
      PowerMonotone(y, z, n - 1);
      ProductOrder(RealPower(y, n - 1), y, RealPower(z, n - 1), z);
    }
  }

  /** Bernoulli's inequality. */
  lemma {:induction false} BernoulliReal(x: real, q: nat)
    requires 0.0 <= x <= 1.0
    ensures RealPower(1.0 - x, q) >= 1.0 - q as real * x
  {
    if q > 0 {
      BernoulliReal(x, q - 1);
      var p, s := RealPower(1.0 - x, q - 1), (q - 1) as real;
      PowerNonNegative(1.0 - x, q - 1);
      Times(s, x * x);
      if p >= 1.0 - s * x {
        Times(p - (1.0 - s * x), 1.0 - x);
        assert (1.0 - s * x) * (1.0 - x) == 1.0 - (s + 1.0) * x + s * (x * x);
      }
    }
  }

  lemma {:induction false} PowerOfProduct(y: real, z: real, n: nat)
    ensures RealPower(y * z, n) == RealPower(y, n) * RealPower(z, n)
  {
    if n > 0 {
      PowerOfProduct(y, z, n - 1);
      var p, q := RealPower(y, n - 1), RealPower(z, n - 1);
      assert (p * q) * (y * z) == (p * y) * (q * z);
    }
  }

  lemma {:induction false} PowerPositive(y: real, n: nat)
    requires y > 0.0
    ensures RealPower(y, n) > 0.0
  {
    if n > 0 {
      PowerPositive(y, n - 1);
    }
  }

  lemma {:induction false} PowerOfUnit(n: nat)
    ensures RealPower(1.0, n) == 1.0
  {
    if n > 0 {
      PowerOfUnit(n - 1);
    }
  }
}
