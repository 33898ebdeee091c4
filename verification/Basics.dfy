/** What several parts need: optional values and powers of two. */
module Basics {

  datatype Option<+T> = None | Some(value: T)

  function Pow2(k: nat): (p: nat)
    ensures p >= 1 && p >= k + 1
  {
    if k == 0 then 1 else 2 * Pow2(k - 1)
  }

  lemma Pow2Monotone(i: nat, j: nat)
    requires i <= j
    ensures Pow2(i) <= Pow2(j)
  {
  }

  lemma {:induction false} Pow2Sum(i: nat, j: nat)
    ensures Pow2(i) * Pow2(j) == Pow2(i + j)
  {
    if i > 0 {
      Pow2Sum(i - 1, j);
      TwiceProduct(Pow2(i - 1), Pow2(j), Pow2(i), Pow2(i - 1 + j));
    }
  }

  lemma TwiceProduct(p: int, q: int, twice: int, product: int)
    requires p * q == product && twice == 2 * p
    ensures twice * q == 2 * product
  {
  }

  lemma Pow2Small()
    ensures Pow2(1) == 2 && Pow2(3) == 8 && Pow2(5) == 32
  {
  }

  lemma Pow2Values()
    ensures Pow2(1) == 2 && Pow2(27) == 134_217_728
    ensures Pow2(59) == 576_460_752_303_423_488 && Pow2(60) == 2 * Pow2(59)
  {
    hide Pow2;
    Pow2Small();
    Pow2Sum(3, 3);
    Pow2Sum(6, 6);
    Pow2Sum(12, 12);
    Pow2Sum(24, 3);
    Pow2Sum(27, 27);
    Pow2Sum(54, 5);
    Pow2Sum(1, 59);
  }

  function IntPow(a: int, n: nat): int {
    if n == 0 then 1 else a * IntPow(a, n - 1)
  }

  lemma IntPowOne(a: int)
    ensures IntPow(a, 1) == a
  {
  }

  lemma {:induction false} IntPowOfTwo(n: nat)
    ensures IntPow(2, n) == Pow2(n)
  {
    if n > 0 {
      IntPowOfTwo(n - 1);
    }
  }

  lemma {:induction false} IntPowSquare(a: int, h: nat)
    ensures IntPow(a * a, h) == IntPow(a, 2 * h)
  {
    if h > 0 {
      IntPowSquare(a, h - 1);
      var p := IntPow(a, 2 * (h - 1));
      assert IntPow(a, 2 * h) == a * IntPow(a, 2 * h - 1) == a * (a * p);
    }
  }

  /** One step of square-and-multiply. */
  lemma IntPowHalves(a: int, c: int, i: nat)
    ensures IntPow(a * a, i / 2) * (if i % 2 != 0 then c * a else c) == IntPow(a, i) * c
  {
    var p := IntPow(a, 2 * (i / 2));
    IntPowSquare(a, i / 2);
    if i % 2 != 0 {
      assert IntPow(a, i) == a * p;
      assert p * (c * a) == (a * p) * c;
    }
  }

  /** Where a property holds at lo and no longer at hi, it ends somewhere between. */
  lemma {:induction false} LastOf(p: int -> bool, lo: int, hi: int) returns (t: int)
    requires lo < hi && p(lo) && !p(hi)
    ensures lo <= t < hi && p(t) && !p(t + 1)
    decreases hi - lo
  {
    t := lo;
    if p(lo + 1) {
      t := LastOf(p, lo + 1, hi);
    }
  }
}
