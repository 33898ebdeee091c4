/** The exact binomial series of (1 + x)^a over the reals, cut after n terms. */
module BinomialSeries {
  import opened RealDecimal

  /** The next term, from the term before it. */
  ghost function Advance(t: real, c: real, x: real, i: real): real
    requires i >= 1.0
  {
    t * c * x / i
  }

  ghost function Term(a: real, x: real, k: nat): real {
    if k == 0 then 1.0 else Advance(Term(a, x, k - 1), a - (k - 1) as real, x, k as real)
  }

  ghost function Partial(a: real, x: real, n: nat): real {
    if n == 0 then 1.0 else Partial(a, x, n - 1) + Term(a, x, n)
  }

  ghost function Partials(a: real, x: real): nat -> real {
    (n: nat) => Partial(a, x, n)
  }

  lemma NextTerm(a: real, x: real, n: nat)
    requires n >= 1
    ensures var p := -Term(a, x, n - 1) * ((n - 1) as real - a);
            -Term(a, x, n) == p * (-x) / (n as real)
            && Partial(a, x, n) == Partial(a, x, n - 1) - p * (-x) / (n as real)
  {
  }

  /**
   For 0 < a <= 1 and -1 <= x <= 0 every partial sum is at least 1 + x. What the
   sum has to spare covers all terms still to come: a times the slack is at
   least the last term's magnitude times n - a.
   */
  lemma {:induction false} PartialAtLeastBase(a: real, x: real, n: nat)
    requires 0.0 < a <= 1.0 && -1.0 <= x <= 0.0 && n >= 1
    ensures Term(a, x, n) <= 0.0
    ensures a * (Partial(a, x, n) - (1.0 + x)) >= -Term(a, x, n) * (n as real - a)
    ensures Partial(a, x, n) >= 1.0 + x
  {
    if n == 1 {
      FirstPartial(a, x);
    } else {
      PartialAtLeastBase(a, x, n - 1);
      LaterPartial(a, x, n);
    }
  }

  lemma LaterPartial(a: real, x: real, n: nat)
    requires 0.0 < a <= 1.0 && -1.0 <= x <= 0.0 && n >= 2
    requires Term(a, x, n - 1) <= 0.0
    requires a * (Partial(a, x, n - 1) - (1.0 + x)) >= -Term(a, x, n - 1) * ((n - 1) as real - a)
    ensures Term(a, x, n) <= 0.0
    ensures a * (Partial(a, x, n) - (1.0 + x)) >= -Term(a, x, n) * (n as real - a)
    ensures Partial(a, x, n) >= 1.0 + x
  {
    hide Term, Partial;
    var p := -Term(a, x, n - 1) * ((n - 1) as real - a);
    Times(-Term(a, x, n - 1), (n - 1) as real - a);
    NextTerm(a, x, n);
    SpendSlack(a, -x, n as real, p, Partial(a, x, n - 1) - (1.0 + x), -Term(a, x, n),
               Partial(a, x, n) - (1.0 + x));
  }

  lemma FirstPartial(a: real, x: real)
    requires 0.0 < a <= 1.0 && -1.0 <= x <= 0.0
    ensures Term(a, x, 1) == a * x <= 0.0
    ensures Partial(a, x, 1) - (1.0 + x) == -x * (1.0 - a) >= 0.0
    ensures a * (Partial(a, x, 1) - (1.0 + x)) == -Term(a, x, 1) * (1.0 - a)
  {
  }

  lemma PositiveFactor(a: real, s: real, t: real, d: real)
    requires a > 0.0 && t >= 0.0 && d >= 0.0 && a * s >= t * d
    ensures s >= 0.0
  {
  }

  lemma SpendSlack(a: real, z: real, n: real, p: real, slack: real, t: real, rest: real)
    requires 0.0 < a <= 1.0 && 0.0 <= z <= 1.0 && n >= 1.0 && p >= 0.0 && a * slack >= p
    requires t == p * z / n && rest == slack - t
    ensures t >= 0.0 && a * rest >= t * (n - a) && rest >= 0.0
  {
    Times(p, z);
    assert t * n == p * z;
    Times(p, 1.0 - z);
    assert a * (slack - t) == a * slack - a * t;
    assert t * (n - a) == t * n - a * t;
    assert p * (1.0 - z) == p - p * z;
    PositiveFactor(a, rest, t, n - a);
  }

  // ----- what the cut leaves out -----

  /** For 0 <= a <= 1 a term is at most |x| times the one before. */
  lemma TermRatio(a: real, x: real, n: nat, bound: real)
    requires 0.0 <= a <= 1.0 && Magnitude(x) <= bound
    ensures Magnitude(Term(a, x, n + 1)) <= bound * Magnitude(Term(a, x, n))
  {
    hide Advance;
    AdvanceRatio(Term(a, x, n), a - n as real, x, (n + 1) as real, bound);
  }

  lemma AdvanceRatio(t: real, c: real, x: real, i: real, bound: real)
    requires i >= 1.0 && Magnitude(c) <= i && Magnitude(x) <= bound
    ensures Magnitude(Advance(t, c, x, i)) <= bound * Magnitude(t)
  {
    MagnitudeOfQuotient(t * c * x, i);
    MagnitudeOfProduct(t * c, x);
    MagnitudeOfProduct(t, c);
    ShrinkProduct(Magnitude(t), Magnitude(c), Magnitude(x), i, bound);
  }

  lemma ShrinkProduct(t: real, c: real, x: real, i: real, bound: real)
    requires t >= 0.0 && 0.0 <= c <= i && 0.0 <= x <= bound && i >= 1.0
    ensures t * c * x / i <= bound * t
  {
    var q := t * c * x / i;
    assert q * i == t * c * x;
    Times(t, i - c);
    Times(t * i, bound - x);
    Times(t * (i - c), x);
    assert (bound * t) * i - t * c * x == (t * i) * (bound - x) + (t * (i - c)) * x;
    CancelFactor(q, bound * t, i);
  }

  lemma {:induction false} HalvingTerms(a: real, x: real, m: nat, n: nat)
    requires 0.0 <= a <= 1.0 && -0.5 <= x <= 0.5 && m <= n
    ensures Magnitude(Partial(a, x, n) - Partial(a, x, m)) + Magnitude(Term(a, x, n)) <= Magnitude(Term(a, x, m))
    decreases n
  {
    hide Term;
    if n > m {
      HalvingTerms(a, x, m, n - 1);
      TermRatio(a, x, n - 1, 0.5);
      HalvingTail(Partial(a, x, n - 1) - Partial(a, x, m), Term(a, x, n - 1), Term(a, x, n), Magnitude(Term(a, x, m)));
    }
  }

  /** For |x| <= 1/2 all that follows the n-th partial sum is at most twice the next term. */
  lemma HalvingRest(a: real, x: real, m: nat, n: nat)
    requires 0.0 <= a <= 1.0 && -0.5 <= x <= 0.5 && m <= n
    ensures Magnitude(Partial(a, x, n) - Partial(a, x, m)) <= 2.0 * Magnitude(Term(a, x, m + 1))
  {
    hide Term;
    if n > m {
      HalvingTerms(a, x, m + 1, n);
    }
  }

  /** For x >= 0 the terms from the first on alternate. */
  lemma TermAlternates(a: real, x: real, n: nat)
    requires 0.0 <= a <= 1.0 && x >= 0.0 && n >= 1
    ensures Term(a, x, n) >= 0.0 ==> Term(a, x, n + 1) <= 0.0
    ensures Term(a, x, n) <= 0.0 ==> Term(a, x, n + 1) >= 0.0
  {
    hide Advance;
    OppositeSign(Term(a, x, n), a - n as real, x, (n + 1) as real);
  }

  lemma OppositeSign(t: real, c: real, x: real, i: real)
    requires c <= 0.0 && x >= 0.0 && i >= 1.0
    ensures t >= 0.0 ==> Advance(t, c, x, i) <= 0.0
    ensures t <= 0.0 ==> Advance(t, c, x, i) >= 0.0
  {
    var q := Advance(t, c, x, i);
    assert q * i == t * c * x;
    Times(Magnitude(t), -c);
    Times(Magnitude(t) * (-c), x);
    if t >= 0.0 {
      assert t * c * x == -(t * (-c) * x);
      CancelFactor(q, 0.0, i);
    }
    if t <= 0.0 {
      assert t * c * x == (-t) * (-c) * x;
      CancelFactor(0.0, q, i);
    }
  }

  lemma NextSum(a: real, x: real, n: nat)
    ensures Partial(a, x, n + 1) == Partial(a, x, n) + Term(a, x, n + 1)
  {
  }

  /** For 0 <= x <= 1 all that follows the m-th partial sum lies between 0 and the next term. */
  lemma {:induction false} AlternatingRest(a: real, x: real, m: nat, n: nat)
    requires 0.0 <= a <= 1.0 && 0.0 <= x <= 1.0 && m <= n
    ensures var d, t := Partial(a, x, n) - Partial(a, x, m), Term(a, x, m + 1);
            if t >= 0.0 then 0.0 <= d <= t else t <= d <= 0.0
    decreases n - m
  {
    hide Term, Partial;
    if n > m {
      NextSum(a, x, m);
      AlternatingRest(a, x, m + 1, n);
      TermAlternates(a, x, m + 1);
      TermRatio(a, x, m + 1, 1.0);
    }
  }
}
