/** The priority of a transaction by its fee (app/ante/validator_tx_fee.go). */
module FeePriority {

  const MAX_INT64 := 9_223_372_036_854_775_807

  /** One coin's price per unit of gas, cut, and clamped to 64 bits. */
  function Price(amount: nat, gas: int): int
    requires gas > 0
  {
    if amount / gas > MAX_INT64 then MAX_INT64 else amount / gas
  }

  /** Below the clamp the price is the amount per unit of gas, cut to a whole number. */
  lemma PriceIs(amount: nat, gas: int)
    requires gas > 0
    ensures var p := Price(amount, gas);
            0 <= p <= 9_223_372_036_854_775_807
            && gas * p <= amount && (amount < gas * (p + 1) || p == 9_223_372_036_854_775_807)
  {
    var q, r := amount / gas, amount % gas;
    assert amount == gas * q + r && 0 <= r < gas;
    assert gas * (q + 1) == gas * q + gas;
    assert q >= 0;
    if q > MAX_INT64 {
      var d := q - MAX_INT64;
      assert gas * q == gas * MAX_INT64 + gas * d;
      assert gas * d >= 0;
    }
  }

  function Prices(fee: seq<nat>, gas: int): seq<int>
    requires gas > 0
  {
    seq(|fee|, i requires 0 <= i < |fee| => Price(fee[i], gas))
  }

  /** The priority after the coins priced ps, starting from `priority`. */
  function Folded(ps: seq<int>, priority: int): int {
    if ps == [] then priority
    else Folded(ps[1..], if priority == 0 || ps[0] < priority then ps[0] else priority)
  }

  predicate IsMinimum(m: int, ps: seq<int>) {
    m in ps && forall p | p in ps :: m <= p
  }

  /** Where the longest suffix without a zero starts. */
  function SuffixStart(ps: seq<int>): (k: nat)
    ensures k <= |ps|
    ensures forall i | k <= i < |ps| :: ps[i] != 0
    ensures k == 0 || ps[k - 1] == 0
  {
    if ps == [] then 0
    else if ps[|ps| - 1] == 0 then |ps|
    else SuffixStart(ps[..|ps| - 1])
  }

  lemma {:induction false} FoldedAppend(ps: seq<int>, p: int, priority: int)
    ensures Folded(ps + [p], priority) == Folded([p], Folded(ps, priority))
  {
    if ps == [] {
      assert ps + [p] == [p];
    } else {
      assert (ps + [p])[1..] == ps[1..] + [p];
      FoldedAppend(ps[1..], p, if priority == 0 || ps[0] < priority then ps[0] else priority);
    }
  }

  lemma FoldedOne(p: int, priority: int)
    ensures Folded([p], priority) == if priority == 0 || p < priority then p else priority
  {
  }

  /**
   A price of zero makes the loop forget what it saw: the priority is the
   minimum over the longest suffix without a zero, or 0 if that is empty.
   */
  lemma {:induction false} PriorityIsSuffixMinimum(ps: seq<int>)
    requires forall p | p in ps :: p >= 0
    ensures var k := SuffixStart(ps);
            if k == |ps| then Folded(ps, 0) == 0 else IsMinimum(Folded(ps, 0), ps[k..])
    ensures Folded(ps, 0) >= 0
    decreases |ps|
  {
    hide IsMinimum, Folded;
    if ps == [] {
      FoldedNone(0);
    } else {
      var n := |ps| - 1;
      var before, p := ps[..n], ps[n];
      assert ps == before + [p] && p in ps && forall q | q in before :: q in ps;
      PriorityIsSuffixMinimum(before);
      FoldedAppend(before, p, 0);
      FoldedOne(p, Folded(before, 0));
      var k := SuffixStart(before);
      assert ps[k..] == before[k..] + [p];
      if p != 0 {
        if k == n {
          MinimumOfOne(p);
          assert ps[k..] == [p];
        } else {
          MinimumNonZero(Folded(before, 0), before[k..]);
          MinimumAppend(Folded(before, 0), before[k..], p);
        }
      }
    }
  }

  lemma FoldedNone(priority: int)
    ensures Folded([], priority) == priority
  {
  }

  lemma MinimumOfOne(p: int)
    ensures IsMinimum(p, [p])
  {
  }

  lemma MinimumNonZero(m: int, ps: seq<int>)
    requires IsMinimum(m, ps) && forall i | 0 <= i < |ps| :: ps[i] != 0
    ensures m != 0
  {
  }

  lemma MinimumAppend(m: int, ps: seq<int>, p: int)
    requires IsMinimum(m, ps)
    ensures IsMinimum(if p < m then p else m, ps + [p])
  {
  }

  /** The plain minimum, exactly when no price is zero or the last one is. */
  lemma PlainMinimumExactly(ps: seq<int>)
    requires ps != [] && forall p | p in ps :: p >= 0
    ensures IsMinimum(Folded(ps, 0), ps) <==> 0 !in ps || ps[|ps| - 1] == 0
  {
    PriorityIsSuffixMinimum(ps);
    var k := SuffixStart(ps);
    if k == 0 {
      assert ps[k..] == ps;
    } else {
      assert ps[k - 1] in ps;
      if k < |ps| {
        assert Folded(ps, 0) in ps[k..];
      }
    }
  }

  /** getTxPriority. */
  method GetTxPriority(fee: seq<nat>, gas: int) returns (priority: int)
    requires gas > 0
    ensures priority == Folded(Prices(fee, gas), 0)
    ensures 0 <= priority <= MAX_INT64
  {
    priority := 0;
    ghost var ps := Prices(fee, gas);
    for i := 0 to |fee|
      invariant 0 <= priority <= MAX_INT64
      invariant Folded(ps[i..], priority) == Folded(ps, 0)
    {
      assert ps[i..][0] == ps[i] && ps[i..][1..] == ps[i + 1..];
      var p := MAX_INT64;
      var gasPrice := fee[i] / gas;
      if gasPrice <= MAX_INT64 {
        p := gasPrice;
      }
      if priority == 0 || p < priority {
        priority := p;
      }
    }
  }
}
