/** The cap on a validator's projected voting power (app/ante/commission.go). */
module Commission {
  import opened Basics
  import opened Decimal
  import opened Authz

  // ----- projected power; all amounts are whole tokens -----

  function ValidatorPower(bonded: int, amount: int): int {
    if bonded <= 0 then 0
    else if bonded + amount == 0 then 0
    else Quo(amount * ONE, (bonded + amount) * ONE)
  }

  function DelegatePower(tokens: int, bonded: int, amount: int): int {
    if bonded + amount == 0 then 0
    else Quo((tokens + amount) * ONE, (bonded + amount) * ONE)
  }

  function RedelegatePower(tokens: int, bonded: int, amount: int): int {
    if bonded == 0 then 0
    else Quo((tokens + amount) * ONE, bonded * ONE)
  }

  // ----- rounded quotients follow the exact ones -----

  lemma CrossDivide(a: nat, b: int, c: nat, d: int)
    requires b > 0 && d > 0 && a * d <= c * b
    ensures a / b <= c / d
  {
    var q := a / b;
    assert b * q <= a;
    ScaleOrder(d, b * q, a);
    assert b * (d * q) == d * (b * q) && d * a == a * d && b * c == c * b;
    if d * q > c {
      ScaleOrder(b, c + 1, d * q);
      assert false;
    }
    DivAtLeast(c, d, q);
  }

  /** Two roundings, and still a larger fraction never gives a smaller decimal. */
  lemma QuoMonotone(a: nat, b: int, c: nat, d: int)
    requires b > 0 && d > 0 && a * d <= c * b
    ensures 0 <= Quo(a * ONE, b * ONE) <= Quo(c * ONE, d * ONE)
  {
    hide Chop;
    QuoOfTokens(a, b);
    QuoOfTokens(c, d);
    var s := ONE * ONE;
    assert (a * s) * d == s * (a * d) && (c * s) * b == s * (c * b);
    ScaleOrder(s, a * d, c * b);
    CrossDivide(a * s, b, c * s, d);
    ChopMonotone((a * s) / b, (c * s) / d);
    ChopNearest((a * s) / b);
  }

  lemma QuoOfTokens(a: nat, b: int)
    requires b > 0
    ensures Quo(a * ONE, b * ONE) == Chop((a * (ONE * ONE)) / b)
  {
    hide Chop;
    DivCancel(a * (ONE * ONE), b, ONE);
  }

  lemma QuoOfEqual(b: int)
    requires b > 0
    ensures Quo(b * ONE, b * ONE) == ONE
  {
    hide Chop;
    QuoOfTokens(b, b);
    assert b * (ONE * ONE) == b * (ONE * ONE) + 0;
    DivUnique(b * (ONE * ONE), b, ONE * ONE, 0);
    ChopExact(ONE);
  }

  /** The share of part in whole, to the nearest ulp but for the digits cut before
      rounding: twice the error is below one ulp and 2 * 10^-18 of one. */
  ghost predicate IsShare(power: int, part: nat, whole: int) {
    2 * whole * power <= 2 * part * ONE + whole
    && ONE * (2 * whole * power - 2 * part * ONE + whole) > -2 * whole
  }

  lemma QuoNearest(a: nat, b: int)
    requires b > 0
    ensures IsShare(Quo(a * ONE, b * ONE), a, b)
  {
    hide Chop, Quo;
    QuoOfTokens(a, b);
    var x := a * (ONE * ONE);
    var n := x / b;
    ChopNearest(n);
    ScaleNearest(b, n, x - b * n, x, Chop(n));
    assert 2 * b * Chop(n) == 2 * (b * Chop(n));
  }

  lemma ScaleNearest(b: int, n: int, r: int, x: int, q: int)
    requires b > 0 && x == b * n + r && 0 <= r < b && -ONE <= 2 * (q * ONE - n) <= ONE
    ensures 2 * x - 2 * b - b * ONE < 2 * (b * q) * ONE <= 2 * x + b * ONE
  {
    ScaleOrder(b, 2 * n - ONE, 2 * q * ONE);
    ScaleOrder(b, 2 * q * ONE, 2 * n + ONE);
    assert b * (2 * q * ONE) == 2 * (b * q) * ONE && b * (2 * n + ONE) == 2 * (b * n) + b * ONE
        && b * (2 * n - ONE) == 2 * (b * n) - b * ONE;
  }

  /** Delegated tokens join the validator's and the bonded ones. */
  lemma DelegateIsShare(v: nat, b: nat, x: nat)
    ensures b + x == 0 ==> DelegatePower(v, b, x) == 0
    ensures b + x > 0 ==> IsShare(DelegatePower(v, b, x), v + x, b + x)
  {
    hide Quo, IsShare;
    if b + x > 0 {
      QuoNearest(v + x, b + x);
    }
  }

  /** A redelegation bonds nothing new. */
  lemma RedelegateIsShare(v: nat, b: nat, x: nat)
    ensures b == 0 ==> RedelegatePower(v, b, x) == 0
    ensures b > 0 ==> IsShare(RedelegatePower(v, b, x), v + x, b)
  {
    hide Quo, IsShare;
    if b > 0 {
      QuoNearest(v + x, b);
    }
  }

  /** The first validator of all counts zero. */
  lemma ValidatorIsShare(b: nat, x: nat)
    ensures b == 0 ==> ValidatorPower(b, x) == 0
    ensures b > 0 ==> IsShare(ValidatorPower(b, x), x, b + x)
  {
    hide Quo, IsShare;
    if b > 0 {
      QuoNearest(x, b + x);
    }
  }

  // ----- more tokens, more power -----

  lemma CrossDelegate(v: nat, b: nat, x: nat, y: nat)
    requires x <= y
    ensures v <= b ==> (v + x) * (b + y) <= (v + y) * (b + x)
    ensures v >= b ==> (v + y) * (b + x) <= (v + x) * (b + y)
  {
  }

  /** With no more tokens than are bonded, a larger delegation has no less power. */
  lemma DelegateMonotone(v: nat, b: nat, x: nat, y: nat)
    requires v <= b && x <= y
    ensures 0 <= DelegatePower(v, b, x) <= DelegatePower(v, b, y)
  {
    hide Quo;
    if b + x > 0 {
      CrossDelegate(v, b, x, y);
      QuoMonotone(v + x, b + x, v + y, b + y);
    } else if y > 0 {
      assert (v + y) * (b + y) <= (v + y) * (b + y);
      QuoMonotone(v + y, b + y, v + y, b + y);
    }
  }

  lemma RedelegateMonotone(v: nat, b: nat, x: nat, y: nat)
    requires x <= y
    ensures 0 <= RedelegatePower(v, b, x) <= RedelegatePower(v, b, y)
  {
    hide Quo;
    if b > 0 {
      ScaleOrder(b, v + x, v + y);
      QuoMonotone(v + x, b, v + y, b);
    }
  }

  lemma ValidatorMonotone(b: nat, x: nat, y: nat)
    requires x <= y
    ensures 0 <= ValidatorPower(b, x) <= ValidatorPower(b, y)
  {
    hide Quo;
    if b > 0 {
      CrossDelegate(0, b, x, y);
      QuoMonotone(x, b + x, y, b + y);
    }
  }

  /** Redelegating counts at least as much as delegating, once anything is bonded. */
  lemma RedelegateAtLeastDelegate(v: nat, b: nat, x: nat)
    requires b > 0
    ensures DelegatePower(v, b, x) <= RedelegatePower(v, b, x)
  {
    hide Quo;
    ScaleOrder(v + x, b, b + x);
    QuoMonotone(v + x, b + x, v + x, b);
  }

  /** With nothing bonded it does not: a redelegation then always counts as zero. */
  lemma NothingBonded(v: nat, x: nat)
    requires x > 0
    ensures RedelegatePower(v, 0, x) == 0 && DelegatePower(v, 0, x) >= ONE
  {
    hide Quo;
    QuoOfEqual(x);
    ScaleOrder(x, x, v + x);
    QuoMonotone(x, x, v + x, x);
  }

  ghost predicate PowerGrows(v: nat, b: nat) {
    forall x: nat, y: nat | x <= y :: DelegatePower(v, b, x) <= DelegatePower(v, b, y)
  }

  /** For a validator with more tokens than are bonded, power falls toward 1. */
  lemma PowerFalls(v: nat, b: nat, x: nat)
    requires v >= b && b + x > 0
    ensures ONE <= DelegatePower(v, b, x)
    ensures b > 0 ==> DelegatePower(v, b, x) <= DelegatePower(v, b, 0)
  {
    hide Quo;
    QuoOfEqual(b + x);
    ScaleOrder(b + x, b + x, v + x);
    QuoMonotone(b + x, b + x, v + x, b + x);
    if b > 0 {
      CrossDelegate(v, b, 0, x);
      QuoMonotone(v + x, b + x, v, b);
    }
  }

  lemma QuotientNearOne(n: nat, d: int, s: nat, half: nat)
    requires d > 0 && n >= d && half > 0 && (n - d) * s < d * half
    ensures s <= (n * s) / d < s + half
  {
    ScaleOrder(s, d, n);
    DivAtLeast(n * s, d, s);
    var q := (n * s) / d;
    assert n * s == d * s + (n - d) * s && d * (s + half) == d * s + d * half;
    if q >= s + half {
      ScaleOrder(d, s + half, q);
      assert false;
    }
  }

  /** A large enough delegation has power exactly 1, after rounding. */
  lemma PowerReachesOne(v: nat, b: nat)
    requires v > b
    ensures DelegatePower(v, b, 4 * ONE * v) == ONE
  {
    hide Chop, Quo;
    var x := 4 * ONE * v;
    QuoOfTokens(v + x, b + x);
    ScaleOrder(ONE * ONE, v - b, v);
    ScaleOrder(HALF, x, b + x);
    QuotientNearOne(v + x, b + x, ONE * ONE, HALF);
    var q := ((v + x) * (ONE * ONE)) / (b + x);
    ChopNearest(q);
  }

  /** The largest power that delegating can give a validator with more tokens than are bonded. */
  function PeakPower(v: nat, b: nat): int {
    DelegatePower(v, b, if b == 0 then 1 else 0)
  }

  lemma AtMostPeak(v: nat, b: nat, x: nat)
    requires v >= b && b + x > 0
    ensures ONE <= DelegatePower(v, b, x) <= PeakPower(v, b)
  {
    hide Quo;
    PowerFalls(v, b, x);
    if b == 0 {
      CrossDelegate(v, 0, 1, x);
      QuoMonotone(v + x, x, v + 1, 1);
    }
  }

  /** With no more tokens than are bonded the peak, the share held already, is at most 1. */
  lemma SmallPeak(v: nat, b: nat)
    ensures v <= b ==> PeakPower(v, b) <= ONE
    ensures b == 0 < v ==> PeakPower(v, b) > ONE
  {
    hide Quo;
    if b == 0 {
      QuoOfTokens(v + 1, 1);
      ChopExact((v + 1) * ONE);
    } else if v <= b {
      QuoOfEqual(b);
      ScaleOrder(b, v, b);
      QuoMonotone(v, b, b, b);
    }
  }

  ghost predicate CapIsClosed(v: nat, b: nat, cap: int) {
    forall x: nat, y: nat | x <= y && DelegatePower(v, b, y) <= cap :: DelegatePower(v, b, x) <= cap
  }

  /** Whatever the amounts, a cap lets through all that is below an amount it
      lets through exactly if the peak is at most 1 or the cap is not in [1, peak). */
  lemma CapIsClosedExactly(v: nat, b: nat, cap: int)
    ensures CapIsClosed(v, b, cap) <==> PeakPower(v, b) <= ONE || cap < ONE || PeakPower(v, b) <= cap
  {
    hide DelegatePower, PeakPower;
    SmallPeak(v, b);
    if v <= b {
      forall x: nat, y: nat | x <= y ensures DelegatePower(v, b, x) <= DelegatePower(v, b, y) {
        DelegateMonotone(v, b, x, y);
      }
    } else {
      forall x: nat
        ensures if b + x > 0 then ONE <= DelegatePower(v, b, x) <= PeakPower(v, b) else DelegatePower(v, b, x) == 0
      {
        NothingThere(v, b, x);
        if b + x > 0 {
          AtMostPeak(v, b, x);
        }
      }
      PowerReachesOne(v, b);
      Peak(v, b);
      var x0, y0: nat := if b == 0 then 1 else 0, 4 * ONE * v;
      assert x0 <= y0 && DelegatePower(v, b, x0) == PeakPower(v, b) && DelegatePower(v, b, y0) == ONE;
    }
  }

  lemma NothingThere(v: nat, b: nat, x: nat)
    ensures b + x == 0 ==> DelegatePower(v, b, x) == 0
  {
  }

  lemma Peak(v: nat, b: nat)
    ensures PeakPower(v, b) == DelegatePower(v, b, if b == 0 then 1 else 0)
  {
  }

  lemma PowerAtMostOne(v: nat, b: nat, x: nat)
    requires v <= b && b > 0
    ensures DelegatePower(v, b, x) <= ONE
  {
    hide Quo;
    QuoOfEqual(b + x);
    ScaleOrder(b + x, v + x, b + x);
    QuoMonotone(v + x, b + x, b + x, b + x);
  }

  /** A small validator's power grows toward 1, and reaches it after rounding. */
  lemma PowerGrowsToOne(v: nat, b: nat)
    requires v < b
    ensures DelegatePower(v, b, 4 * ONE * b) == ONE
  {
    hide Chop, Quo;
    var x := 4 * ONE * b;
    QuoOfTokens(v + x, b + x);
    ScaleOrder(ONE * ONE, b - v, b);
    ScaleOrder(HALF - 1, x, b + x);
    QuotientBelowOne(v + x, b + x, ONE * ONE, HALF - 1);
    var q := ((v + x) * (ONE * ONE)) / (b + x);
    ChopNearest(q);
  }

  lemma QuotientBelowOne(n: nat, d: int, s: nat, half: nat)
    requires d > 0 && n <= d && half > 0 && (d - n) * s < d * half
    ensures s - half <= (n * s) / d <= s
  {
    assert n * s == d * s - (d - n) * s && d * (s - half) == d * s - d * half;
    ScaleOrder(s, n, d);
    DivAtLeast(n * s, d, s - half);
    DivAtMost(n * s, d, s);
  }

  /** Whether an amount that fits the cap as a redelegation, or with amount 0 if
      `fixed`, fits it as a delegation. */
  ghost predicate CapPasses(v: nat, b: nat, cap: int, fixed: bool) {
    forall x: nat | RedelegatePower(v, b, if fixed then 0 else x) <= cap :: DelegatePower(v, b, x) <= cap
  }

  lemma CapPassesExactly(v: nat, b: nat, cap: int, fixed: bool)
    ensures CapPasses(v, b, cap, fixed)
            <==> if b == 0 then cap < 0 || PeakPower(v, 0) <= cap
                 else !fixed || v >= b || cap < DelegatePower(v, b, 0) || ONE <= cap
  {
    hide DelegatePower, RedelegatePower, PeakPower;
    if b == 0 {
      Peak(v, 0);
      forall x: nat
        ensures RedelegatePower(v, 0, x) == 0
        ensures DelegatePower(v, 0, x) <= PeakPower(v, 0) && PeakPower(v, 0) >= 0
      {
        NothingThere(v, 0, x);
        NoneBonded(v, x);
        AtMostPeak(v, 0, if x == 0 then 1 else x);
      }
    } else if !fixed {
      forall x: nat ensures DelegatePower(v, b, x) <= RedelegatePower(v, b, x) {
        RedelegateAtLeastDelegate(v, b, x);
      }
    } else {
      SameWithoutAmount(v, b);
      if v >= b {
        forall x: nat ensures DelegatePower(v, b, x) <= DelegatePower(v, b, 0) {
          PowerFalls(v, b, x);
        }
      } else {
        forall x: nat ensures DelegatePower(v, b, x) <= ONE {
          PowerAtMostOne(v, b, x);
        }
        PowerGrowsToOne(v, b);
        var y: nat := 4 * ONE * b;
        assert DelegatePower(v, b, y) == ONE;
      }
    }
  }

  lemma NoneBonded(v: nat, x: nat)
    ensures RedelegatePower(v, 0, x) == 0
  {
  }

  lemma SameWithoutAmount(v: nat, b: nat)
    requires b > 0
    ensures RedelegatePower(v, b, 0) == DelegatePower(v, b, 0)
  {
  }

  /**
   "A smaller delegation has no more power" does not hold for every validator.
   It holds exactly when the peak, the present share where anything is bonded,
   rounds to at most 1.
   */
  lemma PowerGrowsExactly(v: nat, b: nat)
    ensures PowerGrows(v, b) <==> PeakPower(v, b) <= ONE
  {
    hide DelegatePower, PeakPower;
    CapIsClosedExactly(v, b, ONE);
    if PeakPower(v, b) <= ONE {
      forall x: nat, y: nat | x <= y ensures DelegatePower(v, b, x) <= DelegatePower(v, b, y) {
        CapIsClosedExactly(v, b, DelegatePower(v, b, y));
      }
    }
  }

  /** One token bonded, a validator with three: delegating nothing counts 3, delegating one counts 2. */
  lemma PowerMayFall()
    ensures DelegatePower(3, 1, 0) == 3 * ONE && DelegatePower(3, 1, 1) == 2 * ONE
  {
  }

  // ----- the messages -----

  const ELYS := "uelys"

  /** The messages that are looked at; a wrapped execution is one of the others. */
  datatype Msg =
    | CreateValidator(rate: int, amount: int)
    | EditValidator(newRate: Option<int>)
    | Delegate(validator: string, amount: int)
    | BeginRedelegate(source: string, target: string, amount: int)
    | Stake(asset: string, validator: string, amount: int)
    | Other

  datatype Rejection = CommissionTooLow | PowerTooHigh | InvalidAddress | ValidatorNotFound | CannotUnmarshal

  /** What is read from the stores: who has which tokens, what is bonded, and the parameters. */
  datatype Chain = Chain(addresses: set<string>, tokens: map<string, int>, bonded: int, minRate: int, maxPower: int)
  {
    function GetValidator(address: string): Option<Rejection> {
      if address !in addresses then Some(InvalidAddress)
      else if address !in tokens then Some(ValidatorNotFound)
      else None
    }

    function Capped(power: int): Option<Rejection> {
      if power > maxPower then Some(PowerTooHigh) else None
    }

    function ValidMsg(m: Msg): Option<Rejection> {
      match m
      case CreateValidator(rate, amount) =>
        if rate < minRate then Some(CommissionTooLow) else Capped(ValidatorPower(bonded, amount))
      case EditValidator(newRate) =>
        if newRate.Some? && newRate.value < minRate then Some(CommissionTooLow) else None
      case Delegate(validator, amount) => CheckDelegation(validator, amount)
      case BeginRedelegate(source, target, amount) =>
        if GetValidator(target).Some? then GetValidator(target)
        else Capped(RedelegatePower(tokens[target], bonded, if source == target then 0 else amount))
      case Stake(asset, validator, amount) =>
        if asset == ELYS then CheckDelegation(validator, amount) else None
      case Other => None
    }

    function CheckDelegation(validator: string, amount: int): Option<Rejection> {
      if GetValidator(validator).Some? then GetValidator(validator)
      else Capped(DelegatePower(tokens[validator], bonded, amount))
    }

    /** No count is negative, and a validator that is delegated to has at most the bonded tokens. */
    predicate Fits(m: Msg) {
      0 <= bonded &&
      match m
      case Delegate(validator, amount) => validator in tokens ==> 0 <= tokens[validator] <= bonded
      case BeginRedelegate(source, target, amount) => target in tokens ==> 0 <= tokens[target]
      case Stake(asset, validator, amount) => validator in tokens ==> 0 <= tokens[validator] <= bonded
      case _ => true
    }

    /** MinCommissionDecorator.AnteHandle, up to the call of the next handler. */
    method AnteHandle(msgs: seq<TxMsg<Msg>>) returns (err: Option<Rejection>)
      ensures err == FirstError(ValidMsg, CannotUnmarshal, Flatten(msgs))
    {
      hide ValidMsg;
      for i := 0 to |msgs|
        invariant FirstError(ValidMsg, CannotUnmarshal, Flatten(msgs))
                  == FirstError(ValidMsg, CannotUnmarshal, Flatten(msgs[i..]))
      {
        assert msgs[i..][1..] == msgs[i + 1..];
        FirstErrorAppend(ValidMsg, CannotUnmarshal,
                         match msgs[i] case Plain(m) => [Some(m)] case Exec(packed) => packed, Flatten(msgs[i + 1..]));
        match msgs[i] {
          case Exec(packed) =>
            err := ValidAuthz(packed);
          case Plain(m) =>
            err := ValidMsg(m);
            assert [Some(m)][1..] == [];
        }
        if err.Some? {
          return;
        }
      }
      return None;
    }

    method ValidAuthz(packed: seq<Option<Msg>>) returns (err: Option<Rejection>)
      ensures err == FirstError(ValidMsg, CannotUnmarshal, packed)
    {
      hide ValidMsg;
      for i := 0 to |packed|
        invariant FirstError(ValidMsg, CannotUnmarshal, packed) == FirstError(ValidMsg, CannotUnmarshal, packed[i..])
      {
        assert packed[i..][1..] == packed[i + 1..];
        if packed[i].None? {
          return Some(CannotUnmarshal);
        }
        err := ValidMsg(packed[i].value);
        if err.Some? {
          return;
        }
      }
      return None;
    }
  }

  /** A known validator. */
  predicate Known(chain: Chain, validator: string) {
    validator in chain.addresses && validator in chain.tokens
  }

  /** What the rules ask of a message. */
  predicate Allowed(chain: Chain, m: Msg) {
    && (m.CreateValidator? ==> chain.minRate <= m.rate && ValidatorPower(chain.bonded, m.amount) <= chain.maxPower)
    && (m.EditValidator? && m.newRate.Some? ==> chain.minRate <= m.newRate.value)
    && (m.Delegate? || (m.Stake? && m.asset == "uelys") ==>
          Known(chain, m.validator)
          && DelegatePower(chain.tokens[m.validator], chain.bonded, m.amount) <= chain.maxPower)
    && (m.BeginRedelegate? ==>
          Known(chain, m.target)
          && RedelegatePower(chain.tokens[m.target], chain.bonded, if m.source == m.target then 0 else m.amount)
             <= chain.maxPower)
  }

  /** A message, or an execution's messages, all unpacked and allowed. */
  predicate Passes(chain: Chain, t: TxMsg<Msg>) {
    match t
    case Plain(m) => Allowed(chain, m)
    case Exec(packed) => forall j | 0 <= j < |packed| :: packed[j].Some? && Allowed(chain, packed[j].value)
  }

  /**
   A transaction passes exactly when each of its messages, executions opened
   once, unpacks and is allowed.
   */
  lemma PassesExactly(chain: Chain, msgs: seq<TxMsg<Msg>>)
    ensures FirstError(chain.ValidMsg, CannotUnmarshal, Flatten(msgs)) == None
            <==> forall i | 0 <= i < |msgs| :: Passes(chain, msgs[i])
  {
    hide Passes, AllPass, FirstError;
    NoErrorExactly(chain.ValidMsg, CannotUnmarshal, msgs);
    forall t ensures AllPass(chain.ValidMsg, t) <==> Passes(chain, t) {
      PassesOne(chain, t);
    }
  }

  lemma PassesOne(chain: Chain, t: TxMsg<Msg>)
    ensures AllPass(chain.ValidMsg, t) <==> Passes(chain, t)
  {
    hide Allowed;
    forall m ensures chain.ValidMsg(m).None? <==> Allowed(chain, m) {
      AllowedExactly(chain, m);
    }
  }

  /** What is reported for a message that is not allowed. */
  lemma Reasons(chain: Chain, m: Msg)
    ensures chain.ValidMsg(m) == Some(CommissionTooLow)
            <==> (m.CreateValidator? && m.rate < chain.minRate)
                 || (m.EditValidator? && m.newRate.Some? && m.newRate.value < chain.minRate)
    ensures chain.ValidMsg(m) == Some(InvalidAddress)
            <==> ((m.Delegate? || (m.Stake? && m.asset == "uelys")) && m.validator !in chain.addresses)
                 || (m.BeginRedelegate? && m.target !in chain.addresses)
    ensures chain.ValidMsg(m) == Some(ValidatorNotFound)
            <==> ((m.Delegate? || (m.Stake? && m.asset == "uelys"))
                  && m.validator in chain.addresses && m.validator !in chain.tokens)
                 || (m.BeginRedelegate? && m.target in chain.addresses && m.target !in chain.tokens)
    ensures chain.ValidMsg(m) != Some(CannotUnmarshal)
  {
    hide ValidatorPower, DelegatePower, RedelegatePower;
  }

  lemma AllowedExactly(chain: Chain, m: Msg)
    ensures chain.ValidMsg(m).None? <==> Allowed(chain, m)
  {
    hide ValidatorPower, DelegatePower, RedelegatePower;
  }

  /** The same message with an amount that is no larger. */
  predicate NoLarger(small: Msg, large: Msg) {
    match large
    case CreateValidator(rate, amount) =>
      small.CreateValidator? && small.rate == rate && 0 <= small.amount <= amount
    case Delegate(validator, amount) =>
      small.Delegate? && small.validator == validator && 0 <= small.amount <= amount
    case BeginRedelegate(source, target, amount) =>
      small.BeginRedelegate? && small.source == source && small.target == target && 0 <= small.amount <= amount
    case Stake(asset, validator, amount) =>
      small.Stake? && small.asset == asset && small.validator == validator && 0 <= small.amount <= amount
    case EditValidator(newRate) => small == large
    case Other => small == large
  }

  lemma SmallerIsValid(chain: Chain, small: Msg, large: Msg)
    requires chain.Fits(large) && NoLarger(small, large) && chain.ValidMsg(large) == None
    ensures chain.ValidMsg(small) == None
  {
    hide ValidatorPower, DelegatePower, RedelegatePower;
    match large
    case CreateValidator(rate, amount) =>
      ValidatorMonotone(chain.bonded, small.amount, amount);
    case Delegate(validator, amount) =>
      DelegateMonotone(chain.tokens[validator], chain.bonded, small.amount, amount);
    case BeginRedelegate(source, target, amount) =>
      RedelegateMonotone(chain.tokens[target], chain.bonded, small.amount, amount);
    case Stake(asset, validator, amount) =>
      if asset == ELYS {
        DelegateMonotone(chain.tokens[validator], chain.bonded, small.amount, amount);
      }
    case EditValidator(newRate) =>
    case Other =>
  }

  /**
   An accepted transaction stays accepted when any of its amounts, wrapped or
   not, are made smaller, if the validators delegated to have bonded tokens only.
   */
  lemma SmallerTransactionPasses(chain: Chain, small: seq<TxMsg<Msg>>, large: seq<TxMsg<Msg>>)
    requires forall m | m in Flatten(large) && m.Some? :: chain.Fits(m.value)
    requires var s, l := Flatten(small), Flatten(large);
             |s| == |l| && forall i | 0 <= i < |l| ::
               s[i].Some? == l[i].Some? && (l[i].Some? ==> NoLarger(s[i].value, l[i].value))
    requires FirstError(chain.ValidMsg, CannotUnmarshal, Flatten(large)) == None
    ensures FirstError(chain.ValidMsg, CannotUnmarshal, Flatten(small)) == None
  {
    var s, l := Flatten(small), Flatten(large);
    NoErrorIffAllValid(chain.ValidMsg, CannotUnmarshal, l);
    NoErrorIffAllValid(chain.ValidMsg, CannotUnmarshal, s);
    forall m | m in s ensures m.Some? && chain.ValidMsg(m.value) == None {
      var i :| 0 <= i < |s| && s[i] == m;
      assert l[i] in l;
      SmallerIsValid(chain, m.value, l[i].value);
    }
  }

  /** With anything bonded, an amount that may be redelegated may also be delegated. */
  lemma RedelegationImpliesDelegation(chain: Chain)
    requires chain.bonded > 0
    ensures forall source, target, amount: nat |
              source != target && (target in chain.tokens ==> chain.tokens[target] >= 0)
              && chain.ValidMsg(BeginRedelegate(source, target, amount)) == None ::
              chain.ValidMsg(Delegate(target, amount)) == None
  {
    hide DelegatePower, RedelegatePower;
    forall source, target, amount: nat |
      source != target && (target in chain.tokens ==> chain.tokens[target] >= 0)
      && chain.ValidMsg(BeginRedelegate(source, target, amount)) == None
      ensures chain.ValidMsg(Delegate(target, amount)) == None
    {
      RedelegateAtLeastDelegate(chain.tokens[target], chain.bonded, amount);
    }
  }

  /** A redelegation from a validator to itself is checked with amount 0, so it implies nothing. */
  lemma SelfRedelegation()
    ensures var chain := Chain({"v"}, map["v" := 1], 2, 0, HALF);
            chain.ValidMsg(BeginRedelegate("v", "v", 10)) == None
            && chain.ValidMsg(Delegate("v", 10)) == Some(PowerTooHigh)
  {
  }

  /**
   Exactly when every amount that passes as a redelegation passes as a delegation.
   With nothing bonded all redelegations count zero, and the peak must fit. Else
   it is so for another source; from the target itself its share must shrink, or
   not fit as it is, or 1 must fit.
   */
  lemma RedelegationImpliesExactly(chain: Chain, source: string, target: string)
    requires chain.GetValidator(target).None? && chain.tokens[target] >= 0 && chain.bonded >= 0
    ensures (forall x: nat | chain.ValidMsg(BeginRedelegate(source, target, x)) == None ::
               chain.ValidMsg(Delegate(target, x)) == None)
            <==> var v, b, cap := chain.tokens[target], chain.bonded, chain.maxPower;
                 if b == 0 then cap < 0 || PeakPower(v, 0) <= cap
                 else source != target || v >= b || cap < DelegatePower(v, b, 0) || ONE <= cap
  {
    hide DelegatePower, RedelegatePower, PeakPower;
    var v, b, cap := chain.tokens[target], chain.bonded, chain.maxPower;
    CapPassesExactly(v, b, cap, source == target);
    forall x: nat
      ensures chain.ValidMsg(Delegate(target, x)) == None <==> DelegatePower(v, b, x) <= cap
      ensures chain.ValidMsg(BeginRedelegate(source, target, x)) == None
              <==> RedelegatePower(v, b, if source == target then 0 else x) <= cap
    {
    }
  }

  /**
   Every amount below an accepted delegation is accepted too, exactly when the
   validator's peak power is at most 1 or the cap lies outside of [1, peak).
   */
  lemma SmallerPassExactly(chain: Chain, validator: string)
    requires chain.GetValidator(validator).None? && chain.tokens[validator] >= 0 && chain.bonded >= 0
    ensures (forall x: nat, y: nat | x <= y && chain.ValidMsg(Delegate(validator, y)) == None ::
               chain.ValidMsg(Delegate(validator, x)) == None)
            <==> var peak := PeakPower(chain.tokens[validator], chain.bonded);
                 peak <= ONE || chain.maxPower < ONE || peak <= chain.maxPower
  {
    hide DelegatePower, PeakPower;
    var v, b := chain.tokens[validator], chain.bonded;
    CapIsClosedExactly(v, b, chain.maxPower);
    forall x: nat
      ensures chain.ValidMsg(Delegate(validator, x)) == None <==> DelegatePower(v, b, x) <= chain.maxPower
    {
    }
  }
}
