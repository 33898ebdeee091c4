/** The stake needed to vote (app/ante/gov_vote_ante.go). */
module GovVote {
  import opened Basics
  import opened Decimal
  import opened Authz

  const MAX_CHECKED := 100

  /** A validator that is delegated to has shares; the library divides by them. */
  type Positive = n: int | n > 0 witness 1

  datatype Validator = Validator(tokens: int, delegatorShares: Positive)

  /** A delegation's shares (a decimal), and its validator if that is found. */
  datatype Delegation = Delegation(shares: int, validator: Option<Validator>)

  /** Tokens that shares are worth, cut to 18 digits; nothing for a missing validator. */
  function Tokens(d: Delegation): int {
    match d.validator
    case None => 0
    case Some(v) => TruncDiv(TruncDiv(d.shares * v.tokens * ONE * ONE, v.delegatorShares), ONE)
  }

  /** The guard digits do not show: tokens are the exact share, cut once. */
  lemma TokensAreCutShare(d: Delegation)
    requires d.validator.Some? && d.shares >= 0 && d.validator.value.tokens >= 0
    ensures var v := d.validator.value;
            Tokens(d) == (d.shares * v.tokens * ONE) / v.delegatorShares
  {
    var v := d.validator.value;
    var a, b: int := d.shares * v.tokens * ONE, v.delegatorShares;
    ScaleOrder(d.shares, 0, v.tokens);
    CutTwice(a, b);
  }

  lemma CutTwice(a: nat, b: int)
    requires b > 0
    ensures ((a * ONE) / b) / ONE == a / b
  {
    var q := (a * ONE) / b;
    var p, r := a / b, a % b;
    assert a == b * p + r && 0 <= r < b;
    assert b * (p * ONE) + r * ONE == a * ONE;
    DivAtLeast(a * ONE, b, p * ONE);
    assert b * ((p + 1) * ONE) == b * (p * ONE) + b * ONE;
    if q >= (p + 1) * ONE {
      ScaleOrder(b, (p + 1) * ONE, q);
      assert false;
    }
  }

  function Total(ds: seq<Delegation>): int {
    if ds == [] then 0 else Total(ds[..|ds| - 1]) + Tokens(ds[|ds| - 1])
  }

  function Min(a: int, b: int): int {
    if a <= b then a else b
  }

  /** Some delegation, among those looked at, whose validator is found, completes the minimum. */
  predicate Reaches(ds: seq<Delegation>, minimum: int) {
    exists j | 0 < j <= Min(|ds|, MAX_CHECKED) :: ds[j - 1].validator.Some? && Total(ds[..j]) >= minimum
  }

  /** The iteration over a voter's delegations: it stops when the minimum is
      reached or when 100 delegations were counted. */
  method EnoughStake(ds: seq<Delegation>, minimum: int) returns (enoughStake: bool)
    ensures enoughStake == Reaches(ds, minimum)
  {
    enoughStake := false;
    var delegationCount, stakedTokens := 0, 0;
    var i := 0;
    while i < |ds|
      invariant 0 <= i == delegationCount <= |ds| && i < MAX_CHECKED
      invariant stakedTokens == Total(ds[..i])
      invariant forall j | 0 < j <= i :: ds[j - 1].validator.Some? ==> Total(ds[..j]) < minimum
    {
      assert ds[..i + 1][..i] == ds[..i];
      if ds[i].validator.Some? {
        stakedTokens := stakedTokens + Tokens(ds[i]);
        if stakedTokens >= minimum {
          assert 0 < i + 1 <= Min(|ds|, MAX_CHECKED) && ds[i + 1 - 1].validator.Some?;
          return true;
        }
      }
      delegationCount := delegationCount + 1;
      i := i + 1;
      if delegationCount >= MAX_CHECKED {
        break;
      }
    }
  }

  lemma {:induction false} TotalGrows(ds: seq<Delegation>, i: nat, j: nat)
    requires i <= j <= |ds|
    requires forall d | d in ds :: Tokens(d) >= 0
    ensures Total(ds[..i]) <= Total(ds[..j])
    decreases j - i
  {
    if i < j {
      TotalGrows(ds, i, j - 1);
      assert ds[..j][..j - 1] == ds[..j - 1];
      assert ds[j - 1] in ds;
    }
  }

  lemma {:induction false} Completes(ds: seq<Delegation>, j: nat, minimum: int) returns (k: nat)
    requires j <= |ds| && minimum > 0 && Total(ds[..j]) >= minimum
    ensures 0 < k <= j && ds[k - 1].validator.Some? && Total(ds[..k]) >= minimum
    decreases j
  {
    assert ds[..0] == [];
    if ds[j - 1].validator.Some? {
      k := j;
    } else {
      assert ds[..j][..j - 1] == ds[..j - 1];
      k := Completes(ds, j - 1, minimum);
    }
  }

  /**
   For a positive minimum the check with its early exit is a plain sum: it
   accepts exactly when the first 100 delegations, or all if fewer, are worth
   the minimum. Missing validators add nothing but use up the count.
   */
  lemma EnoughExactly(ds: seq<Delegation>, minimum: int)
    requires minimum > 0
    requires forall d | d in ds :: Tokens(d) >= 0
    ensures Reaches(ds, minimum) <==> Total(ds[..Min(|ds|, 100)]) >= minimum
  {
    hide Tokens;
    var n := Min(|ds|, MAX_CHECKED);
    if Reaches(ds, minimum) {
      var j :| 0 < j <= n && ds[j - 1].validator.Some? && Total(ds[..j]) >= minimum;
      TotalGrows(ds, j, n);
    }
    if Total(ds[..n]) >= minimum {
      var k := Completes(ds, n, minimum);
    }
  }

  // ----- the messages -----

  datatype Msg = Vote(voter: string) | Other

  datatype Rejection = InvalidAddress | InsufficientStake | CannotUnmarshal

  datatype Chain = Chain(addresses: set<string>, delegations: map<string, seq<Delegation>>, minimum: int)
  {
    function Of(voter: string): seq<Delegation> {
      if voter in delegations then delegations[voter] else []
    }

    function Check(m: Msg): Option<Rejection> {
      match m
      case Other => None
      case Vote(voter) =>
        if voter !in addresses then Some(InvalidAddress)
        else if minimum == 0 then None
        else if !Reaches(Of(voter), minimum) then Some(InsufficientStake)
        else None
    }

    method ValidMsg(m: Msg) returns (err: Option<Rejection>)
      ensures err == Check(m)
    {
      if m.Other? {
        return None;
      }
      if m.voter !in addresses {
        return Some(InvalidAddress);
      }
      if minimum == 0 {
        return None;
      }
      var enough := EnoughStake(Of(m.voter), minimum);
      if !enough {
        return Some(InsufficientStake);
      }
      return None;
    }

    method ValidAuthz(packed: seq<Option<Msg>>) returns (err: Option<Rejection>)
      ensures err == FirstError(Check, CannotUnmarshal, packed)
    {
      hide Check;
      for i := 0 to |packed|
        invariant FirstError(Check, CannotUnmarshal, packed) == FirstError(Check, CannotUnmarshal, packed[i..])
      {
        assert packed[i..][1..] == packed[i + 1..];
        if packed[i].None? {
          return Some(CannotUnmarshal);
        }
        err := ValidMsg(packed[i].value);
        if err.Some? {
          return;
        }
      }
      return None;
    }

    /** ValidateVoteMsgs. */
    method ValidateVoteMsgs(msgs: seq<TxMsg<Msg>>) returns (err: Option<Rejection>)
      ensures err == FirstError(Check, CannotUnmarshal, Flatten(msgs))
    {
      hide Check;
      for i := 0 to |msgs|
        invariant FirstError(Check, CannotUnmarshal, Flatten(msgs))
                  == FirstError(Check, CannotUnmarshal, Flatten(msgs[i..]))
      {
        assert msgs[i..][1..] == msgs[i + 1..];
        FirstErrorAppend(Check, CannotUnmarshal,
                         match msgs[i] case Plain(m) => [Some(m)] case Exec(packed) => packed, Flatten(msgs[i + 1..]));
        match msgs[i] {
          case Exec(packed) =>
            err := ValidAuthz(packed);
          case Plain(m) =>
            err := ValidMsg(m);
            assert [Some(m)][1..] == [];
        }
        if err.Some? {
          return;
        }
      }
      return None;
    }
  }

  /** A voter has the stake that the first 100 delegations must be worth. */
  predicate HasStake(chain: Chain, voter: string) {
    var ds := chain.Of(voter);
    Total(if |ds| <= 100 then ds else ds[..100]) >= chain.minimum
  }

  /** What the rule asks of a message. */
  predicate Allowed(chain: Chain, m: Msg) {
    m.Vote? ==> m.voter in chain.addresses && HasStake(chain, m.voter)
  }

  /** A message, or an execution's messages, all unpacked and allowed. */
  predicate Passes(chain: Chain, t: TxMsg<Msg>) {
    match t
    case Plain(m) => Allowed(chain, m)
    case Exec(packed) => forall j | 0 <= j < |packed| :: packed[j].Some? && Allowed(chain, packed[j].value)
  }

  /**
   A list of messages passes exactly when every one of its messages, executions
   opened once, unpacks and, if it is a vote, names a valid voter with the stake.
   */
  lemma PassesExactly(chain: Chain, msgs: seq<TxMsg<Msg>>)
    requires chain.minimum >= 0
    requires forall a, d | a in chain.delegations && d in chain.delegations[a] :: Tokens(d) >= 0
    ensures FirstError(chain.Check, CannotUnmarshal, Flatten(msgs)) == None
            <==> forall i | 0 <= i < |msgs| :: Passes(chain, msgs[i])
  {
    hide Passes, AllPass, FirstError, Tokens;
    NoErrorExactly(chain.Check, CannotUnmarshal, msgs);
    forall t ensures AllPass(chain.Check, t) <==> Passes(chain, t) {
      PassesOne(chain, t);
    }
  }

  lemma PassesOne(chain: Chain, t: TxMsg<Msg>)
    requires chain.minimum >= 0
    requires forall a, d | a in chain.delegations && d in chain.delegations[a] :: Tokens(d) >= 0
    ensures AllPass(chain.Check, t) <==> Passes(chain, t)
  {
    hide Allowed, Tokens;
    forall m ensures chain.Check(m).None? <==> Allowed(chain, m) {
      AllowedExactly(chain, m);
    }
  }

  /** What is reported for a vote that is not allowed. */
  lemma Reasons(chain: Chain, m: Msg)
    ensures chain.Check(m) == Some(InvalidAddress) <==> m.Vote? && m.voter !in chain.addresses
    ensures chain.Check(m) != Some(CannotUnmarshal)
  {
    hide Reaches;
  }

  lemma AllowedExactly(chain: Chain, m: Msg)
    requires chain.minimum >= 0
    requires forall a, d | a in chain.delegations && d in chain.delegations[a] :: Tokens(d) >= 0
    ensures chain.Check(m).None? <==> Allowed(chain, m)
  {
    hide Tokens, Reaches;
    if m.Vote? {
      var ds := chain.Of(m.voter);
      assert ds[..|ds|] == ds;
      if chain.minimum > 0 {
        EnoughExactly(ds, chain.minimum);
      } else {
        TotalGrows(ds, 0, Min(|ds|, 100));
      }
    }
  }
}
