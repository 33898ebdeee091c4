/** Building the new oracle's parameters from the legacy stores (app/oracle.go). */
module OracleMigration {
  import opened Basics

  const USDC := "USDC"
  const USDT := "USDT"

  datatype AssetInfo = AssetInfo(denom: string, display: string, decimal: nat)

  /** A pool's id, whether it is an oracle pool, and its assets' token denoms. */
  datatype AmmPool = AmmPool(poolId: nat, useOracle: bool, assets: seq<string>)

  datatype Provider = Provider(baseDenom: string, quoteDenom: string, externLiquidityProvider: string, poolId: nat)

  datatype Denom = Denom(baseDenom: string, symbolDenom: string, exponent: nat)
  datatype RewardBand = RewardBand(symbolDenom: string, band: int)
  datatype Deviation = Deviation(baseDenom: string, threshold: string)

  /** The three parallel lists. */
  datatype Lists = Lists(denoms: seq<Denom>, bands: seq<RewardBand>, deviations: seq<Deviation>)

  const NO_ASSET := AssetInfo("", "", 0)
  const NO_LISTS := Lists([], [], [])
  const TWO_PERCENT := 20_000_000_000_000_000
  const TWO_TO_THE_32 := 4_294_967_296

  /** addDenomToList. */
  function Add(denom: string, display: string, decimal: nat, ls: Lists): Lists {
    Lists(ls.denoms + [Denom(denom, display, decimal % TWO_TO_THE_32)],
          ls.bands + [RewardBand(display, TWO_PERCENT)],
          ls.deviations + [Deviation(display, "2")])
  }

  function AddAsset(a: AssetInfo, ls: Lists): Lists {
    Add(a.denom, a.display, a.decimal, ls)
  }

  // ----- which assets are visited -----

  /** The last asset of a denom, or the empty one. */
  function Lookup(infos: seq<AssetInfo>, denom: string): AssetInfo {
    if infos == [] then NO_ASSET
    else if infos[|infos| - 1].denom == denom then infos[|infos| - 1]
    else Lookup(infos[..|infos| - 1], denom)
  }

  /** The last asset with a display name, or the empty one. */
  function LastDisplayed(infos: seq<AssetInfo>, display: string): AssetInfo {
    if infos == [] then NO_ASSET
    else if infos[|infos| - 1].display == display then infos[|infos| - 1]
    else LastDisplayed(infos[..|infos| - 1], display)
  }

  /** Lookup finds the last asset of a denom, at index i, or the empty one. */
  lemma {:induction false} LookupIsLast(infos: seq<AssetInfo>, denom: string) returns (i: int)
    ensures -1 <= i < |infos| && forall j | i < j < |infos| :: infos[j].denom != denom
    ensures if i < 0 then Lookup(infos, denom) == AssetInfo("", "", 0)
            else infos[i].denom == denom && Lookup(infos, denom) == infos[i]
  {
    i := |infos| - 1;
    if infos != [] && infos[i].denom != denom {
      i := LookupIsLast(infos[..i], denom);
    }
  }

  lemma {:induction false} LastDisplayedIsLast(infos: seq<AssetInfo>, display: string) returns (i: int)
    ensures -1 <= i < |infos| && forall j | i < j < |infos| :: infos[j].display != display
    ensures if i < 0 then LastDisplayed(infos, display) == AssetInfo("", "", 0)
            else infos[i].display == display && LastDisplayed(infos, display) == infos[i]
  {
    i := |infos| - 1;
    if infos != [] && infos[i].display != display {
      i := LastDisplayedIsLast(infos[..i], display);
    }
  }

  /** One visit of the inner loop: an asset and the pool that holds it. */
  datatype Visit = Visit(asset: AssetInfo, poolId: nat)

  function AssetVisits(infos: seq<AssetInfo>, poolId: nat, assets: seq<string>): seq<Visit> {
    if assets == [] then []
    else
      var a := Lookup(infos, assets[|assets| - 1]);
      AssetVisits(infos, poolId, assets[..|assets| - 1])
      + (if a.display != USDC && a.display != USDT then [Visit(a, poolId)] else [])
  }

  function Visits(infos: seq<AssetInfo>, pools: seq<AmmPool>): seq<Visit> {
    if pools == [] then []
    else
      var p := pools[|pools| - 1];
      Visits(infos, pools[..|pools| - 1]) + (if p.useOracle then AssetVisits(infos, p.poolId, p.assets) else [])
  }

  /** Pools are visited in order ... */
  lemma {:induction false} VisitsInOrder(infos: seq<AssetInfo>, pools: seq<AmmPool>, more: seq<AmmPool>)
    ensures Visits(infos, pools + more) == Visits(infos, pools) + Visits(infos, more)
    decreases |more|
  {
    hide AssetVisits;
    if more == [] {
      assert pools + more == pools;
    } else {
      var before, n := more[..|more| - 1], |pools + more| - 1;
      assert (pools + more)[n] == more[|more| - 1] && (pools + more)[..n] == pools + before;
      VisitsInOrder(infos, pools, before);
    }
  }

  /** ... those that are no oracle pools not at all, ... */
  lemma VisitsOfOne(infos: seq<AssetInfo>, p: AmmPool)
    ensures Visits(infos, [p]) == if p.useOracle then AssetVisits(infos, p.poolId, p.assets) else []
  {
    hide AssetVisits;
    assert [p][..0] == [] && Visits(infos, []) == [];
  }

  /** ... and of each its assets in order, ... */
  lemma {:induction false} AssetsInOrder(infos: seq<AssetInfo>, poolId: nat, assets: seq<string>, more: seq<string>)
    ensures AssetVisits(infos, poolId, assets + more)
            == AssetVisits(infos, poolId, assets) + AssetVisits(infos, poolId, more)
    decreases |more|
  {
    hide Lookup;
    if more == [] {
      assert assets + more == assets;
    } else {
      var before, n := more[..|more| - 1], |assets + more| - 1;
      assert (assets + more)[n] == more[|more| - 1] && (assets + more)[..n] == assets + before;
      AssetsInOrder(infos, poolId, assets, before);
    }
  }

  /** ... but for the stablecoins. */
  lemma VisitsOfAsset(infos: seq<AssetInfo>, poolId: nat, d: string)
    ensures var a := Lookup(infos, d);
            AssetVisits(infos, poolId, [d]) == if a.display in {"USDC", "USDT"} then [] else [Visit(a, poolId)]
  {
    hide Lookup;
    assert [d][..0] == [] && AssetVisits(infos, poolId, []) == [];
  }

  // ----- what the visits do -----

  function AddVisits(vs: seq<Visit>, ls: Lists): Lists {
    if vs == [] then ls else AddAsset(vs[|vs| - 1].asset, AddVisits(vs[..|vs| - 1], ls))
  }

  predicate Matches(p: Provider, display: string) {
    p.baseDenom == display && p.externLiquidityProvider != ""
  }

  /** The first entry that matches, or the length. */
  function FirstMatch(ps: seq<Provider>, display: string): (i: nat)
    ensures i <= |ps|
    ensures i < |ps| ==> Matches(ps[i], display)
    ensures forall j | 0 <= j < i :: !Matches(ps[j], display)
  {
    if ps == [] || Matches(ps[0], display) then 0 else 1 + FirstMatch(ps[1..], display)
  }

  function SetPool(ps: seq<Provider>, v: Visit): seq<Provider> {
    var i := FirstMatch(ps, v.asset.display);
    if i < |ps| then ps[i := ps[i].(poolId := v.poolId)] else ps
  }

  function SetPools(ps: seq<Provider>, vs: seq<Visit>): seq<Provider> {
    if vs == [] then ps else SetPool(SetPools(ps, vs[..|vs| - 1]), vs[|vs| - 1])
  }

  /** The last pool visited for a display name. */
  function LastPool(vs: seq<Visit>, display: string): Option<nat> {
    if vs == [] then None
    else if vs[|vs| - 1].asset.display == display then Some(vs[|vs| - 1].poolId)
    else LastPool(vs[..|vs| - 1], display)
  }

  /** The first entry of its base denom with an external provider. */
  predicate IsFirst(ps: seq<Provider>, i: nat)
    requires i < |ps|
  {
    && ps[i].externLiquidityProvider != ""
    && forall j | 0 <= j < i :: ps[j].baseDenom != ps[i].baseDenom || ps[j].externLiquidityProvider == ""
  }

  lemma IsFirstMatch(ps: seq<Provider>, i: nat)
    requires i < |ps|
    ensures IsFirst(ps, i) <==> FirstMatch(ps, ps[i].baseDenom) == i
  {
  }

  lemma FirstMatchIs(ps: seq<Provider>, qs: seq<Provider>, display: string)
    requires |ps| == |qs|
    requires forall i | 0 <= i < |ps| :: qs[i] == ps[i].(poolId := qs[i].poolId)
    ensures FirstMatch(ps, display) == FirstMatch(qs, display)
  {
  }

  /**
   After the loops an entry's pool is the last oracle pool visited for its base
   denom, if it is the first entry of that denom with an external provider and
   there is such a pool; otherwise it is what it was. Nothing else changes.
   */
  lemma {:induction false} FinalPools(ps: seq<Provider>, vs: seq<Visit>)
    ensures |SetPools(ps, vs)| == |ps|
    ensures forall i | 0 <= i < |ps| ::
              SetPools(ps, vs)[i] == ps[i].(poolId :=
                if IsFirst(ps, i) && LastPool(vs, ps[i].baseDenom).Some? then LastPool(vs, ps[i].baseDenom).value
                else ps[i].poolId)
    decreases |vs|
  {
    if vs != [] {
      var before, v := vs[..|vs| - 1], vs[|vs| - 1];
      FinalPools(ps, before);
      var qs := SetPools(ps, before);
      FirstMatchIs(ps, qs, v.asset.display);
      forall i | 0 <= i < |ps|
        ensures SetPools(ps, vs)[i] == ps[i].(poolId :=
                  if IsFirst(ps, i) && LastPool(vs, ps[i].baseDenom).Some? then LastPool(vs, ps[i].baseDenom).value
                  else ps[i].poolId)
      {
        if v.asset.display == ps[i].baseDenom {
          IsFirstMatch(ps, i);
        } else {
          assert FirstMatch(ps, v.asset.display) != i;
        }
      }
    }
  }

  /** An oracle pool that holds an asset with the display name. */
  predicate Holds(infos: seq<AssetInfo>, p: AmmPool, display: string) {
    p.useOracle && exists a | a in p.assets :: Lookup(infos, a).display == display
  }

  /** The last oracle pool that holds such an asset. */
  function LastHolder(infos: seq<AssetInfo>, pools: seq<AmmPool>, display: string): Option<nat> {
    if pools == [] then None
    else if Holds(infos, pools[|pools| - 1], display) then Some(pools[|pools| - 1].poolId)
    else LastHolder(infos, pools[..|pools| - 1], display)
  }

  lemma {:induction false} LastPoolAppend(vs: seq<Visit>, ws: seq<Visit>, display: string)
    ensures LastPool(vs + ws, display)
            == if LastPool(ws, display).Some? then LastPool(ws, display) else LastPool(vs, display)
    decreases |ws|
  {
    if ws == [] {
      assert vs + ws == vs;
    } else {
      var n := |vs + ws| - 1;
      assert (vs + ws)[n] == ws[|ws| - 1] && (vs + ws)[..n] == vs + ws[..|ws| - 1];
      LastPoolAppend(vs, ws[..|ws| - 1], display);
    }
  }

  lemma {:induction false} LastPoolInPool(infos: seq<AssetInfo>, poolId: nat, assets: seq<string>, display: string)
    requires display != USDC && display != USDT
    ensures LastPool(AssetVisits(infos, poolId, assets), display)
            == if exists a | a in assets :: Lookup(infos, a).display == display then Some(poolId) else None
  {
    if assets != [] {
      var before, d := assets[..|assets| - 1], assets[|assets| - 1];
      LastPoolInPool(infos, poolId, before, display);
      assert forall a | a in assets :: a in before || a == d;
      assert d in assets && forall a | a in before :: a in assets;
      var a := Lookup(infos, d);
      var last: seq<Visit> := if a.display != USDC && a.display != USDT then [Visit(a, poolId)] else [];
      LastPoolAppend(AssetVisits(infos, poolId, before), last, display);
      LastPoolOfOne(Visit(a, poolId), display);
    }
  }

  lemma LastPoolOfOne(v: Visit, display: string)
    ensures LastPool([v], display) == if v.asset.display == display then Some(v.poolId) else None
  {
  }

  /** The loops' last pool for a name is the last oracle pool holding an asset of that name. */
  lemma {:induction false} LastPoolIsLastHolder(infos: seq<AssetInfo>, pools: seq<AmmPool>, display: string)
    ensures LastPool(Visits(infos, pools), display)
            == if display == USDC || display == USDT then None else LastHolder(infos, pools, display)
  {
    if pools != [] {
      var before, p := pools[..|pools| - 1], pools[|pools| - 1];
      LastPoolIsLastHolder(infos, before, display);
      var here := if p.useOracle then AssetVisits(infos, p.poolId, p.assets) else [];
      LastPoolAppend(Visits(infos, before), here, display);
      if display == USDC || display == USDT {
        AssetVisitsSkip(infos, p.poolId, p.assets);
        NoneVisited(here, display);
      } else {
        LastPoolInPool(infos, p.poolId, p.assets, display);
      }
    }
  }

  lemma {:induction false} NoneVisited(vs: seq<Visit>, display: string)
    requires forall v | v in vs :: v.asset.display != display
    ensures LastPool(vs, display) == None
  {
    if vs != [] {
      assert vs[|vs| - 1] in vs;
      NoneVisited(vs[..|vs| - 1], display);
    }
  }

  /** What an entry's pool is after the migration. */
  function MigratedPool(infos: seq<AssetInfo>, pools: seq<AmmPool>, ps: seq<Provider>, i: nat): nat
    requires i < |ps|
  {
    var name := ps[i].baseDenom;
    var holder := if name == USDC || name == USDT then None else LastHolder(infos, pools, name);
    if IsFirst(ps, i) && holder.Some? then holder.value else ps[i].poolId
  }

  lemma FinalPoolsAreMigrated(infos: seq<AssetInfo>, pools: seq<AmmPool>, ps: seq<Provider>)
    ensures var qs := SetPools(ps, Visits(infos, pools));
            |qs| == |ps|
            && forall i | 0 <= i < |ps| :: qs[i] == ps[i].(poolId := MigratedPool(infos, pools, ps, i))
  {
    var qs := SetPools(ps, Visits(infos, pools));
    FinalPools(ps, Visits(infos, pools));
    forall i | 0 <= i < |ps| ensures qs[i] == ps[i].(poolId := MigratedPool(infos, pools, ps, i)) {
      LastPoolIsLastHolder(infos, pools, ps[i].baseDenom);
    }
  }

  /** The three lists have one length, and one symbol at each position. */
  predicate Parallel(ls: Lists) {
    && |ls.denoms| == |ls.bands| == |ls.deviations|
    && forall i | 0 <= i < |ls.denoms| ::
         ls.denoms[i].symbolDenom == ls.bands[i].symbolDenom == ls.deviations[i].baseDenom
  }

  /** The entries at position i of the three lists are those of one asset: reward band 0.02, threshold 2. */
  predicate EntryIs(ls: Lists, i: nat, denom: string, display: string, decimal: nat)
    requires Parallel(ls) && i < |ls.denoms|
  {
    && ls.denoms[i] == Denom(denom, display, decimal % 4_294_967_296)
    && ls.bands[i] == RewardBand(display, 20_000_000_000_000_000)
    && ls.deviations[i] == Deviation(display, "2")
  }

  lemma {:induction false} ListsStayParallel(vs: seq<Visit>, ls: Lists)
    requires Parallel(ls)
    ensures Parallel(AddVisits(vs, ls))
    ensures |AddVisits(vs, ls).denoms| == |ls.denoms| + |vs|
    ensures forall i | 0 <= i < |vs| ::
              EntryIs(AddVisits(vs, ls), |ls.denoms| + i, vs[i].asset.denom, vs[i].asset.display, vs[i].asset.decimal)
    ensures var r := AddVisits(vs, ls); ls.denoms <= r.denoms && ls.bands <= r.bands && ls.deviations <= r.deviations
    decreases |vs|
  {
    if vs != [] {
      ListsStayParallel(vs[..|vs| - 1], ls);
    }
  }

  /** The two stablecoins' entries, which come first. */
  function Stablecoins(infos: seq<AssetInfo>): Lists {
    var usdt, usdc := LastDisplayed(infos, USDT), LastDisplayed(infos, USDC);
    AddAsset(usdc, if usdt.denom == "" then Add("uusdt", USDT, 6, NO_LISTS) else AddAsset(usdt, NO_LISTS))
  }

  /** USDT, by default if it has no denom, and USDC. */
  lemma StablecoinEntries(infos: seq<AssetInfo>)
    ensures var ls, usdt, usdc := Stablecoins(infos), LastDisplayed(infos, "USDT"), LastDisplayed(infos, "USDC");
            && Parallel(ls) && |ls.denoms| == 2
            && (if usdt.denom == "" then EntryIs(ls, 0, "uusdt", "USDT", 6)
                else EntryIs(ls, 0, usdt.denom, usdt.display, usdt.decimal))
            && EntryIs(ls, 1, usdc.denom, usdc.display, usdc.decimal)
  {
    hide LastDisplayed;
  }

  lemma EntryStays(ls: Lists, more: Lists, i: nat, denom: string, display: string, decimal: nat)
    requires Parallel(ls) && Parallel(more) && i < |ls.denoms|
    requires ls.denoms <= more.denoms && ls.bands <= more.bands && ls.deviations <= more.deviations
    ensures EntryIs(ls, i, denom, display, decimal) ==> EntryIs(more, i, denom, display, decimal)
  {
  }

  /** The lists hold the two stablecoins, and one entry per visit. */
  lemma MigratedListsParallel(infos: seq<AssetInfo>, pools: seq<AmmPool>)
    ensures var ls, vs := AddVisits(Visits(infos, pools), Stablecoins(infos)), Visits(infos, pools);
            var usdt, usdc := LastDisplayed(infos, "USDT"), LastDisplayed(infos, "USDC");
            && Parallel(ls) && |ls.denoms| == 2 + |vs|
            && (if usdt.denom == "" then EntryIs(ls, 0, "uusdt", "USDT", 6)
                else EntryIs(ls, 0, usdt.denom, usdt.display, usdt.decimal))
            && EntryIs(ls, 1, usdc.denom, usdc.display, usdc.decimal)
            && forall i | 0 <= i < |vs| ::
                 EntryIs(ls, 2 + i, vs[i].asset.denom, vs[i].asset.display, vs[i].asset.decimal)
  {
    hide Visits, LastDisplayed, Stablecoins, AddVisits, EntryIs, Parallel;
    var start := Stablecoins(infos);
    var ls := AddVisits(Visits(infos, pools), start);
    var usdt, usdc := LastDisplayed(infos, USDT), LastDisplayed(infos, USDC);
    StablecoinEntries(infos);
    ListsStayParallel(Visits(infos, pools), start);
    EntryStays(start, ls, 0, "uusdt", "USDT", 6);
    EntryStays(start, ls, 0, usdt.denom, usdt.display, usdt.decimal);
    EntryStays(start, ls, 1, usdc.denom, usdc.display, usdc.decimal);
  }

  /** No visited asset is a stablecoin, so their symbols are listed once at most. */
  lemma {:induction false} VisitsSkipStablecoins(infos: seq<AssetInfo>, pools: seq<AmmPool>)
    ensures forall v | v in Visits(infos, pools) :: v.asset.display != USDC && v.asset.display != USDT
  {
    if pools != [] {
      VisitsSkipStablecoins(infos, pools[..|pools| - 1]);
      var p := pools[|pools| - 1];
      AssetVisitsSkip(infos, p.poolId, p.assets);
    }
  }

  lemma {:induction false} AssetVisitsSkip(infos: seq<AssetInfo>, poolId: nat, assets: seq<string>)
    ensures forall v | v in AssetVisits(infos, poolId, assets) ::
              v.asset.display != USDC && v.asset.display != USDT && v.poolId == poolId
  {
    if assets != [] {
      AssetVisitsSkip(infos, poolId, assets[..|assets| - 1]);
    }
  }

  // ----- the loops -----

  /** The innermost loop: the first matching entry is overwritten, then a break. */
  method SetFirst(providers: array<Provider>, display: string, poolId: nat)
    modifies providers
    ensures forall a: AssetInfo | a.display == display ::
              providers[..] == SetPool(old(providers[..]), Visit(a, poolId))
  {
    ghost var ps := providers[..];
    var i := 0;
    while i < providers.Length
      invariant 0 <= i <= providers.Length && providers[..] == ps
      invariant forall j | 0 <= j < i :: !Matches(ps[j], display)
    {
      if providers[i].baseDenom == display && providers[i].externLiquidityProvider != "" {
        assert Matches(ps[i], display);
        assert FirstMatch(ps, display) == i;
        providers[i] := providers[i].(poolId := poolId);
        assert providers[..] == ps[i := ps[i].(poolId := poolId)];
        return;
      }
      i := i + 1;
    }
    assert FirstMatch(ps, display) == |ps|;
  }

  /** The loop over the legacy assets: the last one of each denom, and the stablecoins. */
  method IndexAssets(infos: seq<AssetInfo>)
    returns (assetInfoMap: map<string, AssetInfo>, usdt: AssetInfo, usdc: AssetInfo)
    ensures usdt == LastDisplayed(infos, USDT) && usdc == LastDisplayed(infos, USDC)
    ensures forall d :: InMap(assetInfoMap, d) == Lookup(infos, d)
  {
    usdt, usdc, assetInfoMap := NO_ASSET, NO_ASSET, map[];
    for i := 0 to |infos|
      invariant usdt == LastDisplayed(infos[..i], USDT) && usdc == LastDisplayed(infos[..i], USDC)
      invariant forall d :: InMap(assetInfoMap, d) == Lookup(infos[..i], d)
    {
      assert infos[..i + 1][..i] == infos[..i];
      assetInfoMap := assetInfoMap[infos[i].denom := infos[i]];
      if infos[i].display == USDC {
        usdc := infos[i];
      }
      if infos[i].display == USDT {
        usdt := infos[i];
      }
    }
    assert infos[..|infos|] == infos;
  }

  /** Reading a missing key of a Go map gives the zero value. */
  function InMap(m: map<string, AssetInfo>, denom: string): AssetInfo {
    if denom in m then m[denom] else NO_ASSET
  }

  lemma AddVisit(vs: seq<Visit>, v: Visit, ls: Lists, ps: seq<Provider>)
    ensures AddVisits(vs + [v], ls) == AddAsset(v.asset, AddVisits(vs, ls))
    ensures SetPools(ps, vs + [v]) == SetPool(SetPools(ps, vs), v)
  {
  }

  lemma NextAsset(infos: seq<AssetInfo>, poolId: nat, assets: seq<string>, j: nat)
    requires j < |assets|
    ensures var a := Lookup(infos, assets[j]);
            AssetVisits(infos, poolId, assets[..j + 1])
            == AssetVisits(infos, poolId, assets[..j])
               + (if a.display != USDC && a.display != USDT then [Visit(a, poolId)] else [])
  {
    assert assets[..j + 1][..j] == assets[..j];
  }

  /** The loop over one oracle pool's assets, after the visits `done`. */
  method VisitPool(ghost infos: seq<AssetInfo>, assetInfoMap: map<string, AssetInfo>, pool: AmmPool, before: Lists,
                   providers: array<Provider>, ghost done: seq<Visit>, ghost start: Lists, ghost ps: seq<Provider>)
    returns (ls: Lists)
    requires forall d :: InMap(assetInfoMap, d) == Lookup(infos, d)
    requires before == AddVisits(done, start) && providers[..] == SetPools(ps, done)
    modifies providers
    ensures ls == AddVisits(done + AssetVisits(infos, pool.poolId, pool.assets), start)
    ensures providers[..] == SetPools(ps, done + AssetVisits(infos, pool.poolId, pool.assets))
  {
    hide AddVisits, SetPools, SetPool, AssetVisits, Lookup, Add;
    ls := before;
    ghost var visits := AssetVisits(infos, pool.poolId, pool.assets[..0]);
    NoAssets(infos, pool.poolId);
    assert done + [] == done;
    for j := 0 to |pool.assets|
      invariant visits == AssetVisits(infos, pool.poolId, pool.assets[..j])
      invariant ls == AddVisits(done + visits, start) && providers[..] == SetPools(ps, done + visits)
    {
      NextAsset(infos, pool.poolId, pool.assets, j);
      var assetInfo := InMap(assetInfoMap, pool.assets[j]);
      if assetInfo.display != USDC && assetInfo.display != USDT {
        ghost var v := Visit(assetInfo, pool.poolId);
        AddVisit(done + visits, v, start, ps);
        assert done + visits + [v] == done + (visits + [v]);
        visits := visits + [v];
        ls := AddAsset(assetInfo, ls);
        SetFirst(providers, assetInfo.display, pool.poolId);
      } else {
        assert visits + [] == visits;
      }
    }
    assert pool.assets[..|pool.assets|] == pool.assets;
  }

  lemma NoAssets(infos: seq<AssetInfo>, poolId: nat)
    ensures AssetVisits(infos, poolId, []) == []
  {
  }

  lemma NextPool(infos: seq<AssetInfo>, pools: seq<AmmPool>, i: nat)
    requires i < |pools|
    ensures var p, done := pools[i], Visits(infos, pools[..i]);
            Visits(infos, pools[..i + 1]) == if p.useOracle then done + AssetVisits(infos, p.poolId, p.assets) else done
  {
    assert pools[..i + 1][..i] == pools[..i];
    assert Visits(infos, pools[..i]) + [] == Visits(infos, pools[..i]);
  }

  /** The parameter-building part of ojoOracleMigration. */
  method BuildParams(infos: seq<AssetInfo>, pools: seq<AmmPool>, providers: array<Provider>) returns (ls: Lists)
    modifies providers
    ensures ls == AddVisits(Visits(infos, pools), Stablecoins(infos)) && Parallel(ls)
    ensures forall i | 0 <= i < providers.Length ::
              providers[i] == old(providers[i]).(poolId := MigratedPool(infos, pools, old(providers[..]), i))
  {
    hide MigratedPool, Parallel, Lookup, LastDisplayed, AssetVisits;
    var assetInfoMap, usdt, usdc := IndexAssets(infos);
    if usdt.denom == "" {
      ls := Add("uusdt", USDT, 6, NO_LISTS);
    } else {
      ls := AddAsset(usdt, NO_LISTS);
    }
    ls := AddAsset(usdc, ls);
    ghost var start, ps := ls, providers[..];
    assert start == Stablecoins(infos);
    hide Add, AddVisits, SetPools, Visits, Stablecoins;
    NoVisits(infos, start, ps);
    for i := 0 to |pools|
      invariant ls == AddVisits(Visits(infos, pools[..i]), start)
      invariant providers[..] == SetPools(ps, Visits(infos, pools[..i]))
    {
      NextPool(infos, pools, i);
      if pools[i].useOracle {
        ls := VisitPool(infos, assetInfoMap, pools[i], ls, providers, Visits(infos, pools[..i]), start, ps);
      }
    }
    assert pools[..|pools|] == pools;
    FinalPoolsAreMigrated(infos, pools, ps);
    MigratedListsParallel(infos, pools);
    forall i | 0 <= i < providers.Length
      ensures providers[i] == old(providers[i]).(poolId := MigratedPool(infos, pools, old(providers[..]), i))
    {
      assert providers[i] == providers[..][i] && ps[i] == old(providers[i]);
    }
  }

  lemma NoVisits(infos: seq<AssetInfo>, ls: Lists, ps: seq<Provider>)
    ensures Visits(infos, []) == [] && AddVisits([], ls) == ls && SetPools(ps, []) == ps
  {
  }
}
