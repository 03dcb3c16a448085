/** The repair of one user's settlement, pass by pass, in place. */
module SettlementRepair {
  import opened Options
  import opened Seqs
  import opened Texts
  import opened Money
  import opened Lots
  import opened SettlementProceeds
  import opened LotRepair
  import opened RedeemPlans

  // ------------------------------------------------------------ grouping

  function SellKeyOf(lot: Lot): string {
    lot.sellKey
  }

  function SoldUnder(key: string): Lot -> bool {
    (lot: Lot) => lot.sellKey == key
  }

  /** `list.push(i)` on the list kept under a key, which starts empty. */
  function Push(groups: map<string, seq<nat>>, key: string, i: nat): map<string, seq<nat>> {
    groups[key := (if key in groups then groups[key] else []) + [i]]
  }

  /** The groups of the first rows. */
  ghost predicate GroupedRows(lots: seq<Lot>, groups: map<string, seq<nat>>) {
    && (forall key :: key in groups ==> groups[key] == Indices(SoldUnder(key), lots))
    && (forall key :: key !in groups ==> Indices(SoldUnder(key), lots) == [])
  }

  /** Groups the rows by sell key, in the order the keys first occur. */
  method GroupLotCloses(lots: seq<Lot>) returns (keys: seq<string>, groups: map<string, seq<nat>>)
    ensures keys == Dedup(Map(SellKeyOf, lots))
    ensures forall key :: key in groups <==> key in keys
    ensures GroupedRows(lots, groups)
  {
    hide GroupedRows, Map, Dedup;
    keys, groups := [], map[];
    NothingGrouped(lots);
    for i := 0 to |lots|
      invariant keys == Dedup(Map(SellKeyOf, lots[..i]))
      invariant forall key :: key in groups <==> key in keys
      invariant GroupedRows(lots[..i], groups)
    {
      var key := lots[i].sellKey;
      NextKey(lots, i);
      NextGroup(lots, i, groups);
      if key !in groups {
        keys := keys + [key];
      }
      groups := Push(groups, key, i);
    }
    assert lots[..|lots|] == lots;
  }

  lemma NothingGrouped(lots: seq<Lot>)
    ensures Dedup(Map(SellKeyOf, lots[..0])) == [] && GroupedRows(lots[..0], map[])
  {
  }

  lemma NextKey(lots: seq<Lot>, i: nat)
    requires i < |lots|
    ensures
      var key, keys := lots[i].sellKey, Dedup(Map(SellKeyOf, lots[..i]));
      Dedup(Map(SellKeyOf, lots[..i + 1])) == if key in keys then keys else keys + [key]
  {
    var mapped := Map(SellKeyOf, lots[..i + 1]);
    assert mapped[..i] == Map(SellKeyOf, lots[..i]) by {
      hide Map;
    }
    assert mapped[i] == lots[i].sellKey;
  }

  lemma NextGroup(lots: seq<Lot>, i: nat, groups: map<string, seq<nat>>)
    requires i < |lots| && GroupedRows(lots[..i], groups)
    ensures GroupedRows(lots[..i + 1], Push(groups, lots[i].sellKey, i))
  {
    forall key
      ensures Indices(SoldUnder(key), lots[..i + 1]) ==
              Indices(SoldUnder(key), lots[..i]) + if lots[i].sellKey == key then [i] else []
    {
      IndicesNext(SoldUnder(key), lots, i);
    }
    hide Indices;
  }

  /** The groups split the rows: a row is in the group of its key and in no other. */
  lemma GroupsPartition(lots: seq<Lot>, i: nat, key: string)
    requires i < |lots|
    ensures i in Indices(SoldUnder(key), lots) <==> lots[i].sellKey == key
    ensures lots[i].sellKey in Dedup(Map(SellKeyOf, lots))
    ensures ValidMembers(|lots|, Indices(SoldUnder(key), lots))
  {
    IndicesExactly(SoldUnder(key), lots);
    assert Map(SellKeyOf, lots)[i] == lots[i].sellKey;
  }

  // ------------------------------------------------------------ passes over the plans

  /** Whether a plan takes part in a pass over transactions. */
  predicate TakesPart(p: Plan, redeemOnly: bool) {
    p.txHash.Some? && p.skipped.None? && (redeemOnly ==> p.kind == Redeem)
  }

  function InPass(tx: string, redeemOnly: bool): Plan -> bool {
    (p: Plan) => TakesPart(p, redeemOnly) && p.txHash == Some(tx)
  }

  ghost predicate GroupedPlans(plans: seq<Plan>, redeemOnly: bool, byTx: map<string, seq<nat>>) {
    && (forall tx :: tx in byTx ==> byTx[tx] == Indices(InPass(tx, redeemOnly), plans))
    && (forall tx :: tx !in byTx ==> Indices(InPass(tx, redeemOnly), plans) == [])
  }

  /** The plans of each transaction, in the order the transactions first occur. */
  method GroupByTx(plans: seq<Plan>, redeemOnly: bool) returns (txs: seq<string>, byTx: map<string, seq<nat>>)
    ensures Distinct(txs)
    ensures forall tx :: tx in txs <==> tx in byTx
    ensures forall i :: 0 <= i < |plans| && TakesPart(plans[i], redeemOnly) ==> plans[i].txHash.value in byTx
    ensures forall tx :: tx in byTx ==> byTx[tx] == Indices(InPass(tx, redeemOnly), plans)
  {
    hide Indices, InPass;
    txs, byTx := [], map[];
    NoPlanGrouped(plans, redeemOnly);
    for i := 0 to |plans|
      invariant Distinct(txs) && forall tx :: tx in txs <==> tx in byTx
      invariant forall j :: 0 <= j < i && TakesPart(plans[j], redeemOnly) ==> plans[j].txHash.value in byTx
      invariant GroupedPlans(plans[..i], redeemOnly, byTx)
    {
      hide GroupedPlans;
      NextPlan(plans, i, redeemOnly, byTx);
      if TakesPart(plans[i], redeemOnly) {
        var tx := plans[i].txHash.value;
        if tx !in byTx {
          txs := txs + [tx];
        }
        byTx := Push(byTx, tx, i);
      }
    }
    assert plans[..|plans|] == plans;
  }

  lemma NoPlanGrouped(plans: seq<Plan>, redeemOnly: bool)
    ensures GroupedPlans(plans[..0], redeemOnly, map[])
  {
  }

  lemma NextPlan(plans: seq<Plan>, i: nat, redeemOnly: bool, byTx: map<string, seq<nat>>)
    requires i < |plans| && GroupedPlans(plans[..i], redeemOnly, byTx)
    ensures GroupedPlans(plans[..i + 1], redeemOnly,
                         if TakesPart(plans[i], redeemOnly) then Push(byTx, plans[i].txHash.value, i) else byTx)
  {
    forall tx
      ensures Indices(InPass(tx, redeemOnly), plans[..i + 1]) ==
              Indices(InPass(tx, redeemOnly), plans[..i]) + if InPass(tx, redeemOnly)(plans[i]) then [i] else []
    {
      IndicesNext(InPass(tx, redeemOnly), plans, i);
    }
    hide Indices;
  }

  method SumTotals(plans: array<Plan>, members: seq<nat>) returns (sum: real)
    requires forall k :: 0 <= k < |members| ==> members[k] < plans.Length
    ensures sum == TotalAt(plans[..], members)
  {
    sum := 0.0;
    for k := 0 to |members|
      invariant sum == TotalAt(plans[..], members[..k])
    {
      assert members[..k + 1][..k] == members[..k];
      sum := sum + plans[members[k]].total;
    }
    assert members[..|members|] == members;
  }

  method ScaleMembers(plans: array<Plan>, members: seq<nat>, sum: real, usd: real)
    requires Distinct(members) && forall k :: 0 <= k < |members| ==> members[k] < plans.Length
    modifies plans
    ensures forall i :: 0 <= i < plans.Length ==>
              plans[i] == if i in members then old(plans[i]).(total := ScaleToBudget(old(plans[i].total), sum, usd))
                          else old(plans[i])
  {
    for k := 0 to |members|
      invariant forall i :: 0 <= i < plans.Length ==>
                  plans[i] == if i in members[..k] then old(plans[i]).(total := ScaleToBudget(old(plans[i].total), sum, usd))
                              else old(plans[i])
    {
      hide ScaleToBudget;
      var m := members[k];
      assert members[..k + 1] == members[..k] + [m] && m !in members[..k];
      plans[m] := plans[m].(total := ScaleToBudget(plans[m].total, sum, usd));
    }
    assert members[..|members|] == members;
  }

  /** Scales the groups of a transaction that together exceed what the chain paid. */
  method CapRedeemPlansByTxBudget(plans: array<Plan>, receipts: map<string, real>)
    modifies plans
    ensures plans[..] == CapPlans(old(plans[..]), receipts)
  {
    ghost var before := plans[..];
    var txs, byTx := GroupByTx(plans[..], false);
    for t := 0 to |txs|
      invariant forall i :: 0 <= i < plans.Length ==>
                  plans[i] == if TakesPart(before[i], false) && before[i].txHash.value in txs[..t]
                              then CappedPlan(before, receipts, before[i]) else before[i]
    {
      var tx := txs[t];
      var members := byTx[tx];
      assert tx in byTx && txs[..t + 1] == txs[..t] + [tx] && tx !in txs[..t];
      IndicesExactly(InPass(tx, false), before);
      SameMembers(before, tx);
      CapOneTx(plans, receipts, tx, members, before);
    }
    assert txs[..|txs|] == txs;
    hide CappedPlan;
    forall i | 0 <= i < plans.Length ensures plans[i] == CappedPlan(before, receipts, before[i]) {
      if !TakesPart(before[i], false) {
        NotCapped(before, receipts, before[i]);
      }
    }
  }

  lemma NotCapped(plans: seq<Plan>, receipts: map<string, real>, p: Plan)
    requires !TakesPart(p, false)
    ensures CappedPlan(plans, receipts, p) == p
  {
  }

  lemma SameMembers(plans: seq<Plan>, tx: string)
    ensures Indices(InPass(tx, false), plans) == Indices(OfTx(tx), plans)
  {
    IndicesSame(InPass(tx, false), OfTx(tx), plans, plans);
  }

  method CapOneTx(plans: array<Plan>, receipts: map<string, real>, tx: string, members: seq<nat>, ghost before: seq<Plan>)
    requires |before| == plans.Length && members == Indices(OfTx(tx), before) && Distinct(members)
    requires forall k :: 0 <= k < |members| ==> plans[members[k]] == before[members[k]]
    requires forall i: nat :: i in members <==> i < plans.Length && OfTx(tx)(before[i])
    modifies plans
    ensures forall i :: 0 <= i < plans.Length ==>
              plans[i] == if i in members then CappedPlan(before, receipts, before[i]) else old(plans[i])
  {
    var chain := Resolve(receipts, tx);
    var sum := SumTotals(plans, members);
    SameTotals(plans[..], before, members);
    assert sum == TxTotal(before, tx);
    hide ScaleToBudget, TxTotal, Indices;
    if chain.Confirmed? && chain.usd > EPS && sum > chain.usd + CAP_TOLERANCE {
      ScaleMembers(plans, members, sum, chain.usd);
    }
  }

  lemma {:induction false} SameTotals(a: seq<Plan>, b: seq<Plan>, members: seq<nat>)
    requires |a| == |b| && forall k :: 0 <= k < |members| ==> members[k] < |a| && a[members[k]] == b[members[k]]
    ensures TotalAt(a, members) == TotalAt(b, members)
  {
    if members != [] {
      SameTotals(a, b, members[..|members| - 1]);
    }
  }

  // ------------------------------------------------------------ manual closes

  datatype ManualClose = ManualClose(tokenID: string, createdAt: int)

  function TokenKey(row: ManualClose): string {
    Lower(Trim(row.tokenID))
  }

  /** The latest manual close of each token. */
  method LatestManualCloses(rows: seq<ManualClose>) returns (latest: map<string, int>)
    ensures forall row :: row in rows ==> TokenKey(row) in latest && row.createdAt <= latest[TokenKey(row)]
    ensures forall key :: key in latest ==> exists row :: row in rows && TokenKey(row) == key && row.createdAt == latest[key]
  {
    hide Lower, Trim;
    latest := map[];
    for i := 0 to |rows|
      invariant forall j :: 0 <= j < i ==> TokenKey(rows[j]) in latest && rows[j].createdAt <= latest[TokenKey(rows[j])]
      invariant forall key :: key in latest ==>
                  exists j :: 0 <= j < i && TokenKey(rows[j]) == key && rows[j].createdAt == latest[key]
    {
      var key := TokenKey(rows[i]);
      if key !in latest || rows[i].createdAt > latest[key] {
        latest := latest[key := rows[i].createdAt];
      }
    }
  }

  /** Expires redeems booked after the position was closed by hand. */
  method ZeroAutoRedeemAfterManualClose(plans: array<Plan>, world: World, manualAt: map<string, int>)
    modifies plans
    ensures plans[..] == ManualPlans(old(plans[..]), world, manualAt)
  {
    hide ClosedManuallyBefore;
    for i := 0 to plans.Length
      invariant forall j :: 0 <= j < plans.Length ==>
                  plans[j] == if j < i then AfterManual(world, manualAt, old(plans[j])) else old(plans[j])
    {
      if ClosedManuallyBefore(world, manualAt, plans[i]) {
        plans[i] := plans[i].(total := 0.0, kind := ExpiredWorthless);
      }
    }
  }

  // ------------------------------------------------------------ duplicate transactions

  /** The members that are full wins, in order. */
  function Winners(plans: seq<Plan>, members: seq<nat>, budget: real): seq<nat>
    requires forall k :: 0 <= k < |members| ==> members[k] < |plans|
  {
    if members == [] then []
    else
      var m := members[|members| - 1];
      Winners(plans, members[..|members| - 1], budget) + if IsFullWinGroup(plans[m], budget) then [m] else []
  }

  lemma {:induction false} WinnersOfTx(plans: seq<Plan>, receipts: map<string, real>, tx: string)
    ensures Winners(plans, Indices(RedeemOfTx(tx), plans), TxBudget(receipts, tx)) ==
            Indices(FullWinRedeem(receipts, tx), plans)
  {
    hide IsFullWinGroup, TxBudget;
    if plans != [] {
      var n := |plans| - 1;
      var front := Indices(RedeemOfTx(tx), plans[..n]);
      WinnersOfTx(plans[..n], receipts, tx);
      WinnersLocal(plans, plans[..n], front, TxBudget(receipts, tx));
      IndicesNext(RedeemOfTx(tx), plans, n);
      IndicesNext(FullWinRedeem(receipts, tx), plans, n);
      assert plans[..n + 1] == plans;
      WinnersNext(plans, front, n, TxBudget(receipts, tx));
      assert FullWinRedeem(receipts, tx)(plans[n]) <==>
             RedeemOfTx(tx)(plans[n]) && IsFullWinGroup(plans[n], TxBudget(receipts, tx));
      hide RedeemOfTx, FullWinRedeem, Indices, Winners;
      var wins := Indices(FullWinRedeem(receipts, tx), plans[..n]);
      assert front + [] == front && wins + [] == wins;
    }
  }

  lemma WinnersNext(plans: seq<Plan>, front: seq<nat>, n: nat, budget: real)
    requires n < |plans| && forall k :: 0 <= k < |front| ==> front[k] < |plans|
    ensures Winners(plans, front + [n], budget) ==
            Winners(plans, front, budget) + if IsFullWinGroup(plans[n], budget) then [n] else []
  {
    assert (front + [n])[..|front|] == front;
  }

  lemma {:induction false} WinnersLocal(a: seq<Plan>, b: seq<Plan>, members: seq<nat>, budget: real)
    requires forall k :: 0 <= k < |members| ==> members[k] < |a| && members[k] < |b| && a[members[k]] == b[members[k]]
    ensures Winners(a, members, budget) == Winners(b, members, budget)
  {
    if members != [] {
      WinnersLocal(a, b, members[..|members| - 1], budget);
    }
  }

  method FindWinners(plans: array<Plan>, members: seq<nat>, budget: real) returns (winners: seq<nat>)
    requires forall k :: 0 <= k < |members| ==> members[k] < plans.Length
    ensures winners == Winners(plans[..], members, budget)
  {
    winners := [];
    for k := 0 to |members|
      invariant winners == Winners(plans[..], members[..k], budget)
    {
      assert members[..k + 1][..k] == members[..k];
      if IsFullWinGroup(plans[members[k]], budget) {
        winners := winners + [members[k]];
      }
    }
    assert members[..|members|] == members;
  }

  /** What becomes of a plan of a transaction with several redeem groups. */
  function KeptOrExpired(p: Plan, keep: bool, budget: real): Plan {
    if keep then p.(total := MinR(budget, Closed(p.closes))) else p.(total := 0.0, kind := ExpiredWorthless)
  }

  method KeepOne(plans: array<Plan>, members: seq<nat>, winners: seq<nat>, budget: real)
    requires Distinct(members) && forall k :: 0 <= k < |members| ==> members[k] < plans.Length
    modifies plans
    ensures forall i :: 0 <= i < plans.Length ==>
              plans[i] == if i in members then KeptOrExpired(old(plans[i]), winners == [i], budget) else old(plans[i])
  {
    hide KeptOrExpired;
    for k := 0 to |members|
      invariant forall i :: 0 <= i < plans.Length ==>
                  plans[i] == if i in members[..k] then KeptOrExpired(old(plans[i]), winners == [i], budget)
                              else old(plans[i])
    {
      var m := members[k];
      assert members[..k + 1] == members[..k] + [m] && m !in members[..k];
      plans[m] := KeptOrExpired(plans[m], winners == [m], budget);
    }
    assert members[..|members|] == members;
  }

  /** Lets one redeem transaction pay at most one settlement group. */
  method ZeroDuplicateRedeemTx(plans: array<Plan>, receipts: map<string, real>)
    modifies plans
    ensures plans[..] == DedupedPlans(old(plans[..]), receipts)
  {
    ghost var before := plans[..];
    var txs, byTx := GroupByTx(plans[..], true);
    for t := 0 to |txs|
      invariant forall i :: 0 <= i < plans.Length ==>
                  plans[i] == if TakesPart(before[i], true) && before[i].txHash.value in txs[..t]
                              then DedupedPlan(before, receipts, i) else before[i]
    {
      var tx := txs[t];
      var members := byTx[tx];
      assert tx in byTx && txs[..t + 1] == txs[..t] + [tx] && tx !in txs[..t];
      IndicesExactly(InPass(tx, true), before);
      IndicesSame(InPass(tx, true), RedeemOfTx(tx), before, before);
      DedupOneTx(plans, receipts, tx, members, before);
    }
    assert txs[..|txs|] == txs;
    hide DedupedPlan;
    forall i | 0 <= i < plans.Length ensures plans[i] == DedupedPlan(before, receipts, i) {
      if !TakesPart(before[i], true) {
        NotDeduped(before, receipts, i);
      }
    }
  }

  lemma NotDeduped(plans: seq<Plan>, receipts: map<string, real>, i: nat)
    requires i < |plans| && !TakesPart(plans[i], true)
    ensures DedupedPlan(plans, receipts, i) == plans[i]
  {
  }

  method DedupOneTx(plans: array<Plan>, receipts: map<string, real>, tx: string, members: seq<nat>, ghost before: seq<Plan>)
    requires |before| == plans.Length && members == Indices(RedeemOfTx(tx), before) && Distinct(members)
    requires forall k :: 0 <= k < |members| ==> plans[members[k]] == before[members[k]]
    requires forall i: nat :: i in members <==> i < plans.Length && RedeemOfTx(tx)(before[i])
    modifies plans
    ensures forall i :: 0 <= i < plans.Length ==>
              plans[i] == if i in members then DedupedPlan(before, receipts, i) else old(plans[i])
  {
    if |members| < 2 {
      return;
    }
    var budget := TxBudget(receipts, tx);
    var winners := FindWinners(plans, members, budget);
    WinnersLocal(plans[..], before, members, budget);
    WinnersOfTx(before, receipts, tx);
    hide Indices, Winners, TxBudget;
    KeepOne(plans, members, winners, budget);
  }
}
