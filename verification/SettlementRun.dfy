/** The whole repair of one user, without cash anchoring, and what it leaves in the rows. */
module SettlementRun {
  import opened Options
  import opened Seqs
  import opened Money
  import opened Lots
  import opened SettlementProceeds
  import opened CloseCapping
  import opened LotRepair
  import opened RedeemPlans
  import opened SettlementRepair

  function KeysOf(lots: seq<Lot>): seq<string> {
    Dedup(Map(SellKeyOf, lots))
  }

  function GroupOf(lots: seq<Lot>, key: string): (members: seq<nat>)
    ensures InRange(members, |lots|)
  {
    Indices(SoldUnder(key), lots)
  }

  function ClosesOf(lots: seq<Lot>, key: string): seq<Lot> {
    Pick(lots, GroupOf(lots, key))
  }

  /** The plan of every sell group, in order. */
  function FreshPlans(lots: seq<Lot>, world: World): (r: seq<Plan>)
    ensures |r| == |KeysOf(lots)|
  {
    var keys := KeysOf(lots);
    seq(|keys|, k requires 0 <= k < |keys| => PlanGroup(world, keys[k], ClosesOf(lots, keys[k])))
  }

  /** What a plan makes of a row of its group. */
  function SettledLot(p: Plan, lot: Lot): Lot {
    if p.skipped.Some? then lot else RepairedLot(lot, p.total, Closed(p.closes))
  }

  /** Every row carries what the plan of its group makes of it. */
  ghost predicate Settled(lots: seq<Lot>, plans: seq<Plan>, after: seq<Lot>) {
    && |after| == |lots| && |plans| == |KeysOf(lots)|
    && forall i, k :: 0 <= i < |lots| && 0 <= k < |plans| && lots[i].sellKey == KeysOf(lots)[k] ==>
                      after[i] == SettledLot(plans[k], lots[i])
  }

  /** Caps, groups, plans, runs the plan passes and applies the plans, in place. */
  method RepairUser(rows: array<Lot>, budgets: Budgets, world: World, manual: seq<ManualClose>, dryRun: bool)
    returns (plans: array<Plan>, manualAt: map<string, int>)
    modifies rows
    ensures fresh(plans)
    ensures
      var lots := CapLots(old(rows[..]), budgets, map[], dryRun);
      && plans[..] == FinalPlans(FreshPlans(lots, world), world, manualAt)
      && Settled(lots, plans[..], rows[..])
    ensures forall row :: row in manual ==> TokenKey(row) in manualAt && row.createdAt <= manualAt[TokenKey(row)]
    ensures forall key :: key in manualAt ==>
              exists row :: row in manual && TokenKey(row) == key && row.createdAt == manualAt[key]
  {
    hide CapLots, FinalPlans, FreshPlans, Settled;
    var _, _, _ := CapLotCloseRows(rows, budgets, dryRun);
    manualAt := LatestManualCloses(manual);
    plans := PlanAndApply(rows, world, manualAt);
  }

  /** Everything after the over-close pass. */
  method PlanAndApply(rows: array<Lot>, world: World, manualAt: map<string, int>) returns (plans: array<Plan>)
    modifies rows
    ensures fresh(plans)
    ensures plans[..] == FinalPlans(FreshPlans(old(rows[..]), world), world, manualAt)
    ensures Settled(old(rows[..]), plans[..], rows[..])
  {
    hide FinalPlans, FreshPlans, Settled, PlansFit, GroupedRows;
    FreshPlansFit(rows[..], world, manualAt);
    var keys, groups := GroupLotCloses(rows[..]);
    plans := PlanAll(rows[..], keys, groups, world);
    RunPasses(plans, world, manualAt);
    ApplyPlans(rows, keys, groups, plans);
  }

  /** Plans the groups one after the other. */
  method PlanAll(lots: seq<Lot>, keys: seq<string>, groups: map<string, seq<nat>>, world: World)
    returns (plans: array<Plan>)
    requires keys == KeysOf(lots) && (forall key :: key in groups <==> key in keys)
    requires GroupedRows(lots, groups)
    ensures fresh(plans) && plans[..] == FreshPlans(lots, world)
  {
    hide PlanGroup, GroupedRows, KeysOf, Indices, Pick;
    var list: seq<Plan> := [];
    for k := 0 to |keys|
      invariant |list| == k
      invariant forall j :: 0 <= j < k ==> list[j] == PlanGroup(world, keys[j], ClosesOf(lots, keys[j]))
    {
      GroupIs(lots, groups, keys[k]);
      list := list + [PlanGroup(world, keys[k], Pick(lots, groups[keys[k]]))];
    }
    plans := new Plan[|list|](k requires 0 <= k < |list| => list[k]);
    assert plans[..] == list;
  }

  lemma GroupIs(lots: seq<Lot>, groups: map<string, seq<nat>>, key: string)
    requires GroupedRows(lots, groups) && key in groups
    ensures groups[key] == GroupOf(lots, key)
  {
  }

  method RunPasses(plans: array<Plan>, world: World, manualAt: map<string, int>)
    modifies plans
    ensures plans[..] == FinalPlans(old(plans[..]), world, manualAt)
  {
    hide CapPlans, ManualPlans, DedupedPlans;
    CapRedeemPlansByTxBudget(plans, world.receipts);
    ZeroAutoRedeemAfterManualClose(plans, world, manualAt);
    ZeroDuplicateRedeemTx(plans, world.receipts);
  }

  /** The passes change what a plan pays and its kind, nothing else. */
  ghost predicate SameGroup(p: Plan, q: Plan) {
    p.sellKey == q.sellKey && p.closes == q.closes && p.txHash == q.txHash && p.skipped == q.skipped
  }

  lemma PassesKeepGroups(plans: seq<Plan>, world: World, manualAt: map<string, int>)
    ensures forall k :: 0 <= k < |plans| ==> SameGroup(plans[k], FinalPlans(plans, world, manualAt)[k])
  {
    var capped := CapPlans(plans, world.receipts);
    var handled := ManualPlans(capped, world, manualAt);
    forall k | 0 <= k < |plans| ensures SameGroup(plans[k], FinalPlans(plans, world, manualAt)[k]) {
      assert SameGroup(plans[k], capped[k]);
      assert SameGroup(capped[k], handled[k]) by {
        hide ClosedManuallyBefore;
      }
      hide CapPlans, ManualPlans, Indices;
      assert SameGroup(handled[k], DedupedPlan(handled, world.receipts, k));
    }
  }

  /** Each group's plan belongs to it. */
  ghost predicate PlansFit(lots: seq<Lot>, plans: seq<Plan>) {
    && |plans| == |KeysOf(lots)|
    && forall k :: 0 <= k < |plans| ==> plans[k].closes == ClosesOf(lots, KeysOf(lots)[k])
  }

  method ApplyPlans(rows: array<Lot>, keys: seq<string>, groups: map<string, seq<nat>>, plans: array<Plan>)
    requires keys == KeysOf(rows[..]) && (forall key :: key in groups <==> key in keys)
    requires GroupedRows(rows[..], groups) && PlansFit(rows[..], plans[..])
    modifies rows
    ensures Settled(old(rows[..]), plans[..], rows[..])
  {
    ghost var lots := rows[..];
    hide PartlySettled, Settled, GroupedRows, PlansFit;
    SettlingStarts(lots, plans[..]);
    for k := 0 to |keys|
      invariant PartlySettled(lots, plans[..], k, rows[..])
    {
      GroupIs(lots, groups, keys[k]);
      ApplyPlan(rows, lots, plans, k, groups[keys[k]]);
    }
    SettlingEnds(lots, plans[..], rows[..]);
  }

  /** Applies one plan to the rows of its group. */
  method ApplyPlan(rows: array<Lot>, ghost lots: seq<Lot>, plans: array<Plan>, k: nat, members: seq<nat>)
    requires PartlySettled(lots, plans[..], k, rows[..]) && PlansFit(lots, plans[..])
    requires k < plans.Length == |KeysOf(lots)| && members == GroupOf(lots, KeysOf(lots)[k])
    modifies rows
    ensures PartlySettled(lots, plans[..], k + 1, rows[..])
  {
    hide PartlySettled, GroupOf, KeysOf, PlansFit, Pick;
    ghost var before := rows[..];
    MembersOfGroup(lots, KeysOf(lots)[k]);
    SettlingLength(lots, plans[..], k, before);
    if plans[k].skipped.None? {
      var _ := ApplyGroupRepairs(rows, members, plans[k].total);
    }
    SettlingGoesOn(lots, plans[..], k, before, rows[..]);
  }

  lemma SettlingLength(lots: seq<Lot>, plans: seq<Plan>, k: nat, after: seq<Lot>)
    requires PartlySettled(lots, plans, k, after)
    ensures |after| == |lots|
  {
  }

  /** The rows once the first `k` plans are applied. */
  ghost predicate PartlySettled(lots: seq<Lot>, plans: seq<Plan>, k: nat, after: seq<Lot>) {
    && |after| == |lots| && |plans| == |KeysOf(lots)| && k <= |plans|
    && (forall i, j :: 0 <= i < |lots| && 0 <= j < k && lots[i].sellKey == KeysOf(lots)[j] ==>
                       after[i] == SettledLot(plans[j], lots[i]))
    && (forall i :: 0 <= i < |lots| && lots[i].sellKey !in KeysOf(lots)[..k] ==> after[i] == lots[i])
  }

  lemma SettlingStarts(lots: seq<Lot>, plans: seq<Plan>)
    requires |plans| == |KeysOf(lots)|
    ensures PartlySettled(lots, plans, 0, lots)
  {
    hide KeysOf, SettledLot;
  }

  /** The step of one plan, on values. */
  ghost predicate PlanApplied(lots: seq<Lot>, p: Plan, members: seq<nat>, before: seq<Lot>, after: seq<Lot>) {
    && |before| == |lots| == |after| && InRange(members, |lots|)
    && forall i :: 0 <= i < |lots| ==>
         after[i] == if p.skipped.None? && i in members
                     then RepairedLot(before[i], p.total, Sum(SizeOf, Pick(before, members))) else before[i]
  }

  lemma SettlingGoesOn(lots: seq<Lot>, plans: seq<Plan>, k: nat, before: seq<Lot>, after: seq<Lot>)
    requires k < |plans| == |KeysOf(lots)| && PartlySettled(lots, plans, k, before) && PlansFit(lots, plans)
    requires PlanApplied(lots, plans[k], GroupOf(lots, KeysOf(lots)[k]), before, after)
    ensures PartlySettled(lots, plans, k + 1, after)
  {
    hide PartlySettled, KeysOf, GroupOf, PlansFit, PlanApplied;
    MembersOfGroup(lots, KeysOf(lots)[k]);
    GroupSettles(lots, plans, k, before, after);
    OthersRest(lots, plans[k], GroupOf(lots, KeysOf(lots)[k]), before, after, KeysOf(lots)[k]);
    NextSettled(lots, plans, k, before, after);
  }

  /** The rows of other groups are left alone. */
  lemma OthersRest(lots: seq<Lot>, p: Plan, members: seq<nat>, before: seq<Lot>, after: seq<Lot>, key: string)
    requires PlanApplied(lots, p, members, before, after)
    requires forall i: nat :: i in members <==> i < |lots| && lots[i].sellKey == key
    ensures |after| == |before| == |lots|
    ensures forall i :: 0 <= i < |lots| && lots[i].sellKey != key ==> after[i] == before[i]
  {
    hide RepairedLot, Sum, Pick;
  }

  lemma NextSettled(lots: seq<Lot>, plans: seq<Plan>, k: nat, before: seq<Lot>, after: seq<Lot>)
    requires k < |plans| == |KeysOf(lots)| && PartlySettled(lots, plans, k, before)
    requires |after| == |before| == |lots|
    requires forall i :: 0 <= i < |lots| && lots[i].sellKey != KeysOf(lots)[k] ==> after[i] == before[i]
    requires forall i :: 0 <= i < |lots| && lots[i].sellKey == KeysOf(lots)[k] ==> after[i] == SettledLot(plans[k], lots[i])
    ensures PartlySettled(lots, plans, k + 1, after)
  {
    KeysAreDistinct(lots);
    hide KeysOf, SettledLot;
    var keys := KeysOf(lots);
    assert keys[..k + 1] == keys[..k] + [keys[k]];
  }

  lemma KeysAreDistinct(lots: seq<Lot>)
    ensures forall j, k :: 0 <= j < k < |KeysOf(lots)| ==> KeysOf(lots)[j] != KeysOf(lots)[k]
  {
    hide Map;
    assert Distinct(KeysOf(lots));
  }

  /** The rows of the plan's own group. */
  lemma GroupSettles(lots: seq<Lot>, plans: seq<Plan>, k: nat, before: seq<Lot>, after: seq<Lot>)
    requires k < |plans| == |KeysOf(lots)| && PartlySettled(lots, plans, k, before) && PlansFit(lots, plans)
    requires PlanApplied(lots, plans[k], GroupOf(lots, KeysOf(lots)[k]), before, after)
    ensures forall i :: 0 <= i < |lots| && lots[i].sellKey == KeysOf(lots)[k] ==> after[i] == SettledLot(plans[k], lots[i])
  {
    var key := KeysOf(lots)[k];
    var members := GroupOf(lots, key);
    MembersOfGroup(lots, key);
    KeyNotBefore(lots, k);
    assert plans[k].closes == Pick(lots, members);
    hide KeysOf, GroupOf, RepairedLot, Sum, PlansFit;
    SamePick(before, lots, members);
  }

  lemma KeyNotBefore(lots: seq<Lot>, k: nat)
    requires k < |KeysOf(lots)|
    ensures KeysOf(lots)[k] !in KeysOf(lots)[..k]
  {
    assert Distinct(KeysOf(lots));
  }

  lemma SamePick(a: seq<Lot>, b: seq<Lot>, members: seq<nat>)
    requires InRange(members, |a|) && InRange(members, |b|)
    requires forall i: nat :: i in members ==> i < |a| && i < |b| && a[i] == b[i]
    ensures Pick(a, members) == Pick(b, members)
  {
    forall n | 0 <= n < |members| ensures a[members[n]] == b[members[n]] {
      assert members[n] in members;
    }
  }

  lemma SettlingEnds(lots: seq<Lot>, plans: seq<Plan>, after: seq<Lot>)
    requires PartlySettled(lots, plans, |plans|, after)
    ensures Settled(lots, plans, after)
  {
    hide KeysOf, SettledLot;
  }

  lemma MembersOfGroup(lots: seq<Lot>, key: string)
    ensures ValidMembers(|lots|, GroupOf(lots, key))
    ensures forall i: nat :: i in GroupOf(lots, key) <==> i < |lots| && lots[i].sellKey == key
  {
    IndicesExactly(SoldUnder(key), lots);
  }

  // ------------------------------------------------------------ what a transaction leaves in the rows

  /** The rows' stored proceeds over the groups of some plans. */
  function StoredAt(lots: seq<Lot>, after: seq<Lot>, plans: seq<Plan>, ks: seq<nat>): real
    requires |after| == |lots| && |plans| == |KeysOf(lots)| && forall n :: 0 <= n < |ks| ==> ks[n] < |plans|
  {
    if ks == [] then 0.0
    else
      var k := ks[|ks| - 1];
      StoredAt(lots, after, plans, ks[..|ks| - 1]) + Sum(ProceedsOf, Pick(after, GroupOf(lots, KeysOf(lots)[k])))
  }

  /** How many rows those groups hold. */
  function RowsAt(lots: seq<Lot>, ks: seq<nat>): nat
    requires forall n :: 0 <= n < |ks| ==> ks[n] < |KeysOf(lots)|
  {
    if ks == [] then 0
    else RowsAt(lots, ks[..|ks| - 1]) + |GroupOf(lots, KeysOf(lots)[ks[|ks| - 1]])|
  }

  /** One applied group stores its planned total, up to half a unit a row. */
  lemma StoredGroup(lots: seq<Lot>, plans: seq<Plan>, after: seq<Lot>, k: nat)
    requires Settled(lots, plans, after) && PlansFit(lots, plans)
    requires k < |plans| && plans[k].skipped.None? && Closed(plans[k].closes) > EPS
    ensures
      var members := GroupOf(lots, KeysOf(lots)[k]);
      Abs(Sum(ProceedsOf, Pick(after, members)) - plans[k].total) <= Slack(|members|)
  {
    var key := KeysOf(lots)[k];
    var members := GroupOf(lots, key);
    var closes := ClosesOf(lots, key);
    MembersOfGroup(lots, key);
    hide RepairedLot, Slack, Sum, KeysOf, GroupOf;
    forall n | 0 <= n < |members|
      ensures Pick(after, members)[n] == Map(RepairBy(plans[k].total, Closed(closes)), closes)[n]
    {
      assert members[n] in members;
      assert after[members[n]] == SettledLot(plans[k], lots[members[n]]);
    }
    assert Pick(after, members) == Map(RepairBy(plans[k].total, Closed(closes)), closes);
    StoredGroupConserves(closes, plans[k].total);
  }

  /** After the repair no row of a redeem booked after a manual close keeps any proceeds. */
  lemma ManuallyClosedRowsPayNothing(lots: seq<Lot>, world: World, manualAt: map<string, int>, plans: seq<Plan>,
                                     after: seq<Lot>, k: nat, i: nat)
    requires plans == FinalPlans(FreshPlans(lots, world), world, manualAt) && Settled(lots, plans, after)
    requires k < |plans| && i < |lots|
    ensures lots[i].sellKey == KeysOf(lots)[k] && ClosedManuallyBefore(world, manualAt, FreshPlans(lots, world)[k]) ==>
              after[i].proceedsUsd == 0.0
  {
    hide FinalPlans, FreshPlans, KeysOf, WithProceeds, ClosedManuallyBefore;
    if lots[i].sellKey == KeysOf(lots)[k] && ClosedManuallyBefore(world, manualAt, FreshPlans(lots, world)[k]) {
      ManualPlanPaysNothing(lots, world, manualAt, plans, after, k, i);
    }
  }

  lemma ManualPlanPaysNothing(lots: seq<Lot>, world: World, manualAt: map<string, int>, plans: seq<Plan>,
                              after: seq<Lot>, k: nat, i: nat)
    requires plans == FinalPlans(FreshPlans(lots, world), world, manualAt) && Settled(lots, plans, after)
    requires k < |plans| && i < |lots| && lots[i].sellKey == KeysOf(lots)[k]
    requires ClosedManuallyBefore(world, manualAt, FreshPlans(lots, world)[k])
    ensures after[i].proceedsUsd == 0.0
  {
    hide FinalPlans, FreshPlans, KeysOf, WithProceeds;
    ManualClosesPayNothing(FreshPlans(lots, world), world, manualAt, k);
    PassesKeepGroups(FreshPlans(lots, world), world, manualAt);
    assert SameGroup(FreshPlans(lots, world)[k], plans[k]);
    assert after[i] == RepairedLot(lots[i], 0.0, Closed(plans[k].closes));
    NothingPaid(lots[i], Closed(plans[k].closes));
  }

  lemma NothingPaid(lot: Lot, totalClosed: real)
    ensures RepairedLot(lot, 0.0, totalClosed).proceedsUsd == 0.0
  {
    assert 0.0 * Share(lot, totalClosed) == 0.0;
    DecIsClose(0.0);
    hide Dec;
  }

  /** A group whose plan was skipped keeps its rows as they were. */
  lemma SkippedRowsAreUntouched(lots: seq<Lot>, plans: seq<Plan>, after: seq<Lot>, k: nat, i: nat)
    requires Settled(lots, plans, after) && k < |plans| && plans[k].skipped.Some?
    requires i < |lots| && lots[i].sellKey == KeysOf(lots)[k]
    ensures after[i] == lots[i]
  {
    hide KeysOf;
  }

  /** A row of an applied group gets its part of the group's total, in proportion to its shares, stored to half a
      unit of the 8th decimal. */
  lemma AppliedRowsGetTheirPart(lots: seq<Lot>, plans: seq<Plan>, after: seq<Lot>, k: nat, i: nat)
    requires Settled(lots, plans, after) && k < |plans| && plans[k].skipped.None?
    requires i < |lots| && lots[i].sellKey == KeysOf(lots)[k]
    ensures Abs(after[i].proceedsUsd - Portion(lots[i], plans[k].total, Closed(plans[k].closes))) <= HALF
    ensures BooksBalance(after[i])
  {
    hide KeysOf, WithProceeds, Portion, Closed, BooksBalance;
    StoredRow(lots[i], Portion(lots[i], plans[k].total, Closed(plans[k].closes)));
  }

  /** After the repair no row of an applied group exits above a dollar a share. */
  lemma NoRowExitsAboveADollar(lots: seq<Lot>, world: World, manualAt: map<string, int>, plans: seq<Plan>,
                               after: seq<Lot>, k: nat, i: nat)
    requires plans == FinalPlans(FreshPlans(lots, world), world, manualAt) && Settled(lots, plans, after)
    requires k < |plans| && i < |lots| && lots[i].sellKey == KeysOf(lots)[k] && plans[k].skipped.None?
    ensures 0.0 <= after[i].exitPrice <= 1.0
  {
    hide FinalPlans, FreshPlans, KeysOf, RepairedLot, PlansFit, Closed, TxTotal, Indices;
    FreshPlansFit(lots, world, manualAt);
    NoTxIsOverCredited(FreshPlans(lots, world), world, manualAt, "");
    assert PlanOk(world.receipts, plans[k]);
    assert after[i] == RepairedLot(lots[i], plans[k].total, Closed(plans[k].closes));
    ExitAtMostADollar(lots[i], plans[k].total, Closed(plans[k].closes));
  }

  lemma {:induction false} StoredIsNearTotal(lots: seq<Lot>, plans: seq<Plan>, after: seq<Lot>, ks: seq<nat>)
    requires Settled(lots, plans, after) && PlansFit(lots, plans)
    requires forall n :: 0 <= n < |ks| ==>
               ks[n] < |plans| && plans[ks[n]].skipped.None? && Closed(plans[ks[n]].closes) > EPS
    ensures StoredAt(lots, after, plans, ks) <= TotalAt(plans, ks) + Slack(RowsAt(lots, ks))
  {
    assert |plans| == |KeysOf(lots)|;
    hide Settled, PlansFit, Slack, Sum, KeysOf, GroupOf;
    if ks == [] {
      NoSlack();
    } else {
      var k := ks[|ks| - 1];
      StoredIsNearTotal(lots, plans, after, ks[..|ks| - 1]);
      StoredGroup(lots, plans, after, k);
      SlackAdds(RowsAt(lots, ks[..|ks| - 1]), |GroupOf(lots, KeysOf(lots)[k])|);
    }
  }

  lemma NoSlack()
    ensures Slack(0) == 0.0
  {
  }

  lemma SlackAdds(a: nat, b: nat)
    ensures Slack(a + b) == Slack(a) + Slack(b)
  {
  }

  /** An applied fresh plan has closed something. */
  lemma FreshPlansFit(lots: seq<Lot>, world: World, manualAt: map<string, int>)
    ensures
      var fresh0 := FreshPlans(lots, world);
      var final := FinalPlans(fresh0, world, manualAt);
      && AllOk(world.receipts, fresh0)
      && PlansFit(lots, final)
      && forall k :: 0 <= k < |final| && final[k].skipped.None? ==> Closed(final[k].closes) > EPS
  {
    var fresh0 := FreshPlans(lots, world);
    PassesKeepGroups(fresh0, world, manualAt);
    hide FinalPlans;
    var final := FinalPlans(fresh0, world, manualAt);
    forall k | 0 <= k < |fresh0|
      ensures PlanOk(world.receipts, fresh0[k]) && final[k].closes == ClosesOf(lots, KeysOf(lots)[k])
      ensures final[k].skipped.None? ==> Closed(final[k].closes) > EPS
    {
      var key := KeysOf(lots)[k];
      PlanGroupIsOk(world, key, ClosesOf(lots, key));
      FreshPlanClosed(world, key, ClosesOf(lots, key));
      assert SameGroup(fresh0[k], final[k]);
    }
  }

  lemma FreshPlanClosed(world: World, key: string, closes: seq<Lot>)
    ensures PlanGroup(world, key, closes).closes == closes
    ensures PlanGroup(world, key, closes).skipped.None? ==> Closed(closes) > EPS
  {
    hide RedeemTotal, AllocateMarketSell, FillNotional, IsTxHash, Sum;
  }

  /** End to end: after the repair the rows of all groups settled by one redeem transaction store at most
      what the chain confirmed for it, up to half a unit of the 8th decimal a row. */
  lemma TxRowsStayWithinBudget(lots: seq<Lot>, world: World, manualAt: map<string, int>, plans: seq<Plan>,
                               after: seq<Lot>, tx: string, ks: seq<nat>)
    requires plans == FinalPlans(FreshPlans(lots, world), world, manualAt) && Settled(lots, plans, after)
    requires ks == Indices(OfTx(tx), plans) && ks != []
    ensures Resolve(world.receipts, tx).Confirmed?
    ensures StoredAt(lots, after, plans, ks) <= Resolve(world.receipts, tx).usd + Slack(RowsAt(lots, ks))
  {
    TxPlans(lots, world, manualAt, plans, tx, ks);
    hide FinalPlans, FreshPlans, Settled, PlansFit, Slack, Indices, KeysOf, GroupOf, StoredAt, RowsAt, TotalAt;
    StoredIsNearTotal(lots, plans, after, ks);
  }

  /** The final plans of one transaction. */
  lemma TxPlans(lots: seq<Lot>, world: World, manualAt: map<string, int>, plans: seq<Plan>, tx: string, ks: seq<nat>)
    requires plans == FinalPlans(FreshPlans(lots, world), world, manualAt)
    requires ks == Indices(OfTx(tx), plans) && ks != []
    ensures PlansFit(lots, plans)
    ensures forall n :: 0 <= n < |ks| ==>
              ks[n] < |plans| && plans[ks[n]].skipped.None? && Closed(plans[ks[n]].closes) > EPS
    ensures Resolve(world.receipts, tx).Confirmed? && TotalAt(plans, ks) <= Resolve(world.receipts, tx).usd
  {
    hide FinalPlans, FreshPlans, PlansFit, Indices, AllOk, KeysOf, GroupOf, TotalAt, Resolve;
    FreshPlansFit(lots, world, manualAt);
    NoTxIsOverCredited(FreshPlans(lots, world), world, manualAt, tx);
    PlansOfTx(plans, tx);
  }

  lemma PlansOfTx(plans: seq<Plan>, tx: string)
    ensures
      var ks := Indices(OfTx(tx), plans);
      forall n :: 0 <= n < |ks| ==> ks[n] < |plans| && plans[ks[n]].txHash == Some(tx) && plans[ks[n]].skipped.None?
  {
    IndicesExactly(OfTx(tx), plans);
    hide Indices;
    var ks := Indices(OfTx(tx), plans);
    assert forall n :: 0 <= n < |ks| ==> ks[n] in ks && OfTx(tx)(plans[ks[n]]);
  }
}
