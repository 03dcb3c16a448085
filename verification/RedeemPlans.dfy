/** The settlement plan of every sell group, and the passes that keep a redeem transaction from being
    credited twice. */
module RedeemPlans {
  import opened Options
  import opened Seqs
  import opened Texts
  import opened Money
  import opened Lots
  import opened SettlementProceeds

  datatype Kind =
    | Empty | LegacyMissing | ExpiredWorthless | Redeem | LegacyOther
    | CopyMissing | CopyNotSell | MarketSell

  datatype Plan = Plan(
    sellKey: string,
    closes: seq<Lot>,
    total: real,
    kind: Kind,
    txHash: Option<string>,
    skipped: Option<string>)

  datatype Execution = Execution(
    leaderAddress: string,
    polymarketOrderId: Option<string>,
    size: real,
    tokenID: string,
    createdAt: int)

  datatype TradeRow = TradeRow(
    isSell: bool,
    filledAmount: Option<real>,
    intendedSize: real,
    avgPrice: Option<real>,
    intendedPrice: real)

  /** The database and the chain as fixed lookups. */
  datatype World = World(
    executions: map<string, Execution>,
    tradeRows: map<string, TradeRow>,
    receipts: map<string, real>)

  datatype ChainProceeds = Confirmed(usd: real) | Unavailable

  function Resolve(receipts: map<string, real>, tx: string): (c: ChainProceeds)
    ensures c.Confirmed? ==> c.usd >= 0.0
  {
    if tx in receipts then Confirmed(MaxR(0.0, receipts[tx])) else Unavailable
  }

  // ------------------------------------------------------------ planning one group

  const LEGACY := "legacy:"

  predicate IsLegacy(sellKey: string) {
    LEGACY <= sellKey
  }

  function SellId(sellKey: string): string {
    if IsLegacy(sellKey) then sellKey[|LEGACY|..] else sellKey
  }

  predicate IsHexDigit(c: char) {
    '0' <= c <= '9' || 'a' <= c <= 'f'
  }

  predicate IsTxHash(s: string) {
    |s| == 66 && s[0] == '0' && s[1] == 'x' && forall i :: 2 <= i < 66 ==> IsHexDigit(s[i])
  }

  predicate IsRedeemLeader(leader: string) {
    leader == "auto_redeem" || leader == "manual_redeem"
  }

  function Closed(closes: seq<Lot>): real {
    Sum(SizeOf, closes)
  }

  function Skip(sellKey: string, closes: seq<Lot>, kind: Kind, reason: string): Plan {
    Plan(sellKey, closes, 0.0, kind, None, Some(reason))
  }

  /** What a confirmed redeem pays the group: the planned share, unless that would turn a small booked
      loss into a profit, and never more than the chain paid or a dollar a share. */
  function RedeemTotal(closes: seq<Lot>, usd: real, executionSize: real): real {
    var closed := Closed(closes);
    var planned := PlanRedeem(usd, executionSize, closed);
    var oldPnl, oldProceeds := Sum(PnlOf, closes), Sum(ProceedsOf, closes);
    var newPnl := planned - Sum(CostOf, closes);
    var chainExit := if closed > EPS then usd / closed else 0.0;
    var fullWin := 0.9 <= chainExit <= 1.05 + EPS;
    var cap := closed * MAX_BINARY_SHARE_PAYOUT_USD;
    var total :=
      if !fullWin && oldPnl < 0.2 && newPnl - oldPnl > 0.5 then
        if oldProceeds > EPS then oldProceeds else MinR(usd, cap)
      else planned;
    MinR(MinR(total, usd), cap)
  }

  function PlanLegacy(world: World, sellKey: string, closes: seq<Lot>): Plan {
    var id := SellId(sellKey);
    if id !in world.executions then Skip(sellKey, closes, LegacyMissing, "execution_not_found")
    else
      var execution := world.executions[id];
      if execution.leaderAddress == "manual_expired" then Plan(sellKey, closes, 0.0, ExpiredWorthless, None, None)
      else if IsRedeemLeader(execution.leaderAddress) then
        var txHash := Lower(Trim(execution.polymarketOrderId.GetOr("")));
        if !IsTxHash(txHash) then Skip(sellKey, closes, Redeem, "missing_tx_hash")
        else match Resolve(world.receipts, txHash)
          case Unavailable => Skip(sellKey, closes, Redeem, "chain_unavailable")
          case Confirmed(usd) =>
            Plan(sellKey, closes, RedeemTotal(closes, usd, execution.size), Redeem, Some(txHash), None)
      else Skip(sellKey, closes, LegacyOther, "leader_" + execution.leaderAddress)
  }

  predicate IsHealthySell(impliedExit: real, entryAvgPrice: real) {
    impliedExit > EPS && impliedExit <= 1.01 + EPS &&
    !(entryAvgPrice > EPS && entryAvgPrice < 0.1 && impliedExit > 0.9)
  }

  function FillNotional(row: TradeRow, closed: real, oldProceeds: real): real {
    var filled := row.filledAmount.GetOr(row.intendedSize);
    var avgPrice := row.avgPrice.GetOr(row.intendedPrice);
    var notional := if filled > EPS && avgPrice > EPS then filled * avgPrice else 0.0;
    if !(notional > EPS) then MinR(oldProceeds, closed)
    else if filled > closed * 1.05 then ScaleFill(notional, filled, closed)
    else notional
  }

  function PlanCopySell(world: World, sellKey: string, closes: seq<Lot>): Plan
    requires Closed(closes) > EPS
  {
    if sellKey !in world.tradeRows then Skip(sellKey, closes, CopyMissing, "copy_trade_row_not_found")
    else if !world.tradeRows[sellKey].isSell then Skip(sellKey, closes, CopyNotSell, "not_a_sell_row")
    else
      var closed, oldProceeds, cost := Closed(closes), Sum(ProceedsOf, closes), Sum(CostOf, closes);
      var entryAvgPrice := cost / closed;
      if IsHealthySell(oldProceeds / closed, entryAvgPrice) then
        Plan(sellKey, closes, oldProceeds, MarketSell, None, Some("market_sell_ok"))
      else
        var notional := FillNotional(world.tradeRows[sellKey], closed, oldProceeds);
        Plan(sellKey, closes, AllocateMarketSell(notional, closed, cost, entryAvgPrice), MarketSell, None, None)
  }

  function PlanGroup(world: World, sellKey: string, closes: seq<Lot>): Plan {
    if !(Closed(closes) > EPS) then Skip(sellKey, closes, Empty, "zero_closed_size")
    else if IsLegacy(sellKey) then PlanLegacy(world, sellKey, closes)
    else PlanCopySell(world, sellKey, closes)
  }

  /** What holds of a plan through all passes: if it will be applied it pays between nothing and a dollar
      for each closed share; if it names a transaction, at most what the chain confirmed for it. */
  predicate PlanOk(receipts: map<string, real>, p: Plan) {
    && (p.skipped.None? ==> 0.0 <= p.total <= Closed(p.closes))
    && (p.txHash.Some? ==>
          && p.skipped.None?
          && Resolve(receipts, p.txHash.value).Confirmed?
          && p.total <= Resolve(receipts, p.txHash.value).usd
          && (p.kind != Redeem ==> p.total == 0.0))
    && (p.kind == Redeem && p.skipped.None? ==> p.txHash.Some?)
  }

  lemma RedeemTotalBounds(closes: seq<Lot>, usd: real, executionSize: real)
    requires Closed(closes) > EPS && usd >= 0.0
    ensures 0.0 <= RedeemTotal(closes, usd, executionSize) <= Closed(closes)
    ensures RedeemTotal(closes, usd, executionSize) <= usd
  {
    PlanRedeemBounds(usd, executionSize, Closed(closes));
    hide PlanRedeem, Sum;
  }

  /** A transaction that pays between 90 cents and $1.05 a closed share is a win: it is paid in full, up to a
      dollar a share, whatever the wallet size and the old books say. */
  lemma WinningRedeemIsPaidInFull(closes: seq<Lot>, usd: real, executionSize: real)
    requires Closed(closes) > EPS
    requires 0.9 * Closed(closes) <= usd <= 1.05 * Closed(closes)
    ensures RedeemTotal(closes, usd, executionSize) == MinR(usd, Closed(closes))
  {
    var closed := Closed(closes);
    FullWinIsPaidInFull(usd, executionSize, closed);
    QuotientBetween(usd, closed, 0.9, 1.05);
    hide PlanRedeem, Sum;
  }

  /** The dollar amount a redeem adds to the booked result of its group. */
  function Raise(closes: seq<Lot>, proceeds: real): real {
    proceeds - Sum(CostOf, closes) - Sum(PnlOf, closes)
  }

  predicate LooksLikeWin(closes: seq<Lot>, usd: real)
    requires Closed(closes) > EPS
  {
    0.9 <= usd / Closed(closes) <= 1.05 + EPS
  }

  /** A raise of at most 50 cents, or none beyond the proceeds the group had. */
  predicate SmallRaise(closes: seq<Lot>, proceeds: real) {
    proceeds <= Sum(ProceedsOf, closes) || Raise(closes, proceeds) <= 0.5
  }

  /** Short of a win, a group booked at less than 20 cents of profit gets a small raise exactly when it had
      proceeds before, or the plan itself raises it by at most 50 cents, or already the whole payout of the
      transaction, at a dollar a share, is a small raise. A group without proceeds whose plan is held back
      falls through to that whole payout. */
  lemma RedeemRaiseIsSmallExactly(closes: seq<Lot>, usd: real, executionSize: real)
    requires Closed(closes) > EPS && usd >= 0.0
    ensures !LooksLikeWin(closes, usd) && Sum(PnlOf, closes) < 0.2 ==>
              (SmallRaise(closes, RedeemTotal(closes, usd, executionSize)) <==>
                 || Sum(ProceedsOf, closes) > EPS
                 || Raise(closes, PlanRedeem(usd, executionSize, Closed(closes))) <= 0.5
                 || SmallRaise(closes, MinR(usd, Closed(closes))))
  {
    PlanRedeemBounds(usd, executionSize, Closed(closes));
    hide PlanRedeem, Sum;
  }

  /** Ten shares bought for five dollars, booked as a total loss. */
  const LOST_LOT := Lot("", "legacy:x", "", 10.0, 0.0, 5.0, 0.0, -5.0, 0)

  /** Six dollars for a wallet of a hundred shares: the group's part is 60 cents, but it is paid all six dollars,
      and a booked loss of five dollars becomes a profit of one. */
  lemma LostGroupIsPaidTheWholeWallet()
    ensures
      var closes := [LOST_LOT];
      && Closed(closes) == 10.0 && Sum(PnlOf, closes) == -5.0 && !LooksLikeWin(closes, 6.0)
      && PlanRedeem(6.0, 100.0, 10.0) == 0.6
      && RedeemTotal(closes, 6.0, 100.0) == 6.0
      && Raise(closes, 6.0) == 6.0 && !SmallRaise(closes, RedeemTotal(closes, 6.0, 100.0))
  {
    var closes := [LOST_LOT];
    assert closes[1..] == [];
    assert Sum(SizeOf, closes) == 10.0 && Sum(ProceedsOf, closes) == 0.0;
    assert Sum(PnlOf, closes) == -5.0 && Sum(CostOf, closes) == 5.0;
    hide Sum;
    assert 6.0 / 10.0 == 0.6 && 10.0 / 100.0 == 0.1;
    assert PlanRedeem(6.0, 100.0, 10.0) == 0.6;
    hide PlanRedeem;
  }

  /** The size and price a trade row records, or was meant to have. */
  function FillSize(row: TradeRow): real { row.filledAmount.GetOr(row.intendedSize) }

  function FillPrice(row: TradeRow): real { row.avgPrice.GetOr(row.intendedPrice) }

  /** Whether the trade row gives a usable fill. */
  predicate HasFill(row: TradeRow) {
    FillSize(row) > EPS && FillPrice(row) > EPS && FillSize(row) * FillPrice(row) > EPS
  }

  /** A repaired market sell is credited at most its fill, and at most 5% above the fill price for each closed
      share; without a usable fill, at most the proceeds it had. */
  lemma MarketSellPaysAtMostItsFill(row: TradeRow, closed: real, oldProceeds: real, cost: real)
    requires closed > EPS
    ensures
      var total := AllocateMarketSell(FillNotional(row, closed, oldProceeds), closed, cost, cost / closed);
      if HasFill(row) then total <= FillSize(row) * FillPrice(row) && total <= 1.05 * closed * FillPrice(row)
      else total <= MaxR(0.0, oldProceeds)
  {
    AllocatesAtMost(FillNotional(row, closed, oldProceeds), closed, cost, cost / closed);
    hide AllocateMarketSell;
    if HasFill(row) {
      FillPaysAtMostItsPrice(row, closed, oldProceeds);
      FillIsPositive(FillSize(row), FillPrice(row), closed);
      hide FillNotional;
    } else {
      hide FillSize, FillPrice;
      NoFill(row, closed, oldProceeds);
    }
  }

  lemma AllocatesAtMost(fillUsd: real, closed: real, cost: real, entry: real)
    ensures AllocateMarketSell(fillUsd, closed, cost, entry) <= MaxR(0.0, fillUsd)
  {
  }

  lemma FillIsPositive(filled: real, price: real, closed: real)
    requires filled > 0.0 && price > 0.0 && closed > 0.0
    ensures filled * price > 0.0 && 1.05 * closed * price > 0.0
  {
  }

  lemma NoFill(row: TradeRow, closed: real, oldProceeds: real)
    requires !HasFill(row)
    ensures FillNotional(row, closed, oldProceeds) == MinR(oldProceeds, closed)
  {
  }

  lemma FillPaysAtMostItsPrice(row: TradeRow, closed: real, oldProceeds: real)
    requires closed > EPS && HasFill(row)
    ensures FillNotional(row, closed, oldProceeds) <= FillSize(row) * FillPrice(row)
    ensures FillNotional(row, closed, oldProceeds) <= 1.05 * closed * FillPrice(row)
  {
    FillIs(row, closed, oldProceeds);
    hide FillNotional;
    FillBound(FillSize(row), FillPrice(row), closed);
  }

  lemma FillIs(row: TradeRow, closed: real, oldProceeds: real)
    requires closed > EPS && HasFill(row)
    ensures FillNotional(row, closed, oldProceeds) ==
            if FillSize(row) > closed * 1.05 then closed * FillPrice(row) else FillSize(row) * FillPrice(row)
  {
    if FillSize(row) > closed * 1.05 {
      QuotientBetween(closed, FillSize(row), 0.0, 1.0);
      ScaledFill(FillSize(row), FillPrice(row), closed);
    }
  }

  lemma FillBound(filled: real, price: real, closed: real)
    requires filled > 0.0 && price > 0.0 && closed > 0.0
    ensures
      var paid := if filled > closed * 1.05 then closed * price else filled * price;
      paid <= filled * price && paid <= 1.05 * closed * price
  {
    if filled > closed * 1.05 {
      LessTimes(closed, filled, price);
      LessTimes(closed, 1.05 * closed, price);
    } else {
      LessTimes(filled, 1.05 * closed, price);
    }
  }

  lemma ScaledFill(filled: real, price: real, closed: real)
    requires filled > 0.0
    ensures filled * price * (closed / filled) == closed * price
  {
  }

  /** Every fresh plan is within those bounds: no applied group exits above a dollar a share. */
  lemma PlanGroupIsOk(world: World, sellKey: string, closes: seq<Lot>)
    ensures PlanOk(world.receipts, PlanGroup(world, sellKey, closes))
  {
    hide RedeemTotal, AllocateMarketSell, FillNotional, Sum, Lower, Trim, IsTxHash;
    if Closed(closes) > EPS {
      if IsLegacy(sellKey) {
        var id := SellId(sellKey);
        if id in world.executions {
          var execution := world.executions[id];
          var txHash := Lower(Trim(execution.polymarketOrderId.GetOr("")));
          if Resolve(world.receipts, txHash).Confirmed? {
            RedeemTotalBounds(closes, Resolve(world.receipts, txHash).usd, execution.size);
          }
        }
      } else if sellKey in world.tradeRows {
        var notional := FillNotional(world.tradeRows[sellKey], Closed(closes), Sum(ProceedsOf, closes));
        MarketSellBounds(notional, Closed(closes), Sum(CostOf, closes));
      }
    }
  }

  // ------------------------------------------------------------ the passes, plan by plan

  /** The plans of one transaction that will be applied. */
  function OfTx(tx: string): Plan -> bool {
    (p: Plan) => p.txHash == Some(tx) && p.skipped.None?
  }

  /** Those of them that are still redeems. */
  function RedeemOfTx(tx: string): Plan -> bool {
    (p: Plan) => p.txHash == Some(tx) && p.skipped.None? && p.kind == Redeem
  }

  function TotalAt(plans: seq<Plan>, members: seq<nat>): real
    requires forall k :: 0 <= k < |members| ==> members[k] < |plans|
  {
    if members == [] then 0.0
    else TotalAt(plans, members[..|members| - 1]) + plans[members[|members| - 1]].total
  }

  function TxTotal(plans: seq<Plan>, tx: string): real {
    TotalAt(plans, Indices(OfTx(tx), plans))
  }

  const CAP_TOLERANCE := 0.02

  predicate ExceedsBudget(plans: seq<Plan>, receipts: map<string, real>, tx: string) {
    var chain := Resolve(receipts, tx);
    chain.Confirmed? && chain.usd > EPS && TxTotal(plans, tx) > chain.usd + CAP_TOLERANCE
  }

  /** A plan after the budget pass. */
  function CappedPlan(plans: seq<Plan>, receipts: map<string, real>, p: Plan): Plan {
    if p.txHash.Some? && p.skipped.None? && ExceedsBudget(plans, receipts, p.txHash.value) then
      p.(total := ScaleToBudget(p.total, TxTotal(plans, p.txHash.value), Resolve(receipts, p.txHash.value).usd))
    else p
  }

  function CapPlans(plans: seq<Plan>, receipts: map<string, real>): (r: seq<Plan>)
    ensures |r| == |plans|
  {
    seq(|plans|, i requires 0 <= i < |plans| => CappedPlan(plans, receipts, plans[i]))
  }

  predicate ClosedManuallyBefore(world: World, manualAt: map<string, int>, p: Plan) {
    p.skipped.None? && p.kind == Redeem && IsLegacy(p.sellKey) && SellId(p.sellKey) in world.executions &&
    var execution := world.executions[SellId(p.sellKey)];
    var token := Lower(Trim(execution.tokenID));
    && IsRedeemLeader(execution.leaderAddress)
    && token in manualAt && execution.createdAt > manualAt[token]
    && Sum(ProceedsOf, p.closes) > 0.01
  }

  /** A plan after the manual-close pass. */
  function AfterManual(world: World, manualAt: map<string, int>, p: Plan): Plan {
    if ClosedManuallyBefore(world, manualAt, p) then p.(total := 0.0, kind := ExpiredWorthless) else p
  }

  function ManualPlans(plans: seq<Plan>, world: World, manualAt: map<string, int>): (r: seq<Plan>)
    ensures |r| == |plans|
  {
    seq(|plans|, i requires 0 <= i < |plans| => AfterManual(world, manualAt, plans[i]))
  }

  function TxBudget(receipts: map<string, real>, tx: string): real {
    var chain := Resolve(receipts, tx);
    if chain.Confirmed? && chain.usd > EPS then chain.usd else 0.0
  }

  /** A group whose closed shares match a full win of the whole transaction. */
  predicate IsFullWinGroup(p: Plan, budget: real) {
    budget > EPS && IsFullWin(budget, Closed(p.closes), EPS)
  }

  function FullWinRedeem(receipts: map<string, real>, tx: string): Plan -> bool {
    (p: Plan) => p.txHash == Some(tx) && p.skipped.None? && p.kind == Redeem && IsFullWinGroup(p, TxBudget(receipts, tx))
  }

  /** The plan at `i` after the duplicate pass: alone in its transaction it stays; among several only a
      unique full win is paid, and all others expire. */
  function DedupedPlan(plans: seq<Plan>, receipts: map<string, real>, i: nat): Plan
    requires i < |plans|
  {
    var p := plans[i];
    if !(p.txHash.Some? && p.skipped.None? && p.kind == Redeem) then p
    else
      var tx := p.txHash.value;
      if |Indices(RedeemOfTx(tx), plans)| < 2 then p
      else if Indices(FullWinRedeem(receipts, tx), plans) == [i] then
        p.(total := MinR(TxBudget(receipts, tx), Closed(p.closes)))
      else p.(total := 0.0, kind := ExpiredWorthless)
  }

  function DedupedPlans(plans: seq<Plan>, receipts: map<string, real>): (r: seq<Plan>)
    ensures |r| == |plans|
  {
    seq(|plans|, i requires 0 <= i < |plans| => DedupedPlan(plans, receipts, i))
  }

  // ------------------------------------------------------------ no transaction is over-credited

  ghost predicate AllOk(receipts: map<string, real>, plans: seq<Plan>) {
    forall i :: 0 <= i < |plans| ==> PlanOk(receipts, plans[i])
  }

  lemma ScalingShrinks(planned: real, sum: real, usd: real)
    requires planned >= 0.0 && usd > EPS && sum > usd + CAP_TOLERANCE
    ensures 0.0 <= ScaleToBudget(planned, sum, usd) <= planned
  {
    assert 0.0 <= usd / sum <= 1.0;
    ShareOf(planned, usd, sum);
  }

  lemma CapKeepsOk(plans: seq<Plan>, receipts: map<string, real>)
    requires AllOk(receipts, plans)
    ensures AllOk(receipts, CapPlans(plans, receipts))
  {
    forall i | 0 <= i < |plans| ensures PlanOk(receipts, CapPlans(plans, receipts)[i]) {
      var p := plans[i];
      assert PlanOk(receipts, p);
      if p.txHash.Some? && p.skipped.None? && ExceedsBudget(plans, receipts, p.txHash.value) {
        ScalingShrinks(p.total, TxTotal(plans, p.txHash.value), Resolve(receipts, p.txHash.value).usd);
        if p.total == 0.0 {
          NothingScaled(TxTotal(plans, p.txHash.value), Resolve(receipts, p.txHash.value).usd);
        }
      }
      hide ScaleToBudget, TxTotal, ExceedsBudget;
    }
  }

  lemma NothingScaled(sum: real, usd: real)
    requires sum > usd && usd >= 0.0
    ensures ScaleToBudget(0.0, sum, usd) == 0.0
  {
    assert 0.0 * (usd / sum) == 0.0;
  }

  lemma ManualKeepsOk(plans: seq<Plan>, world: World, manualAt: map<string, int>)
    requires AllOk(world.receipts, plans)
    ensures AllOk(world.receipts, ManualPlans(plans, world, manualAt))
  {
    hide ClosedManuallyBefore;
    forall i | 0 <= i < |plans| ensures PlanOk(world.receipts, ManualPlans(plans, world, manualAt)[i]) {
      assert PlanOk(world.receipts, plans[i]);
    }
  }

  lemma DedupKeepsOk(plans: seq<Plan>, receipts: map<string, real>)
    requires AllOk(receipts, plans)
    ensures AllOk(receipts, DedupedPlans(plans, receipts))
  {
    forall i | 0 <= i < |plans| ensures PlanOk(receipts, DedupedPlans(plans, receipts)[i]) {
      assert PlanOk(receipts, plans[i]);
      IndicesExactly(FullWinRedeem(receipts, plans[i].txHash.GetOr("")), plans);
      hide Indices;
    }
  }

  /** After the duplicate pass at most one plan of a transaction pays anything. */
  lemma OnePayerPerTx(plans: seq<Plan>, receipts: map<string, real>, i: nat, j: nat)
    requires AllOk(receipts, plans) && i < |plans| && j < |plans| && i != j
    requires plans[i].txHash.Some? && plans[i].txHash == plans[j].txHash
    ensures DedupedPlans(plans, receipts)[i].total == 0.0 || DedupedPlans(plans, receipts)[j].total == 0.0
  {
    var tx := plans[i].txHash.value;
    assert PlanOk(receipts, plans[i]) && PlanOk(receipts, plans[j]);
    IndicesExactly(RedeemOfTx(tx), plans);
    hide Indices, PlanOk;
    var members := Indices(RedeemOfTx(tx), plans);
    if plans[i].kind == Redeem && plans[j].kind == Redeem {
      assert i in members && j in members;
      TwoMembers(members, i, j);
    }
  }

  lemma TwoMembers(members: seq<nat>, i: nat, j: nat)
    requires i in members && j in members && i != j
    ensures |members| >= 2
  {
  }

  /** At most one payer, each within the budget: the sum is within the budget. */
  lemma {:induction false} SumOfOnePayer(plans: seq<Plan>, members: seq<nat>, budget: real)
    requires forall k :: 0 <= k < |members| ==> members[k] < |plans|
    requires forall k :: 0 <= k < |members| ==> 0.0 <= plans[members[k]].total <= budget
    requires forall k, l :: 0 <= k < l < |members| ==>
               plans[members[k]].total == 0.0 || plans[members[l]].total == 0.0
    requires budget >= 0.0
    ensures 0.0 <= TotalAt(plans, members) <= budget
    ensures (forall k :: 0 <= k < |members| ==> plans[members[k]].total == 0.0) ==> TotalAt(plans, members) == 0.0
  {
    if members != [] {
      SumOfOnePayer(plans, members[..|members| - 1], budget);
    }
  }

  /** The budget pass brings a transaction that exceeds its budget down to exactly what the chain paid, and
      leaves the others alone. */
  lemma CapMeetsBudget(plans: seq<Plan>, receipts: map<string, real>, tx: string)
    ensures TxTotal(CapPlans(plans, receipts), tx) ==
            if ExceedsBudget(plans, receipts, tx) then Resolve(receipts, tx).usd else TxTotal(plans, tx)
  {
    hide CapPlans, ExceedsBudget, TxTotal, CapFactor, Indices, TotalAt;
    var capped := CapPlans(plans, receipts);
    var members := Indices(OfTx(tx), plans);
    CappedMembers(plans, receipts, tx);
    ScaledTotal(plans, capped, members, CapFactor(plans, receipts, tx));
    FactorMeetsBudget(plans, receipts, tx);
    TotalIs(plans, tx);
    TotalIs(capped, tx);
  }

  /** The budget pass multiplies what the plans of a transaction pay by one factor. */
  lemma CappedMembers(plans: seq<Plan>, receipts: map<string, real>, tx: string)
    ensures
      var capped, members := CapPlans(plans, receipts), Indices(OfTx(tx), plans);
      && Indices(OfTx(tx), capped) == members
      && forall k :: 0 <= k < |members| ==>
           members[k] < |plans| && capped[members[k]].total == plans[members[k]].total * CapFactor(plans, receipts, tx)
  {
    hide CapPlans, ExceedsBudget, TxTotal, CapFactor, CappedPlan, Indices, ScaleToBudget;
    var capped := CapPlans(plans, receipts);
    var members := Indices(OfTx(tx), plans);
    forall i | 0 <= i < |plans| ensures OfTx(tx)(capped[i]) == OfTx(tx)(plans[i]) {
      CappedAt(plans, receipts, i);
    }
    IndicesSame(OfTx(tx), OfTx(tx), capped, plans);
    IndicesExactly(OfTx(tx), plans);
    forall k | 0 <= k < |members|
      ensures members[k] < |plans| && capped[members[k]].total == plans[members[k]].total * CapFactor(plans, receipts, tx)
    {
      assert members[k] in members;
      CappedAt(plans, receipts, members[k]);
      CappedMember(plans, receipts, tx, plans[members[k]]);
    }
  }

  lemma CappedAt(plans: seq<Plan>, receipts: map<string, real>, i: nat)
    requires i < |plans|
    ensures
      var c := CapPlans(plans, receipts)[i];
      c == CappedPlan(plans, receipts, plans[i]) && c == plans[i].(total := c.total)
  {
    CappedKeepsTx(plans, receipts, plans[i]);
    hide CappedPlan;
  }

  lemma TotalIs(plans: seq<Plan>, tx: string)
    ensures TxTotal(plans, tx) == TotalAt(plans, Indices(OfTx(tx), plans))
  {
  }

  ghost function CapFactor(plans: seq<Plan>, receipts: map<string, real>, tx: string): real {
    if ExceedsBudget(plans, receipts, tx) then Resolve(receipts, tx).usd / TxTotal(plans, tx) else 1.0
  }

  lemma FactorMeetsBudget(plans: seq<Plan>, receipts: map<string, real>, tx: string)
    ensures TxTotal(plans, tx) * CapFactor(plans, receipts, tx) ==
            if ExceedsBudget(plans, receipts, tx) then Resolve(receipts, tx).usd else TxTotal(plans, tx)
  {
    if ExceedsBudget(plans, receipts, tx) {
      var total, usd := TxTotal(plans, tx), Resolve(receipts, tx).usd;
      assert total * (usd / total) == usd;
    }
  }

  lemma CappedKeepsTx(plans: seq<Plan>, receipts: map<string, real>, p: Plan)
    ensures
      var c := CappedPlan(plans, receipts, p);
      c == p.(total := c.total)
  {
    hide ExceedsBudget, ScaleToBudget, TxTotal;
  }

  lemma CappedMember(plans: seq<Plan>, receipts: map<string, real>, tx: string, p: Plan)
    requires OfTx(tx)(p)
    ensures CappedPlan(plans, receipts, p).total == p.total * CapFactor(plans, receipts, tx)
  {
    if !ExceedsBudget(plans, receipts, tx) {
      hide TxTotal;
      assert p.total * 1.0 == p.total;
    }
    hide TxTotal;
  }

  lemma {:induction false} ScaledTotal(plans: seq<Plan>, scaled: seq<Plan>, members: seq<nat>, factor: real)
    requires |plans| == |scaled| && forall k :: 0 <= k < |members| ==>
               members[k] < |plans| && scaled[members[k]].total == plans[members[k]].total * factor
    ensures TotalAt(scaled, members) == TotalAt(plans, members) * factor
  {
    if members == [] {
      assert 0.0 * factor == 0.0;
    } else {
      ScaledTotal(plans, scaled, members[..|members| - 1], factor);
      AddTimes(TotalAt(plans, members[..|members| - 1]), plans[members[|members| - 1]].total, factor);
    }
  }

  /** All passes in order. */
  function FinalPlans(plans: seq<Plan>, world: World, manualAt: map<string, int>): (r: seq<Plan>)
    ensures |r| == |plans|
  {
    DedupedPlans(ManualPlans(CapPlans(plans, world.receipts), world, manualAt), world.receipts)
  }

  /** A redeem booked after its position was closed by hand ends up worthless, whatever the other passes do. */
  lemma ManualClosesPayNothing(plans: seq<Plan>, world: World, manualAt: map<string, int>, k: nat)
    requires k < |plans| && ClosedManuallyBefore(world, manualAt, plans[k])
    ensures FinalPlans(plans, world, manualAt)[k].total == 0.0
    ensures FinalPlans(plans, world, manualAt)[k].kind == ExpiredWorthless
  {
    var capped := CapPlans(plans, world.receipts);
    CappedKeepsTx(plans, world.receipts, plans[k]);
    assert capped[k] == plans[k].(total := capped[k].total);
    ManualIgnoresTotal(world, manualAt, plans[k], capped[k].total);
    hide CapPlans, ClosedManuallyBefore, Indices;
    var handled := ManualPlans(capped, world, manualAt);
    assert handled[k] == capped[k].(total := 0.0, kind := ExpiredWorthless);
  }

  lemma ManualIgnoresTotal(world: World, manualAt: map<string, int>, p: Plan, total: real)
    ensures ClosedManuallyBefore(world, manualAt, p.(total := total)) == ClosedManuallyBefore(world, manualAt, p)
  {
    hide Sum;
  }

  /** A redeem that is alone in its transaction and was not closed by hand passes through unchanged. */
  lemma LoneRedeemIsKept(plans: seq<Plan>, world: World, manualAt: map<string, int>, k: nat)
    requires AllOk(world.receipts, plans) && k < |plans|
    requires plans[k].skipped.None? && plans[k].kind == Redeem
    requires forall j :: 0 <= j < |plans| && j != k ==> plans[j].txHash != plans[k].txHash
    requires !ClosedManuallyBefore(world, manualAt, plans[k])
    ensures FinalPlans(plans, world, manualAt)[k] == plans[k]
  {
    assert PlanOk(world.receipts, plans[k]);
    var tx := plans[k].txHash.value;
    var capped := CapPlans(plans, world.receipts);
    LoneIsInBudget(plans, world.receipts, tx, k);
    assert capped[k] == plans[k];
    hide CapPlans, ClosedManuallyBefore;
    var handled := ManualPlans(capped, world, manualAt);
    assert handled[k] == plans[k];
    forall j | 0 <= j < |plans| && j != k ensures handled[j].txHash != Some(tx) {
      PassesKeepTx(plans, world, manualAt, j);
    }
    hide ManualPlans;
    IndicesExactly(RedeemOfTx(tx), handled);
    OnlyMember(Indices(RedeemOfTx(tx), handled), k);
  }

  lemma OnlyMember(members: seq<nat>, k: nat)
    requires Distinct(members) && forall j :: j in members ==> j == k
    ensures |members| <= 1
  {
    DistinctInside(members, [k]);
  }

  lemma PassesKeepTx(plans: seq<Plan>, world: World, manualAt: map<string, int>, j: nat)
    requires j < |plans|
    ensures ManualPlans(CapPlans(plans, world.receipts), world, manualAt)[j].txHash == plans[j].txHash
  {
    hide CappedPlan, ClosedManuallyBefore;
    CappedKeepsTx(plans, world.receipts, plans[j]);
  }

  lemma LoneIsInBudget(plans: seq<Plan>, receipts: map<string, real>, tx: string, k: nat)
    requires k < |plans| && PlanOk(receipts, plans[k]) && plans[k].txHash == Some(tx)
    requires forall j :: 0 <= j < |plans| && j != k ==> plans[j].txHash != Some(tx)
    ensures !ExceedsBudget(plans, receipts, tx)
  {
    IndicesExactly(OfTx(tx), plans);
    var members := Indices(OfTx(tx), plans);
    hide Indices;
    assert k in members;
    OnlyMember(members, k);
    assert members == [k] && members[..0] == [];
    assert TotalAt(plans, members) == TotalAt(plans, []) + plans[k].total;
  }

  /** No redeem transaction is over-credited: after all passes the applied plans of one transaction add up
      to at most what the chain confirmed for it, at most one of them pays anything, and none exits above
      a dollar a share. */
  lemma NoTxIsOverCredited(plans: seq<Plan>, world: World, manualAt: map<string, int>, tx: string)
    requires AllOk(world.receipts, plans)
    ensures
      var final := FinalPlans(plans, world, manualAt);
      var members := Indices(OfTx(tx), final);
      && AllOk(world.receipts, final)
      && (members != [] ==>
            && Resolve(world.receipts, tx).Confirmed?
            && 0.0 <= TxTotal(final, tx) <= Resolve(world.receipts, tx).usd)
      && (forall k, l :: 0 <= k < l < |members| ==>
            final[members[k]].total == 0.0 || final[members[l]].total == 0.0)
  {
    CapKeepsOk(plans, world.receipts);
    var capped := CapPlans(plans, world.receipts);
    ManualKeepsOk(capped, world, manualAt);
    var manual := ManualPlans(capped, world, manualAt);
    DedupKeepsOk(manual, world.receipts);
    hide CapPlans, ManualPlans;
    var final := DedupedPlans(manual, world.receipts);
    var members := Indices(OfTx(tx), final);
    IndicesExactly(OfTx(tx), final);
    forall k | 0 <= k < |members| ensures PlanOk(world.receipts, final[members[k]]) && OfTx(tx)(final[members[k]])
                                      && manual[members[k]].txHash == Some(tx) {
      assert members[k] in members;
    }
    forall k, l | 0 <= k < l < |members|
      ensures final[members[k]].total == 0.0 || final[members[l]].total == 0.0
    {
      OnePayerPerTx(manual, world.receipts, members[k], members[l]);
    }
    if members != [] {
      assert PlanOk(world.receipts, final[members[0]]);
      var usd := Resolve(world.receipts, tx).usd;
      hide DedupedPlans, Indices;
      SumOfOnePayer(final, members, usd);
    }
  }
}
