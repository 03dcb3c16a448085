/** Case by case, what the settlement plans and passes pay: thresholds, tolerances and reasons written out. */
module SettlementCases {
  import opened Options
  import opened Seqs
  import opened Texts
  import opened Money
  import opened Lots
  import opened SettlementProceeds
  import opened RedeemPlans

  lemma QuotientAbove(a: real, b: real, q: real)
    requires b > 0.0
    ensures a / b > q <==> a > q * b
    ensures a / b >= q <==> a >= q * b
  {
    var r := a / b;
    assert r * b == a;
    if r > q {
      Scaled(q, r, b);
    } else if r < q {
      Scaled(r, q, b);
    }
  }

  // ------------------------------------------------------------ redeem groups

  /** The group's part of a payout: all of it, up to a dollar a share, when the payout is a win for these shares or
      the wallet held no more than them; otherwise in proportion to the wallet. */
  function PayoutShare(usd: real, walletShares: real, closed: real): real {
    if usd <= 0.000000001 || closed <= 0.000000001 then 0.0
    else if walletShares <= closed + 0.000000001
         || (usd + 0.000000001 >= 0.9 * closed && usd <= 1.05 * closed + 0.000000001) then
      if usd < closed then usd else closed
    else if usd * (closed / walletShares) < closed then usd * (closed / walletShares)
    else closed
  }

  lemma PlanRedeemExactly(usd: real, walletShares: real, closed: real)
    ensures PlanRedeem(usd, walletShares, closed) == PayoutShare(usd, walletShares, closed)
  {
    if usd > PROCEEDS_EPS && closed > PROCEEDS_EPS && walletShares > closed + PROCEEDS_EPS
       && !IsFullWin(usd, closed, PROCEEDS_EPS)
    {
      if usd > closed + PROCEEDS_EPS {
        PayoutAboveShares(usd, walletShares, closed);
      }
    } else if usd > closed + PROCEEDS_EPS && closed > PROCEEDS_EPS {
      assert usd * (closed / usd) == closed;
    }
  }

  /** The wallet size a redeem is divided by: the closed shares themselves when the payout is a win for them, otherwise
      the least number that is not below the recorded size, the closed shares, nothing, and a payout above them. */
  lemma WalletSharesExactly(recorded: real, closed: real, usd: real, x: real)
    ensures
      var w, shares, paid := InferWalletShares(recorded, closed, usd), MaxR(0.0, closed), MaxR(0.0, usd);
      if shares > 0.000000001 && paid + 0.000000001 >= 0.9 * shares && paid <= 1.05 * shares + 0.000000001 then w == shares
      else w <= x <==> 0.0 <= x && recorded <= x && shares <= x && (paid > shares + 0.000000001 ==> paid <= x)
  {
  }

  /** A fill of more shares than were closed counts in proportion; a fill of no shares counts up to a dollar a share. */
  lemma ScaledFillExactly(usd: real, filled: real, closed: real)
    ensures
      var value := ScaleFill(usd, filled, closed);
      if usd <= 0.000000001 || closed <= 0.000000001 then value == 0.0
      else if filled <= 0.000000001 then value == if usd < closed then usd else closed
      else if filled <= closed then value == usd
      else Product(value, filled) == Product(usd, closed)
  {
    if usd > PROCEEDS_EPS && closed > PROCEEDS_EPS && filled > PROCEEDS_EPS {
      var q := closed / filled;
      assert q * filled == closed;
      QuotientAbove(closed, filled, 1.0);
      if filled > closed {
        assert usd * q * filled == usd * (q * filled);
      }
    }
  }

  /** Redeem amounts within the payout, up to a millionth of a dollar, stay as planned; others keep their proportion and
      add up to the payout. */
  lemma BudgetScaleExactly(planned: real, sum: real, usd: real)
    ensures
      var scaled := ScaleToBudget(planned, sum, usd);
      if sum <= usd + 0.000001 || sum <= 0.000000001 then scaled == planned
      else Product(scaled, sum) == Product(planned, usd)
  {
    if sum > usd + 0.000001 && sum > 0.000000001 {
      var q := usd / sum;
      assert q * sum == usd;
      assert planned * q * sum == planned * (q * sum);
    }
  }

  lemma PayoutAboveShares(usd: real, walletShares: real, closed: real)
    requires usd > closed > 0.0 && walletShares > closed
    ensures usd * (closed / usd) == closed
    ensures usd >= walletShares ==> usd * (closed / walletShares) >= closed
  {
    if usd >= walletShares {
      var q := closed / walletShares;
      assert walletShares * q == closed && q > 0.0;
      LessTimes(walletShares, usd, q);
      assert usd * q >= walletShares * q;
    }
  }

  /** What a confirmed redeem pays a group: its part of the payout, unless that would raise a result booked below 20
      cents by more than 50 cents short of a win. Held back, it pays the old proceeds if there were any, and the
      whole payout otherwise, in both cases at most the payout and a dollar a share. */
  lemma RedeemTotalExactly(closes: seq<Lot>, usd: real, walletShares: real)
    requires Closed(closes) > 0.00000001 && usd >= 0.0
    ensures
      var closed, oldProceeds := Sum(SizeOf, closes), Sum(ProceedsOf, closes);
      var cost, oldPnl := Sum(CostOf, closes), Sum(PnlOf, closes);
      var share := PayoutShare(usd, walletShares, closed);
      var whole := if usd < closed then usd else closed;
      var win := 0.9 * closed <= usd && usd <= 1.05000001 * closed;
      RedeemTotal(closes, usd, walletShares) ==
      if win || oldPnl >= 0.2 || share - cost - oldPnl <= 0.5 then share
      else if 0.00000001 < oldProceeds < whole then oldProceeds
      else whole
  {
    var closed := Sum(SizeOf, closes);
    hide RedeemTotal, PlanRedeem, PayoutShare, Sum;
    PlanRedeemExactly(usd, walletShares, closed);
    PlanRedeemBounds(usd, walletShares, closed);
    WinExactly(usd, closed);
    HeldBackExactly(closes, usd, walletShares);
  }

  lemma WinExactly(usd: real, closed: real)
    requires closed > 0.0
    ensures 0.9 <= usd / closed <= 1.05 + EPS <==> 0.9 * closed <= usd && usd <= 1.05000001 * closed
  {
    QuotientAbove(usd, closed, 0.9);
    QuotientAbove(usd, closed, 1.05000001);
  }

  /** When the planned part is held back, and what is paid instead. */
  lemma HeldBackExactly(closes: seq<Lot>, usd: real, walletShares: real)
    requires Closed(closes) > EPS
    ensures
      var closed, planned := Sum(SizeOf, closes), PlanRedeem(usd, walletShares, Closed(closes));
      RedeemTotal(closes, usd, walletShares) ==
      MinR(if (0.9 <= usd / closed <= 1.05 + EPS) || Sum(PnlOf, closes) >= 0.2
              || planned - Sum(CostOf, closes) - Sum(PnlOf, closes) <= 0.5 then planned
           else if Sum(ProceedsOf, closes) > EPS then Sum(ProceedsOf, closes)
           else usd,
           MinR(usd, closed))
  {
    hide PlanRedeem, Sum;
    assert Closed(closes) * MAX_BINARY_SHARE_PAYOUT_USD == Closed(closes);
  }

  predicate IsHash(h: string) {
    && |h| == 66 && h[0] == '0' && h[1] == 'x'
    && forall i :: 2 <= i < 66 ==> '0' <= h[i] <= '9' || 'a' <= h[i] <= 'f'
  }

  /** How a legacy group is planned, reason by reason. */
  lemma LegacyPlanExactly(world: World, id: string, closes: seq<Lot>)
    requires Closed(closes) > 0.00000001
    ensures
      var key := "legacy:" + id;
      PlanGroup(world, key, closes) ==
      if id !in world.executions then Plan(key, closes, 0.0, LegacyMissing, None, Some("execution_not_found"))
      else
        var execution := world.executions[id];
        var hash := Lower(Trim(execution.polymarketOrderId.GetOr("")));
        if execution.leaderAddress == "manual_expired" then Plan(key, closes, 0.0, ExpiredWorthless, None, None)
        else if execution.leaderAddress != "auto_redeem" && execution.leaderAddress != "manual_redeem" then
          Plan(key, closes, 0.0, LegacyOther, None, Some("leader_" + execution.leaderAddress))
        else if !IsHash(hash) then Plan(key, closes, 0.0, Redeem, None, Some("missing_tx_hash"))
        else if hash !in world.receipts then Plan(key, closes, 0.0, Redeem, None, Some("chain_unavailable"))
        else
          var usd := if world.receipts[hash] < 0.0 then 0.0 else world.receipts[hash];
          Plan(key, closes, RedeemTotal(closes, usd, execution.size), Redeem, Some(hash), None)
  {
    hide RedeemTotal, Lower, Trim, Sum;
    var key := "legacy:" + id;
    assert key[7..] == id && "legacy:" <= key;
    if id in world.executions {
      HashExactly(Lower(Trim(world.executions[id].polymarketOrderId.GetOr(""))));
    }
    hide IsTxHash, IsHash;
  }

  lemma HashExactly(h: string)
    ensures IsTxHash(h) <==> IsHash(h)
  {
  }

  // ------------------------------------------------------------ market sells

  /** The value of a sell: its fill, or at the fill price when it filled over 5% more than was closed; without a
      usable fill the old proceeds, up to a dollar a share. */
  function SellValue(row: TradeRow, closed: real, oldProceeds: real): real {
    var size, price := row.filledAmount.GetOr(row.intendedSize), row.avgPrice.GetOr(row.intendedPrice);
    if size > 0.00000001 && price > 0.00000001 && size * price > 0.00000001 then
      if size > 1.05 * closed then closed * price else size * price
    else if oldProceeds < closed then oldProceeds
    else closed
  }

  /** Shares bought under ten cents and sold above ninety. */
  predicate LooksLikeDust(closed: real, cost: real, value: real, eps: real) {
    cost > eps * closed && cost < 0.1 * closed && value > 0.9 * closed
  }

  /** How a group of a copied sell is planned, reason by reason. A sell at a price between nothing and a dollar that
      is not dust is left alone; any other pays its value up to a dollar a share, dust at most its cost. */
  lemma CopyPlanExactly(world: World, key: string, closes: seq<Lot>)
    requires Closed(closes) > 0.00000001 && !("legacy:" <= key)
    ensures
      var closed, oldUsd, cost := Sum(SizeOf, closes), Sum(ProceedsOf, closes), Sum(CostOf, closes);
      PlanGroup(world, key, closes) ==
      if key !in world.tradeRows then Plan(key, closes, 0.0, CopyMissing, None, Some("copy_trade_row_not_found"))
      else if !world.tradeRows[key].isSell then Plan(key, closes, 0.0, CopyNotSell, None, Some("not_a_sell_row"))
      else if 0.00000001 * closed < oldUsd <= 1.01000001 * closed && !LooksLikeDust(closed, cost, oldUsd, 0.00000001) then
        Plan(key, closes, oldUsd, MarketSell, None, Some("market_sell_ok"))
      else
        var value := SellValue(world.tradeRows[key], closed, oldUsd);
        Plan(key, closes, SellTotal(value, closed, cost), MarketSell, None, None)
  {
    var closed, oldUsd, cost := Sum(SizeOf, closes), Sum(ProceedsOf, closes), Sum(CostOf, closes);
    if key in world.tradeRows && world.tradeRows[key].isSell {
      HealthyExactly(closed, oldUsd, cost);
      SellValueExactly(world.tradeRows[key], closed, oldUsd);
      SellTotalExactly(FillNotional(world.tradeRows[key], closed, oldUsd), closed, cost, cost / closed);
    }
    hide IsHealthySell, LooksLikeDust, FillNotional, SellValue, AllocateMarketSell, SellTotal, Sum;
  }

  function SellTotal(value: real, closed: real, cost: real): real {
    if value <= 0.0 then 0.0
    else if LooksLikeDust(closed, cost, value, 0.000000001) then if value < cost then value else cost
    else if value < closed then value
    else closed
  }

  lemma HealthyExactly(closed: real, oldUsd: real, cost: real)
    requires closed > 0.00000001
    ensures IsHealthySell(oldUsd / closed, cost / closed) <==>
              0.00000001 * closed < oldUsd <= 1.01000001 * closed && !LooksLikeDust(closed, cost, oldUsd, 0.00000001)
  {
    QuotientAbove(oldUsd, closed, 0.00000001);
    QuotientAbove(oldUsd, closed, 1.01000001);
    QuotientAbove(oldUsd, closed, 0.9);
    QuotientAbove(cost, closed, 0.00000001);
    QuotientAbove(cost, closed, 0.1);
  }

  lemma SellValueExactly(row: TradeRow, closed: real, oldUsd: real)
    requires closed > 0.00000001
    ensures FillNotional(row, closed, oldUsd) == SellValue(row, closed, oldUsd)
  {
    if HasFill(row) {
      FillIs(row, closed, oldUsd);
    } else {
      NoFill(row, closed, oldUsd);
    }
    hide FillNotional;
  }

  /** What a market sell of some value pays, whatever was closed. */
  lemma SellTotalExactly(value: real, closed: real, cost: real, entryPrice: real)
    requires closed > 0.000000001 ==> entryPrice == cost / closed
    ensures AllocateMarketSell(value, closed, cost, entryPrice) ==
            if closed <= 0.000000001 then 0.0 else SellTotal(value, closed, cost)
  {
    if closed > 0.000000001 {
      var paid := MaxR(0.0, value);
      QuotientAbove(paid, closed, 0.9);
      QuotientAbove(cost, closed, 0.000000001);
      QuotientAbove(cost, closed, 0.1);
    }
  }

  lemma EmptyPlanExactly(world: World, key: string, closes: seq<Lot>)
    requires Closed(closes) <= 0.00000001
    ensures PlanGroup(world, key, closes) == Plan(key, closes, 0.0, Empty, None, Some("zero_closed_size"))
  {
  }

  // ------------------------------------------------------------ the budget pass

  /** The applied plans of a transaction are over budget when they exceed what the chain confirmed by more than two
      cents, and then each is scaled by the same factor. */
  lemma BudgetPassExactly(plans: seq<Plan>, receipts: map<string, real>, i: nat)
    requires i < |plans|
    ensures
      var p, c := plans[i], CapPlans(plans, receipts)[i];
      c == if p.txHash.Some? && p.skipped.None? && p.txHash.value in receipts &&
              receipts[p.txHash.value] > 0.00000001 &&
              TxTotal(plans, p.txHash.value) > receipts[p.txHash.value] + 0.02
           then p.(total := p.total * (receipts[p.txHash.value] / TxTotal(plans, p.txHash.value)))
           else p
  {
    hide TxTotal;
  }

  // ------------------------------------------------------------ the manual-close pass

  /** Which plan the manual-close pass expires: an applied redeem of a legacy group with more than a cent of old
      proceeds, booked by a redeem after the latest manual close of its token. */
  lemma ManualPassExactly(plans: seq<Plan>, world: World, manualAt: map<string, int>, i: nat)
    requires i < |plans|
    ensures
      var p, m := plans[i], ManualPlans(plans, world, manualAt)[i];
      m == if p.skipped.None? && p.kind == Redeem && Sum(ProceedsOf, p.closes) > 0.01 &&
              "legacy:" <= p.sellKey && p.sellKey[7..] in world.executions &&
              var execution := world.executions[p.sellKey[7..]];
              var token := Lower(Trim(execution.tokenID));
              && (execution.leaderAddress == "auto_redeem" || execution.leaderAddress == "manual_redeem")
              && token in manualAt && manualAt[token] < execution.createdAt
           then p.(total := 0.0, kind := ExpiredWorthless)
           else p
  {
    hide Lower, Trim, Sum;
  }

  // ------------------------------------------------------------ the duplicate pass

  /** An applied redeem of this transaction. */
  predicate RedeemIn(p: Plan, tx: string) {
    p.kind == Redeem && p.skipped.None? && p.txHash == Some(tx)
  }

  /** The payout is about a dollar for each share this group closed. */
  predicate FitsPayout(p: Plan, usd: real) {
    var closed := Sum(SizeOf, p.closes);
    closed > 0.00000001 && usd + 0.00000001 >= 0.9 * closed && usd <= 1.05 * closed + 0.00000001
  }

  lemma FitsExactly(p: Plan, usd: real)
    requires usd > 0.00000001
    ensures IsFullWinGroup(p, usd) <==> FitsPayout(p, usd)
  {
    hide Sum;
  }

  /** Who is paid when several applied redeem groups share a transaction: if the payout fits exactly one of them, that
      one gets it, up to a dollar a share, and stays a redeem; all others end worthless, and so do all when it fits
      none or several or was not confirmed. A group that is alone is left as it is. */
  lemma DuplicatePayoutExactly(plans: seq<Plan>, receipts: map<string, real>, tx: string, i: nat)
    requires i < |plans| && RedeemIn(plans[i], tx)
    ensures
      var p, after := plans[i], DedupedPlans(plans, receipts)[i];
      after ==
      if forall j :: 0 <= j < |plans| && j != i ==> !RedeemIn(plans[j], tx) then p
      else if tx in receipts && receipts[tx] > 0.00000001 && FitsPayout(p, receipts[tx]) &&
              forall j :: 0 <= j < |plans| && j != i && RedeemIn(plans[j], tx) ==> !FitsPayout(plans[j], receipts[tx])
      then p.(total := if receipts[tx] < Sum(SizeOf, p.closes) then receipts[tx] else Sum(SizeOf, p.closes))
      else p.(total := 0.0, kind := ExpiredWorthless)
  {
    hide Indices, Sum, FitsPayout, IsFullWinGroup;
    SharersExactly(plans, tx, i);
    WinnersExactly(plans, receipts, tx, i);
    if tx in receipts && receipts[tx] > 0.00000001 {
      FitsExactly(plans[i], receipts[tx]);
    }
  }

  lemma SharersExactly(plans: seq<Plan>, tx: string, i: nat)
    requires i < |plans| && RedeemIn(plans[i], tx)
    ensures |Indices(RedeemOfTx(tx), plans)| < 2 <==> forall j :: 0 <= j < |plans| && j != i ==> !RedeemIn(plans[j], tx)
  {
    var members := Indices(RedeemOfTx(tx), plans);
    IndicesExactly(RedeemOfTx(tx), plans);
    hide Indices;
    assert i in members;
    if j :| 0 <= j < |plans| && j != i && RedeemIn(plans[j], tx) {
      assert j in members;
      TwoMembers(members, i, j);
    } else {
      OnlyMember(members, i);
    }
  }

  lemma WinnersExactly(plans: seq<Plan>, receipts: map<string, real>, tx: string, i: nat)
    requires i < |plans| && RedeemIn(plans[i], tx)
    ensures Indices(FullWinRedeem(receipts, tx), plans) == [i] <==>
              && tx in receipts && receipts[tx] > 0.00000001 && FitsPayout(plans[i], receipts[tx])
              && forall j :: 0 <= j < |plans| && j != i && RedeemIn(plans[j], tx) ==> !FitsPayout(plans[j], receipts[tx])
  {
    var winners := Indices(FullWinRedeem(receipts, tx), plans);
    IndicesExactly(FullWinRedeem(receipts, tx), plans);
    forall j | 0 <= j < |plans|
      ensures FullWinRedeem(receipts, tx)(plans[j]) <==>
                RedeemIn(plans[j], tx) && tx in receipts && receipts[tx] > 0.00000001 && FitsPayout(plans[j], receipts[tx])
    {
      if tx in receipts && receipts[tx] > 0.00000001 {
        FitsExactly(plans[j], receipts[tx]);
      }
    }
    hide Indices, FullWinRedeem, FitsPayout, RedeemIn;
    SingletonExactly(winners, i);
    if winners == [i] {
      assert i in winners;
    }
  }

  lemma SingletonExactly(members: seq<nat>, i: nat)
    requires Distinct(members)
    ensures members == [i] <==> i in members && forall j :: j in members ==> j == i
  {
    if i in members && forall j :: j in members ==> j == i {
      OnlyMember(members, i);
    }
  }

  /** The duplicate pass touches nothing but applied redeems with a transaction. */
  lemma OthersPassUntouched(plans: seq<Plan>, receipts: map<string, real>, i: nat)
    requires i < |plans| && forall tx :: !RedeemIn(plans[i], tx)
    ensures DedupedPlans(plans, receipts)[i] == plans[i]
  {
    if plans[i].txHash.Some? {
      assert !RedeemIn(plans[i], plans[i].txHash.value);
    }
  }

  // ------------------------------------------------------------ the passes together

  /** The order of the passes: when all but one of the redeem groups of a transaction were closed by hand, the one
      that is left keeps the part that the budget pass gave it, although that pass counted the others too. */
  lemma SurvivorKeepsItsPart(plans: seq<Plan>, world: World, manualAt: map<string, int>, tx: string, i: nat)
    requires i < |plans| && RedeemIn(plans[i], tx) && tx in world.receipts && world.receipts[tx] > 0.00000001
    requires !ClosedManuallyBefore(world, manualAt, plans[i])
    requires forall j :: 0 <= j < |plans| && j != i && RedeemIn(plans[j], tx) ==>
               ClosedManuallyBefore(world, manualAt, plans[j])
    ensures FinalPlans(plans, world, manualAt)[i] ==
            if TxTotal(plans, tx) > world.receipts[tx] + 0.02
            then plans[i].(total := plans[i].total * (world.receipts[tx] / TxTotal(plans, tx)))
            else plans[i]
  {
    var capped := CapPlans(plans, world.receipts);
    var handled := ManualPlans(capped, world, manualAt);
    forall j | 0 <= j < |plans|
      ensures handled[j] == AfterManual(world, manualAt, capped[j]) && capped[j] == plans[j].(total := capped[j].total)
      ensures handled[j] ==
              if ClosedManuallyBefore(world, manualAt, plans[j]) then handled[j].(kind := ExpiredWorthless) else capped[j]
    {
      CappedAt(plans, world.receipts, j);
      ManualIgnoresTotal(world, manualAt, plans[j], capped[j].total);
      hide ClosedManuallyBefore, CapPlans;
    }
    BudgetPassExactly(plans, world.receipts, i);
    hide ClosedManuallyBefore, TxTotal, CapPlans, ManualPlans, DedupedPlans, AfterManual;
    DuplicatePayoutExactly(handled, world.receipts, tx, i);
  }
}
