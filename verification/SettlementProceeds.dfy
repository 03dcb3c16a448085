/** How much of a fill or a redeem a follower's closed shares are worth. */
module SettlementProceeds {
  import opened Money

  const PROCEEDS_EPS := 0.000000001
  const MAX_BINARY_SHARE_PAYOUT_USD := 1.0

  datatype CappedClose = CappedClose(closeSize: real, costBasisUsd: real)

  /** One close cut to what is left of the buy lot; the cost follows the entry price. */
  function CapCloseSizeToBuyBudget(requested: real, entryPrice: real, entrySize: real, already: real): CappedClose {
    var remaining := MaxR(0.0, entrySize - already);
    var closeSize := MinR(MaxR(0.0, requested), remaining);
    CappedClose(closeSize, closeSize * MaxR(0.0, entryPrice))
  }

  /** A chain payout of about one dollar a closed share. */
  predicate IsFullWin(chain: real, close: real, eps: real) {
    close > eps && chain + eps >= close * 0.9 && chain <= close * 1.05 + eps
  }

  function InferWalletShares(executionSize: real, closeSize: real, chainUsd: real): real {
    var exec, close, chain := MaxR(0.0, executionSize), MaxR(0.0, closeSize), MaxR(0.0, chainUsd);
    if IsFullWin(chain, close, PROCEEDS_EPS) then close
    else if chain > close + PROCEEDS_EPS then MaxR(MaxR(exec, close), chain)
    else MaxR(exec, close)
  }

  function RedeemShare(chainUsd: real, walletShares: real, closeSize: real): real
    requires closeSize > PROCEEDS_EPS
  {
    if walletShares > closeSize + PROCEEDS_EPS then chainUsd * (closeSize / walletShares) else chainUsd
  }

  function AllocateRedeem(chainUsd: real, walletShares: real, closeSize: real): real {
    if !(closeSize > PROCEEDS_EPS) || !(chainUsd > PROCEEDS_EPS) then 0.0
    else
      MinR(RedeemShare(chainUsd, walletShares, closeSize), closeSize * MAX_BINARY_SHARE_PAYOUT_USD)
  }

  function PlanRedeem(chainUsd: real, executionSize: real, closeSize: real): real {
    AllocateRedeem(chainUsd, InferWalletShares(executionSize, closeSize, chainUsd), closeSize)
  }

  /** A planned redeem pays between nothing and the smaller of the chain payout and a dollar a share. */
  lemma PlanRedeemBounds(chainUsd: real, executionSize: real, closeSize: real)
    ensures 0.0 <= PlanRedeem(chainUsd, executionSize, closeSize)
    ensures PlanRedeem(chainUsd, executionSize, closeSize) <= MaxR(0.0, chainUsd)
    ensures PlanRedeem(chainUsd, executionSize, closeSize) <= MaxR(0.0, closeSize)
  {
    hide InferWalletShares, RedeemShare;
    var wallet := InferWalletShares(executionSize, closeSize, chainUsd);
    if closeSize > PROCEEDS_EPS && chainUsd > PROCEEDS_EPS {
      RedeemShareBounds(chainUsd, wallet, closeSize);
    }
  }

  lemma RedeemShareBounds(chainUsd: real, walletShares: real, closeSize: real)
    requires closeSize > PROCEEDS_EPS && chainUsd > PROCEEDS_EPS
    ensures 0.0 <= RedeemShare(chainUsd, walletShares, closeSize) <= chainUsd
  {
    if walletShares > closeSize + PROCEEDS_EPS {
      ShareOf(chainUsd, closeSize, walletShares);
    }
  }

  lemma ShareOf(amount: real, part: real, whole: real)
    requires amount >= 0.0 && 0.0 <= part <= whole && whole > 0.0
    ensures 0.0 <= amount * (part / whole) <= amount
  {
    QuotientBetween(part, whole, 0.0, 1.0);
    TimesFraction(amount, part / whole);
  }

  lemma TimesFraction(amount: real, fraction: real)
    requires amount >= 0.0 && 0.0 <= fraction <= 1.0
    ensures 0.0 <= amount * fraction <= amount
  {
  }

  /** A full win is never scaled down by an inflated wallet size. */
  lemma FullWinIsPaidInFull(chainUsd: real, executionSize: real, closeSize: real)
    requires chainUsd > PROCEEDS_EPS && IsFullWin(chainUsd, closeSize, PROCEEDS_EPS)
    ensures PlanRedeem(chainUsd, executionSize, closeSize) == MinR(chainUsd, closeSize)
  {
  }

  function ScaleFill(fillUsd: real, fillShares: real, closedShares: real): real {
    if !(fillUsd > PROCEEDS_EPS) || !(closedShares > PROCEEDS_EPS) then 0.0
    else if !(fillShares > PROCEEDS_EPS) then MinR(fillUsd, closedShares)
    else fillUsd * MinR(1.0, closedShares / fillShares)
  }

  function AllocateMarketSell(fillUsd: real, closed: real, costBasis: real, entryAvgPrice: real): real {
    if !(closed > PROCEEDS_EPS) then 0.0
    else
      var proceeds := MaxR(0.0, fillUsd);
      var impliedExit := proceeds / closed;
      if entryAvgPrice > PROCEEDS_EPS && entryAvgPrice < 0.1 && impliedExit > 0.9 then
        MinR(proceeds, MaxR(0.0, costBasis))
      else MinR(proceeds, closed * MAX_BINARY_SHARE_PAYOUT_USD)
  }

  /** A repaired market sell never pays more than a dollar a share: also a dust lot, whose cap is its
      cost, stays below ten cents a share. */
  lemma MarketSellBounds(fillUsd: real, closed: real, costBasis: real)
    requires closed > EPS
    ensures 0.0 <= AllocateMarketSell(fillUsd, closed, costBasis, costBasis / closed) <= closed
  {
    var entry := costBasis / closed;
    assert costBasis == entry * closed;
    if entry > PROCEEDS_EPS && entry < 0.1 {
      Scaled(entry, 0.1, closed);
    }
  }

  lemma Scaled(a: real, b: real, c: real)
    requires a < b && c > 0.0
    ensures a * c < b * c
  {
  }

  lemma QuotientBetween(a: real, b: real, low: real, high: real)
    requires b > 0.0 && low * b <= a <= high * b
    ensures low <= a / b <= high
  {
    var q := a / b;
    assert q * b == a;
    if q < low {
      Scaled(q, low, b);
    } else if high < q {
      Scaled(high, q, b);
    }
  }

  /** Redeem amounts scaled to the budget of their transaction. */
  function ScaleToBudget(planned: real, sum: real, chainUsd: real): real {
    if !(sum > chainUsd + 0.000001) || !(sum > PROCEEDS_EPS) then planned else planned * (chainUsd / sum)
  }
}
