/** Spreading a group's proceeds over its rows, and anchoring all rows to the cash that is there. */
module LotRepair {
  import opened Seqs
  import opened Money
  import opened Lots

  // ------------------------------------------------------------ pro-rata spreading

  function Share(lot: Lot, totalClosed: real): real {
    if totalClosed > EPS then lot.closedSize / totalClosed else 0.0
  }

  /** A row with new proceeds: exit price and realized result follow from them. */
  function WithProceeds(lot: Lot, proceeds: real): Lot {
    lot.(exitPrice := Dec(if lot.closedSize > EPS then proceeds / lot.closedSize else 0.0),
         proceedsUsd := Dec(proceeds),
         realizedPnlUsd := Dec(proceeds - lot.costBasisUsd))
  }

  /** A row's part of the group total. */
  function Portion(lot: Lot, total: real, totalClosed: real): real {
    total * Share(lot, totalClosed)
  }

  function RepairedLot(lot: Lot, total: real, totalClosed: real): Lot {
    WithProceeds(lot, Portion(lot, total, totalClosed))
  }

  function RepairBy(total: real, totalClosed: real): Lot -> Lot {
    (lot: Lot) => RepairedLot(lot, total, totalClosed)
  }

  function PortionBy(total: real, totalClosed: real): Lot -> real {
    (lot: Lot) => Portion(lot, total, totalClosed)
  }

  lemma {:induction false} PortionsAreProportional(lots: seq<Lot>, total: real, totalClosed: real)
    requires totalClosed > EPS
    ensures Sum(PortionBy(total, totalClosed), lots) == total * (Sum(SizeOf, lots) / totalClosed)
  {
    if lots == [] {
      assert total * (0.0 / totalClosed) == 0.0;
    } else {
      PortionsAreProportional(lots[1..], total, totalClosed);
      Distribute(total, lots[0].closedSize, Sum(SizeOf, lots[1..]), totalClosed);
    }
  }

  lemma Distribute(t: real, a: real, b: real, c: real)
    requires c > 0.0
    ensures t * (a / c) + t * (b / c) == t * ((a + b) / c)
  {
    assert (a + b) / c == a / c + b / c;
  }

  /** Every row's part stands to the total as its shares to the shares of the group; a row of a group that closed
      nothing gets nothing. */
  lemma PortionsFollowShares(lot: Lot, total: real, totalClosed: real)
    ensures totalClosed > 0.00000001 ==>
              Product(Portion(lot, total, totalClosed), totalClosed) == Product(total, lot.closedSize)
    ensures totalClosed <= 0.00000001 ==> Portion(lot, total, totalClosed) == 0.0
  {
    if totalClosed > 0.00000001 {
      assert lot.closedSize / totalClosed * totalClosed == lot.closedSize;
    } else {
      assert total * 0.0 == 0.0;
    }
  }

  /** A group's rows share its total exactly before rounding, and nothing is shared if it closed nothing. */
  lemma SpreadConserves(lots: seq<Lot>, total: real)
    ensures
      var closed := Sum(SizeOf, lots);
      Sum(PortionBy(total, closed), lots) == if closed > EPS then total else 0.0
  {
    var closed := Sum(SizeOf, lots);
    if closed > EPS {
      PortionsAreProportional(lots, total, closed);
      Whole(total, closed);
    } else {
      NothingSpread(lots, total, closed);
    }
  }

  lemma Whole(total: real, closed: real)
    requires closed > 0.0
    ensures total * (closed / closed) == total
  {
    assert closed / closed == 1.0;
  }

  lemma {:induction false} NothingSpread(lots: seq<Lot>, total: real, totalClosed: real)
    requires totalClosed <= EPS
    ensures Sum(PortionBy(total, totalClosed), lots) == 0.0
  {
    if lots != [] {
      NothingSpread(lots[1..], total, totalClosed);
      assert total * 0.0 == 0.0;
    }
  }

  /** Half a unit of the 8th decimal for every row. */
  function Slack(n: nat): real {
    n as real * HALF
  }

  /** Storing a row for `proceeds`. */
  lemma StoredRow(lot: Lot, proceeds: real)
    ensures Abs(WithProceeds(lot, proceeds).proceedsUsd - proceeds) <= HALF
    ensures Abs(WithProceeds(lot, proceeds).realizedPnlUsd - (proceeds - lot.costBasisUsd)) <= HALF
    ensures WithProceeds(lot, proceeds).costBasisUsd == lot.costBasisUsd
    ensures BooksBalance(WithProceeds(lot, proceeds))
  {
    DecIsClose(proceeds);
    DecIsClose(proceeds - lot.costBasisUsd);
  }

  /** Rows stored for some amounts miss the sum of the amounts, and of the results, by at most half a unit
      a row. */
  lemma {:induction false} StoredIsClose(lots: seq<Lot>, amount: Lot -> real, store: Lot -> Lot)
    requires forall lot :: lot in lots ==> store(lot) == WithProceeds(lot, amount(lot))
    ensures Abs(Sum(ProceedsOf, Map(store, lots)) - Sum(amount, lots)) <= Slack(|lots|)
    ensures Abs(Sum(PnlOf, Map(store, lots)) - (Sum(amount, lots) - Sum(CostOf, lots))) <= Slack(|lots|)
    ensures Sum(CostOf, Map(store, lots)) == Sum(CostOf, lots)
  {
    if lots == [] {
      NothingStored(amount, store);
    } else {
      StoredIsClose(lots[1..], amount, store);
      StoredRow(lots[0], amount(lots[0]));
      assert Slack(|lots|) == Slack(|lots| - 1) + HALF;
      hide WithProceeds, Slack, Sum, Map;
      SumCons(amount, lots);
      SumCons(CostOf, lots);
      var after := Map(store, lots);
      assert after[1..] == Map(store, lots[1..]);
      SumCons(ProceedsOf, after);
      SumCons(PnlOf, after);
      SumCons(CostOf, after);
    }
  }

  lemma NothingStored(amount: Lot -> real, store: Lot -> Lot)
    ensures Map(store, []) == [] && Slack(0) == 0.0
    ensures Sum(amount, []) == 0.0 && Sum(ProceedsOf, []) == 0.0 && Sum(PnlOf, []) == 0.0 && Sum(CostOf, []) == 0.0
  {
  }

  lemma SumCons(f: Lot -> real, lots: seq<Lot>)
    requires lots != []
    ensures Sum(f, lots) == f(lots[0]) + Sum(f, lots[1..])
  {
  }

  /** What is stored for a group misses its planned total, and its planned result, by at most half a unit
      of the 8th decimal a row. */
  lemma StoredGroupConserves(lots: seq<Lot>, total: real)
    requires Sum(SizeOf, lots) > EPS
    ensures
      var after := Map(RepairBy(total, Sum(SizeOf, lots)), lots);
      && Abs(Sum(ProceedsOf, after) - total) <= Slack(|lots|)
      && Abs(Sum(PnlOf, after) - (total - Sum(CostOf, lots))) <= Slack(|lots|)
  {
    hide RepairBy, PortionBy, Slack, Sum, Map;
    SpreadConserves(lots, total);
    StoredPortions(lots, total, Sum(SizeOf, lots));
  }

  lemma StoredPortions(lots: seq<Lot>, total: real, closed: real)
    ensures
      var after, spread := Map(RepairBy(total, closed), lots), Sum(PortionBy(total, closed), lots);
      && Abs(Sum(ProceedsOf, after) - spread) <= Slack(|lots|)
      && Abs(Sum(PnlOf, after) - (spread - Sum(CostOf, lots))) <= Slack(|lots|)
  {
    hide WithProceeds, Portion, Slack, Sum, Map;
    StoredIsClose(lots, PortionBy(total, closed), RepairBy(total, closed));
  }

  /** A row's new exit price is its proceeds per share, and zero for a row that closed nothing; price, proceeds and
      result are rounded to 8 decimals, and nothing else changes. */
  lemma ExitPriceExactly(lot: Lot, proceeds: real)
    ensures
      var w := WithProceeds(lot, proceeds);
      && w == lot.(exitPrice := w.exitPrice, proceedsUsd := Dec(proceeds),
                   realizedPnlUsd := Dec(proceeds - lot.costBasisUsd))
      && (lot.closedSize <= 0.00000001 ==> w.exitPrice == Dec(0.0))
      && (lot.closedSize > 0.00000001 ==> w.exitPrice == Dec(proceeds / lot.closedSize))
  {
    hide Dec;
  }

  /** A group that is paid at most a dollar a share leaves no row with an exit price above a dollar. */
  lemma ExitAtMostADollar(lot: Lot, total: real, totalClosed: real)
    requires 0.0 <= total <= totalClosed && totalClosed > EPS
    ensures 0.0 <= RepairedLot(lot, total, totalClosed).exitPrice <= 1.0
  {
    DecOfFraction(0.0);
    if lot.closedSize > EPS {
      PriceOfShare(total, lot.closedSize, totalClosed);
      DecOfFraction(Portion(lot, total, totalClosed) / lot.closedSize);
    }
    hide Dec;
  }

  lemma PriceOfShare(total: real, size: real, totalClosed: real)
    requires 0.0 <= total <= totalClosed && totalClosed > 0.0 && size > 0.0
    ensures 0.0 <= total * (size / totalClosed) / size <= 1.0
  {
    var price := total / totalClosed;
    assert price * totalClosed == total;
    assert 0.0 <= price <= 1.0;
    SwapDivision(total, size, totalClosed);
    assert price * size / size == price;
  }

  lemma SwapDivision(a: real, b: real, c: real)
    requires c > 0.0
    ensures a * (b / c) == a / c * b
  {
    assert a * b / c == a * (b / c);
    assert a * b / c == a / c * b;
  }

  ghost predicate ValidMembers(n: nat, members: seq<nat>) {
    InRange(members, n) && Distinct(members)
  }

  datatype GroupResult = GroupResult(
    totalClosed: real, oldProceeds: real, newProceeds: real, oldPnl: real, newPnl: real)

  /** One total of a group. */
  method SumGroup(f: Lot -> real, rows: array<Lot>, members: seq<nat>) returns (sum: real)
    requires InRange(members, rows.Length)
    ensures sum == Sum(f, Pick(rows[..], members))
  {
    sum := 0.0;
    ghost var lots := Pick(rows[..], members);
    for k := 0 to |members|
      invariant sum == Sum(f, lots[..k])
    {
      assert lots[..k + 1] == lots[..k] + [lots[k]];
      SumSnoc(f, lots[..k], lots[k]);
      sum := sum + f(rows[members[k]]);
    }
    assert lots[..|members|] == lots;
  }

  /** Spreads the planned total over the rows of a group, in place. */
  method ApplyGroupRepairs(rows: array<Lot>, members: seq<nat>, total: real) returns (result: GroupResult)
    requires ValidMembers(rows.Length, members)
    modifies rows
    ensures
      var lots := Pick(old(rows[..]), members);
      var closed := Sum(SizeOf, lots);
      && (forall i :: 0 <= i < rows.Length ==>
            rows[i] == if i in members then RepairedLot(old(rows[i]), total, closed) else old(rows[i]))
      && result.totalClosed == closed
      && result.oldProceeds == Sum(ProceedsOf, lots) && result.oldPnl == Sum(PnlOf, lots)
      && result.newProceeds == (if closed > EPS then total else 0.0)
      && result.newPnl == result.newProceeds - Sum(CostOf, lots)
  {
    ghost var lots := Pick(rows[..], members);
    var closed := SumGroup(SizeOf, rows, members);
    var oldProceeds := SumGroup(ProceedsOf, rows, members);
    var oldPnl := SumGroup(PnlOf, rows, members);
    var newProceeds, newPnl := SpreadOver(rows, members, total, closed);
    SpreadConserves(lots, total);
    result := GroupResult(closed, oldProceeds, newProceeds, oldPnl, newPnl);
  }

  method SpreadOver(rows: array<Lot>, members: seq<nat>, total: real, closed: real)
    returns (newProceeds: real, newPnl: real)
    requires ValidMembers(rows.Length, members)
    modifies rows
    ensures forall i :: 0 <= i < rows.Length ==>
              rows[i] == if i in members then RepairedLot(old(rows[i]), total, closed) else old(rows[i])
    ensures
      var lots := Pick(old(rows[..]), members);
      newProceeds == Sum(PortionBy(total, closed), lots) && newPnl == newProceeds - Sum(CostOf, lots)
  {
    hide Portion, WithProceeds;
    ghost var before := rows[..];
    ghost var lots := Pick(before, members);
    newProceeds, newPnl := 0.0, 0.0;
    for k := 0 to |members|
      invariant forall i :: 0 <= i < rows.Length ==>
                  rows[i] == if i in members[..k] then RepairedLot(before[i], total, closed) else before[i]
      invariant newProceeds == Sum(PortionBy(total, closed), lots[..k])
      invariant newPnl == newProceeds - Sum(CostOf, lots[..k])
    {
      var m := members[k];
      assert members[..k + 1] == members[..k] + [m] && m !in members[..k];
      var row := rows[m];
      assert lots[..k + 1] == lots[..k] + [row];
      SumSnoc(PortionBy(total, closed), lots[..k], row);
      SumSnoc(CostOf, lots[..k], row);
      var proceeds := Portion(row, total, closed);
      newProceeds := newProceeds + proceeds;
      newPnl := newPnl + (proceeds - row.costBasisUsd);
      rows[m] := WithProceeds(row, proceeds);
    }
    assert members[..|members|] == members && lots[..|members|] == lots;
  }

  // ------------------------------------------------------------ anchoring to cash

  datatype Anchor = Anchor(depositUsd: real, balanceUsd: real)

  const TOLERANCE := 0.05

  function TargetProceeds(lots: seq<Lot>, anchor: Anchor): real {
    Sum(CostOf, lots) + anchor.balanceUsd - anchor.depositUsd
  }

  predicate Applies(lots: seq<Lot>, anchor: Anchor) {
    Sum(ProceedsOf, lots) > EPS && Abs(Sum(ProceedsOf, lots) - TargetProceeds(lots, anchor)) > TOLERANCE
  }

  function AnchorScale(lots: seq<Lot>, anchor: Anchor): real
    requires Applies(lots, anchor)
  {
    MaxR(0.0, TargetProceeds(lots, anchor) / Sum(ProceedsOf, lots))
  }

  function ScaledProceeds(lot: Lot, scale: real): real {
    lot.proceedsUsd * scale
  }

  function ScaledBy(scale: real): Lot -> real {
    (lot: Lot) => ScaledProceeds(lot, scale)
  }

  function ScaleBy(scale: real): Lot -> Lot {
    (lot: Lot) => WithProceeds(lot, ScaledProceeds(lot, scale))
  }

  lemma {:induction false} SumScales(lots: seq<Lot>, scale: real)
    ensures Sum(ScaledBy(scale), lots) == Sum(ProceedsOf, lots) * scale
  {
    if lots == [] {
      assert 0.0 * scale == 0.0;
    } else {
      SumScales(lots[1..], scale);
      AddTimes(lots[0].proceedsUsd, Sum(ProceedsOf, lots[1..]), scale);
    }
  }

  function AnchoredLots(lots: seq<Lot>, anchor: Anchor): (r: seq<Lot>)
    ensures |r| == |lots|
  {
    if Applies(lots, anchor) then Map(ScaleBy(AnchorScale(lots, anchor)), lots) else lots
  }

  /** Scales all proceeds so that they meet the cash target, in place. When it applies, the totals before
      rounding are exactly the target and its result, or zero proceeds for a negative target. */
  method AnchorPass(rows: array<Lot>, anchor: Anchor)
    returns (applied: bool, newProceeds: real, newPnl: real)
    modifies rows
    ensures rows[..] == AnchoredLots(old(rows[..]), anchor)
    ensures
      var proceeds := Sum(ProceedsOf, old(rows[..]));
      var off := proceeds - (Sum(CostOf, old(rows[..])) + anchor.balanceUsd - anchor.depositUsd);
      applied <==> proceeds > 0.00000001 && (off > 0.05 || off < -0.05)
    ensures
      var target := TargetProceeds(old(rows[..]), anchor);
      applied ==>
        && newProceeds == MaxR(0.0, target)
        && newPnl == newProceeds - Sum(CostOf, old(rows[..]))
        && (target >= 0.0 ==> newPnl == anchor.balanceUsd - anchor.depositUsd)
    ensures !applied ==>
              newProceeds == Sum(ProceedsOf, old(rows[..])) && newPnl == Sum(PnlOf, old(rows[..]))
  {
    hide ScaleBy, AnchorScale, Sum;
    var all := rows[..];
    applied := Applies(all, anchor);
    if applied {
      newProceeds, newPnl := ScaleRows(rows, AnchorScale(all, anchor));
      ScaledToTarget(all, anchor);
    } else {
      newProceeds, newPnl := Sum(ProceedsOf, all), Sum(PnlOf, all);
    }
  }

  method ScaleRows(rows: array<Lot>, scale: real) returns (newProceeds: real, newPnl: real)
    modifies rows
    ensures rows[..] == Map(ScaleBy(scale), old(rows[..]))
    ensures newProceeds == Sum(ScaledBy(scale), old(rows[..]))
    ensures newPnl == newProceeds - Sum(CostOf, old(rows[..]))
  {
    hide WithProceeds, ScaledProceeds;
    ghost var lots := rows[..];
    newProceeds, newPnl := 0.0, 0.0;
    for i := 0 to rows.Length
      invariant forall k :: 0 <= k < rows.Length ==>
                  rows[k] == if k < i then WithProceeds(lots[k], ScaledProceeds(lots[k], scale)) else lots[k]
      invariant newProceeds == Sum(ScaledBy(scale), lots[..i])
      invariant newPnl == newProceeds - Sum(CostOf, lots[..i])
    {
      var row := rows[i];
      assert lots[..i + 1] == lots[..i] + [row];
      SumSnoc(ScaledBy(scale), lots[..i], row);
      SumSnoc(CostOf, lots[..i], row);
      var proceeds := ScaledProceeds(row, scale);
      newProceeds := newProceeds + proceeds;
      newPnl := newPnl + (proceeds - row.costBasisUsd);
      rows[i] := WithProceeds(row, proceeds);
    }
    assert lots[..rows.Length] == lots;
  }

  /** Scaling meets the target exactly, or nothing when the target is negative. */
  lemma ScaledToTarget(lots: seq<Lot>, anchor: Anchor)
    requires Applies(lots, anchor)
    ensures Sum(ScaledBy(AnchorScale(lots, anchor)), lots) == MaxR(0.0, TargetProceeds(lots, anchor))
    ensures TargetProceeds(lots, anchor) < 0.0 ==> AnchorScale(lots, anchor) == 0.0
  {
    SumScales(lots, AnchorScale(lots, anchor));
    DivideAndScale(Sum(ProceedsOf, lots), TargetProceeds(lots, anchor));
  }

  lemma DivideAndScale(sum: real, target: real)
    requires sum > 0.0
    ensures sum * MaxR(0.0, target / sum) == MaxR(0.0, target)
    ensures target < 0.0 ==> MaxR(0.0, target / sum) == 0.0
  {
    assert sum * (target / sum) == target;
  }

  lemma ScaledTotals(lots: seq<Lot>, scale: real)
    ensures Abs(Sum(ProceedsOf, Map(ScaleBy(scale), lots)) - Sum(ScaledBy(scale), lots)) <= Slack(|lots|)
    ensures Sum(CostOf, Map(ScaleBy(scale), lots)) == Sum(CostOf, lots)
  {
    hide WithProceeds, ScaledProceeds, Slack, Sum, Map;
    StoredIsClose(lots, ScaledBy(scale), ScaleBy(scale));
  }

  /** What an applied pass stores: within half a unit a row of the target, costs as before. */
  lemma AnchoredTotals(lots: seq<Lot>, anchor: Anchor)
    requires Applies(lots, anchor)
    ensures
      var after := AnchoredLots(lots, anchor);
      && Abs(Sum(ProceedsOf, after) - MaxR(0.0, TargetProceeds(lots, anchor))) <= Slack(|lots|)
      && Sum(CostOf, after) == Sum(CostOf, lots)
      && (TargetProceeds(lots, anchor) < 0.0 ==> Sum(ProceedsOf, after) == 0.0)
  {
    hide AnchorScale, TargetProceeds, Slack, ScaleBy, Map, Sum, Applies;
    ScaledTotals(lots, AnchorScale(lots, anchor));
    ScaledToTarget(lots, anchor);
    if TargetProceeds(lots, anchor) < 0.0 {
      ScaledToNothing(lots, AnchorScale(lots, anchor));
    }
  }

  lemma {:induction false} ScaledToNothing(lots: seq<Lot>, scale: real)
    requires scale == 0.0
    ensures Sum(ProceedsOf, Map(ScaleBy(scale), lots)) == 0.0
  {
    if lots != [] {
      ScaledToNothing(lots[1..], scale);
      assert lots[0].proceedsUsd * scale == 0.0;
      DecIsClose(0.0);
      hide Dec;
    }
  }

  /** A second pass has nothing to do for up to ten million rows, and for a negative target always. */
  lemma SecondAnchorPassRests(lots: seq<Lot>, anchor: Anchor)
    requires Applies(lots, anchor)
    requires |lots| <= 10_000_000 || TargetProceeds(lots, anchor) < 0.0
    ensures !Applies(AnchoredLots(lots, anchor), anchor)
  {
    AnchoredTotals(lots, anchor);
    assert |lots| <= 10_000_000 ==> Slack(|lots|) <= TOLERANCE;
    hide AnchoredLots, Sum, Slack;
  }

  function Copies(lot: Lot, n: nat): (lots: seq<Lot>)
    ensures |lots| == n
  {
    if n == 0 then [] else [lot] + Copies(lot, n - 1)
  }

  function Times(n: nat, x: real): real {
    if n == 0 then 0.0 else x + Times(n - 1, x)
  }

  lemma {:induction false} TimesIs(n: nat, x: real)
    ensures Times(n, x) == n as real * x
  {
    if n > 0 {
      TimesIs(n - 1, x);
      AddTimes((n - 1) as real, 1.0, x);
    }
  }

  lemma {:induction false} SumOfCopies(f: Lot -> real, lot: Lot, n: nat)
    ensures Sum(f, Copies(lot, n)) == Times(n, f(lot))
  {
    if n > 0 {
      SumOfCopies(f, lot, n - 1);
      assert Copies(lot, n)[1..] == Copies(lot, n - 1);
    }
  }

  lemma {:induction false} MapOfCopies(store: Lot -> Lot, lot: Lot, n: nat)
    ensures Map(store, Copies(lot, n)) == Copies(store(lot), n)
  {
    if n > 0 {
      MapOfCopies(store, lot, n - 1);
      assert Copies(lot, n)[1..] == Copies(lot, n - 1);
    }
  }

  /** A row of one share sold for one dollar. */
  const DOLLAR_ROW := Lot("", "", "", 1.0, 1.0, 0.0, 1.0, 1.0, 0)

  lemma ScaledDollar(scale: real)
    ensures ScaleBy(scale)(DOLLAR_ROW).proceedsUsd == Dec(scale) && ScaleBy(scale)(DOLLAR_ROW).costBasisUsd == 0.0
  {
    assert 1.0 * scale == scale;
    hide Dec;
  }

  lemma DollarSums(n: nat, scale: real)
    ensures Sum(ProceedsOf, Copies(DOLLAR_ROW, n)) == n as real && Sum(CostOf, Copies(DOLLAR_ROW, n)) == 0.0
    ensures Sum(ProceedsOf, Map(ScaleBy(scale), Copies(DOLLAR_ROW, n))) == n as real * Dec(scale)
    ensures Sum(CostOf, Map(ScaleBy(scale), Copies(DOLLAR_ROW, n))) == 0.0
  {
    hide Sum, Map, ScaleBy, Dec, Times, Copies;
    var scaled := ScaleBy(scale)(DOLLAR_ROW);
    ScaledDollar(scale);
    MapOfCopies(ScaleBy(scale), DOLLAR_ROW, n);
    SumOfCopies(ProceedsOf, DOLLAR_ROW, n);
    SumOfCopies(CostOf, DOLLAR_ROW, n);
    SumOfCopies(ProceedsOf, scaled, n);
    SumOfCopies(CostOf, scaled, n);
    TimesIs(n, 1.0);
    TimesIs(n, 0.0);
    TimesIs(n, Dec(scale));
  }

  lemma DecOfHalf()
    ensures Dec(HALF) == EPS
  {
    assert HALF * UNIT + 0.5 == 1.0;
  }

  /** Beyond ten million rows the rounding of every row can add up to more than the tolerance. */
  lemma ManyRowsNeedASecondPass(n: nat)
    requires n > 10_000_000
    ensures
      var lots := Copies(DOLLAR_ROW, n);
      var anchor := Anchor(1.0, 1.0 + n as real * HALF);
      Applies(lots, anchor) && Applies(AnchoredLots(lots, anchor), anchor)
  {
    var lots := Copies(DOLLAR_ROW, n);
    var anchor := Anchor(1.0, 1.0 + n as real * HALF);
    DollarSums(n, HALF);
    DecOfHalf();
    hide Dec, Copies, Sum;
    var sum := n as real;
    assert (sum * HALF) / sum == HALF;
    assert Applies(lots, anchor);
    assert AnchorScale(lots, anchor) == HALF;
  }

  /** The bound is exact: a second pass rests on every list of `n` rows if and only if `n` is at most ten
      million. */
  lemma SecondAnchorPassRestsExactly(n: nat)
    ensures (forall lots: seq<Lot>, anchor: Anchor :: |lots| == n && Applies(lots, anchor) ==>
               !Applies(AnchoredLots(lots, anchor), anchor))
            <==> n <= 10_000_000
  {
    if n <= 10_000_000 {
      forall lots: seq<Lot>, anchor: Anchor | |lots| == n && Applies(lots, anchor)
        ensures !Applies(AnchoredLots(lots, anchor), anchor)
      {
        SecondAnchorPassRests(lots, anchor);
      }
    } else {
      ManyRowsNeedASecondPass(n);
    }
  }
}
