/** The over-close pass: no buy lot is closed by more shares than it recorded. */
module CloseCapping {
  import opened Money
  import opened SettlementProceeds
  import opened Lots

  datatype Budget = Budget(entrySize: real, entryPrice: real)

  type Budgets = map<string, Budget>

  predicate HasBudget(budgets: Budgets, buyKey: string) {
    buyKey in budgets && budgets[buyKey].entrySize > EPS
  }

  function ClosedSoFar(closed: map<string, real>, buyKey: string): real {
    if buyKey in closed then closed[buyKey] else 0.0
  }

  function CapLot(lot: Lot, budgets: Budgets, closed: map<string, real>): CappedClose
    requires HasBudget(budgets, lot.buyKey)
  {
    var b := budgets[lot.buyKey];
    CapCloseSizeToBuyBudget(lot.closedSize, b.entryPrice, b.entrySize, ClosedSoFar(closed, lot.buyKey))
  }

  predicate IsCapped(lot: Lot, capped: CappedClose) {
    Abs(capped.closeSize - lot.closedSize) > EPS
  }

  function CutProceeds(lot: Lot, capped: CappedClose): real {
    if lot.closedSize > EPS then lot.proceedsUsd * (capped.closeSize / lot.closedSize) else 0.0
  }

  /** A row cut down to its capped size. A dry run leaves its proceeds alone. */
  function CutLot(lot: Lot, capped: CappedClose, dryRun: bool): Lot {
    var cut := lot.(closedSize := Dec(capped.closeSize), costBasisUsd := Dec(capped.costBasisUsd));
    if dryRun then cut
    else
      var proceeds := CutProceeds(lot, capped);
      cut.(proceedsUsd := Dec(proceeds), realizedPnlUsd := Dec(proceeds - capped.costBasisUsd),
           exitPrice := Dec(if capped.closeSize > EPS then proceeds / capped.closeSize else 0.0))
  }

  function AfterClose(lot: Lot, budgets: Budgets, closed: map<string, real>): map<string, real> {
    if HasBudget(budgets, lot.buyKey) then
      closed[lot.buyKey := ClosedSoFar(closed, lot.buyKey) + CapLot(lot, budgets, closed).closeSize]
    else closed
  }

  function NewLot(lot: Lot, budgets: Budgets, closed: map<string, real>, dryRun: bool): Lot {
    if HasBudget(budgets, lot.buyKey) && IsCapped(lot, CapLot(lot, budgets, closed)) then
      CutLot(lot, CapLot(lot, budgets, closed), dryRun)
    else lot
  }

  /** The rows after the pass, given what earlier rows closed. */
  function CapLots(lots: seq<Lot>, budgets: Budgets, closed: map<string, real>, dryRun: bool): (r: seq<Lot>)
    ensures |r| == |lots|
  {
    if lots == [] then []
    else [NewLot(lots[0], budgets, closed, dryRun)]
         + CapLots(lots[1..], budgets, AfterClose(lots[0], budgets, closed), dryRun)
  }

  /** How many rows the pass cuts. */
  function CappedCount(lots: seq<Lot>, budgets: Budgets, closed: map<string, real>): nat {
    if lots == [] then 0
    else
      (if HasBudget(budgets, lots[0].buyKey) && IsCapped(lots[0], CapLot(lots[0], budgets, closed)) then 1 else 0)
      + CappedCount(lots[1..], budgets, AfterClose(lots[0], budgets, closed))
  }

  /** The shares closed after the pass, before rounding. */
  function CappedTotal(lots: seq<Lot>, budgets: Budgets, closed: map<string, real>): real {
    if lots == [] then 0.0
    else
      (if HasBudget(budgets, lots[0].buyKey) then CapLot(lots[0], budgets, closed).closeSize else lots[0].closedSize)
      + CappedTotal(lots[1..], budgets, AfterClose(lots[0], budgets, closed))
  }

  // ------------------------------------------------------------ the pass in place

  /** Cuts over-closed rows in place, oldest first. */
  method CapLotCloseRows(rows: array<Lot>, budgets: Budgets, dryRun: bool)
    returns (cappedRows: nat, oldClosed: real, newClosed: real)
    modifies rows
    ensures rows[..] == CapLots(old(rows[..]), budgets, map[], dryRun)
    ensures cappedRows == CappedCount(old(rows[..]), budgets, map[])
    ensures oldClosed == Sum(SizeOf, old(rows[..])) && newClosed == CappedTotal(old(rows[..]), budgets, map[])
  {
    hide CapLot, CutLot, IsCapped, HasBudget, ClosedSoFar, CapLots, CappedCount, CappedTotal, Sum;
    ghost var lots := rows[..];
    ghost var done: seq<Lot> := [];
    var closed: map<string, real> := map[];
    cappedRows, oldClosed, newClosed := 0, 0.0, 0.0;
    assert lots[0..] == lots;
    for i := 0 to rows.Length
      invariant |done| == i && (forall k :: 0 <= k < i ==> rows[k] == done[k])
      invariant forall k :: i <= k < rows.Length ==> rows[k] == lots[k]
      invariant done + CapLots(lots[i..], budgets, closed, dryRun) == CapLots(lots, budgets, map[], dryRun)
      invariant cappedRows + CappedCount(lots[i..], budgets, closed) == CappedCount(lots, budgets, map[])
      invariant oldClosed + Sum(SizeOf, lots[i..]) == Sum(SizeOf, lots)
      invariant newClosed + CappedTotal(lots[i..], budgets, closed) == CappedTotal(lots, budgets, map[])
    {
      var row := rows[i];
      CapNext(lots, i, budgets, closed, dryRun);
      oldClosed := oldClosed + row.closedSize;
      if !HasBudget(budgets, row.buyKey) {
        newClosed := newClosed + row.closedSize;
      } else {
        var capped := CapLot(row, budgets, closed);
        closed := closed[row.buyKey := ClosedSoFar(closed, row.buyKey) + capped.closeSize];
        newClosed := newClosed + capped.closeSize;
        if IsCapped(row, capped) {
          cappedRows := cappedRows + 1;
          rows[i] := CutLot(row, capped, dryRun);
        }
      }
      done := done + [rows[i]];
    }
    NothingToCap(lots, rows.Length, budgets, closed, dryRun);
    assert rows[..] == done;
  }

  lemma NothingToCap(lots: seq<Lot>, n: nat, budgets: Budgets, closed: map<string, real>, dryRun: bool)
    requires n == |lots|
    ensures CapLots(lots[n..], budgets, closed, dryRun) == [] && CappedCount(lots[n..], budgets, closed) == 0
    ensures Sum(SizeOf, lots[n..]) == 0.0 && CappedTotal(lots[n..], budgets, closed) == 0.0
  {
  }

  lemma CapNext(lots: seq<Lot>, i: nat, budgets: Budgets, closed: map<string, real>, dryRun: bool)
    requires i < |lots|
    ensures
      var lot, rest := lots[i], lots[i + 1..];
      var after := AfterClose(lot, budgets, closed);
      && CapLots(lots[i..], budgets, closed, dryRun) ==
         [NewLot(lot, budgets, closed, dryRun)] + CapLots(rest, budgets, after, dryRun)
      && CappedCount(lots[i..], budgets, closed) ==
         (if HasBudget(budgets, lot.buyKey) && IsCapped(lot, CapLot(lot, budgets, closed)) then 1 else 0)
         + CappedCount(rest, budgets, after)
      && CappedTotal(lots[i..], budgets, closed) ==
         (if HasBudget(budgets, lot.buyKey) then CapLot(lot, budgets, closed).closeSize else lot.closedSize)
         + CappedTotal(rest, budgets, after)
      && Sum(SizeOf, lots[i..]) == lot.closedSize + Sum(SizeOf, rest)
  {
    hide CapLot, CutLot, IsCapped, HasBudget, ClosedSoFar;
    assert lots[i..][0] == lots[i] && lots[i..][1..] == lots[i + 1..];
  }

  // ------------------------------------------------------------ laws

  /** The shares of one buy closed by a list of rows, and how many rows those are. */
  function ClosedOf(lots: seq<Lot>, buyKey: string): real {
    if lots == [] then 0.0 else (if lots[0].buyKey == buyKey then lots[0].closedSize else 0.0) + ClosedOf(lots[1..], buyKey)
  }

  function RowsOf(lots: seq<Lot>, buyKey: string): nat {
    if lots == [] then 0 else (if lots[0].buyKey == buyKey then 1 else 0) + RowsOf(lots[1..], buyKey)
  }

  /** EPS for each of `n` rows. */
  function Tolerance(n: nat): real {
    n as real * EPS
  }

  lemma NewLotBounds(lot: Lot, budgets: Budgets, closed: map<string, real>, dryRun: bool)
    ensures
      var n := NewLot(lot, budgets, closed, dryRun);
      && n.buyKey == lot.buyKey && n.sellKey == lot.sellKey && n.id == lot.id
      && n.closedSize <= MaxR(0.0, lot.closedSize)
      && (HasBudget(budgets, lot.buyKey) ==> n.closedSize <= CapLot(lot, budgets, closed).closeSize + EPS)
      && (!HasBudget(budgets, lot.buyKey) ==> n == lot)
  {
    if HasBudget(budgets, lot.buyKey) {
      DecIsClose(CapLot(lot, budgets, closed).closeSize);
      hide Dec;
    }
  }

  /** What the rows of one buy ask to close; a negative size asks for nothing. */
  function RequestedOf(lots: seq<Lot>, buyKey: string): (r: real)
    ensures r >= 0.0
  {
    if lots == [] then 0.0
    else (if lots[0].buyKey == buyKey then MaxR(0.0, lots[0].closedSize) else 0.0) + RequestedOf(lots[1..], buyKey)
  }

  lemma StoredNearCapped(lot: Lot, budgets: Budgets, closed: map<string, real>, dryRun: bool)
    requires HasBudget(budgets, lot.buyKey)
    ensures Abs(NewLot(lot, budgets, closed, dryRun).closedSize - CapLot(lot, budgets, closed).closeSize) <= EPS
  {
    StoredSize(lot, budgets, closed, dryRun);
    DecIsClose(CapLot(lot, budgets, closed).closeSize);
    hide NewLot, CapLot, Dec;
  }

  /** The rows of a buy close what they ask for or what is left of its size, up to EPS a row. */
  predicate BudgetMet(lots: seq<Lot>, budgets: Budgets, closed: map<string, real>, dryRun: bool, buyKey: string)
    requires HasBudget(budgets, buyKey)
  {
    var left := budgets[buyKey].entrySize - ClosedSoFar(closed, buyKey);
    Abs(ClosedOf(CapLots(lots, budgets, closed, dryRun), buyKey) - MinR(left, RequestedOf(lots, buyKey))) <=
    Tolerance(RowsOf(lots, buyKey))
  }

  /** For every buy with a recorded size its rows close what they ask for or what is left of that size,
      whichever is less, up to EPS a row. */
  lemma {:induction false} BudgetIsMet(lots: seq<Lot>, budgets: Budgets, closed: map<string, real>, dryRun: bool,
                                       buyKey: string)
    requires HasBudget(budgets, buyKey)
    requires 0.0 <= ClosedSoFar(closed, buyKey) <= budgets[buyKey].entrySize
    ensures BudgetMet(lots, budgets, closed, dryRun, buyKey)
  {
    var left := budgets[buyKey].entrySize - ClosedSoFar(closed, buyKey);
    hide NewLot, CapLots, ClosedOf, RequestedOf, RowsOf, AfterClose, ClosedSoFar, CapLot, HasBudget, Tolerance;
    hide MinR, MaxR, Abs;
    if lots == [] {
      NothingTallied(lots, budgets, closed, dryRun, buyKey, left);
    } else {
      hide BudgetMet;
      var after := AfterClose(lots[0], budgets, closed);
      Closes(lots[0], budgets, closed, buyKey);
      if lots[0].buyKey == buyKey {
        OwnRowInBudget(lots[0], budgets, closed, left);
        BudgetIsMet(lots[1..], budgets, after, dryRun, buyKey);
        OwnRowMet(lots, budgets, closed, dryRun, buyKey);
      } else {
        BudgetIsMet(lots[1..], budgets, after, dryRun, buyKey);
        OtherRowMet(lots, budgets, closed, dryRun, buyKey);
      }
    }
  }

  lemma OwnRowMet(lots: seq<Lot>, budgets: Budgets, closed: map<string, real>, dryRun: bool, buyKey: string)
    requires HasBudget(budgets, buyKey) && lots != [] && lots[0].buyKey == buyKey
    requires 0.0 <= ClosedSoFar(closed, buyKey) <= budgets[buyKey].entrySize
    requires BudgetMet(lots[1..], budgets, AfterClose(lots[0], budgets, closed), dryRun, buyKey)
    ensures BudgetMet(lots, budgets, closed, dryRun, buyKey)
  {
    var left := budgets[buyKey].entrySize - ClosedSoFar(closed, buyKey);
    var after, rest, c := AfterClose(lots[0], budgets, closed), lots[1..], CapLot(lots[0], budgets, closed).closeSize;
    var later, asked, slack :=
      ClosedOf(CapLots(rest, budgets, after, dryRun), buyKey), RequestedOf(rest, buyKey), Tolerance(RowsOf(rest, buyKey));
    hide NewLot, CapLots, ClosedOf, RequestedOf, RowsOf, AfterClose, ClosedSoFar, CapLot, HasBudget, Tolerance;
    hide MinR, MaxR, Abs;
    Tally(lots, budgets, closed, dryRun, buyKey);
    Closes(lots[0], budgets, closed, buyKey);
    assert Abs(later - MinR(left - c, asked)) <= slack by {
      assert budgets[buyKey].entrySize - ClosedSoFar(after, buyKey) == left - c;
    }
    OwnRowStep(lots[0], budgets, closed, dryRun, left, later, asked, slack);
  }

  lemma OtherRowMet(lots: seq<Lot>, budgets: Budgets, closed: map<string, real>, dryRun: bool, buyKey: string)
    requires HasBudget(budgets, buyKey) && lots != [] && lots[0].buyKey != buyKey
    requires BudgetMet(lots[1..], budgets, AfterClose(lots[0], budgets, closed), dryRun, buyKey)
    ensures BudgetMet(lots, budgets, closed, dryRun, buyKey)
  {
    hide NewLot, CapLots, ClosedOf, RequestedOf, RowsOf, AfterClose, ClosedSoFar, CapLot, HasBudget, Tolerance;
    hide MinR, MaxR, Abs;
    Tally(lots, budgets, closed, dryRun, buyKey);
    Closes(lots[0], budgets, closed, buyKey);
  }

  lemma OwnRowInBudget(lot: Lot, budgets: Budgets, closed: map<string, real>, left: real)
    requires HasBudget(budgets, lot.buyKey) && left >= 0.0
    requires left == budgets[lot.buyKey].entrySize - ClosedSoFar(closed, lot.buyKey)
    ensures 0.0 <= CapLot(lot, budgets, closed).closeSize <= left
  {
    CapIs(lot, budgets, closed);
    StaysInBudget(left, lot.closedSize, CapLot(lot, budgets, closed).closeSize);
  }

  /** A row of the buy, and what the rows after it close. */
  lemma OwnRowStep(lot: Lot, budgets: Budgets, closed: map<string, real>, dryRun: bool, left: real,
                   rest: real, asked: real, slack: real)
    requires HasBudget(budgets, lot.buyKey) && left >= 0.0 && asked >= 0.0
    requires left == budgets[lot.buyKey].entrySize - ClosedSoFar(closed, lot.buyKey)
    requires Abs(rest - MinR(left - CapLot(lot, budgets, closed).closeSize, asked)) <= slack
    ensures Abs(NewLot(lot, budgets, closed, dryRun).closedSize + rest - MinR(left, MaxR(0.0, lot.closedSize) + asked)) <=
            slack + EPS
  {
    StoredNearCapped(lot, budgets, closed, dryRun);
    CapIs(lot, budgets, closed);
    hide NewLot, CapLot, ClosedSoFar, HasBudget;
    BudgetStep(left, lot.closedSize, CapLot(lot, budgets, closed).closeSize, NewLot(lot, budgets, closed, dryRun).closedSize,
               rest, asked, slack);
    hide MinR, MaxR, Abs;
  }

  lemma NothingTallied(lots: seq<Lot>, budgets: Budgets, closed: map<string, real>, dryRun: bool, buyKey: string, left: real)
    requires lots == [] && left >= 0.0
    ensures Abs(ClosedOf(CapLots(lots, budgets, closed, dryRun), buyKey) - MinR(left, RequestedOf(lots, buyKey))) == 0.0
    ensures Tolerance(RowsOf(lots, buyKey)) == 0.0
  {
    assert CapLots(lots, budgets, closed, dryRun) == [];
  }

  /** The first row's part of the three tallies. */
  lemma Tally(lots: seq<Lot>, budgets: Budgets, closed: map<string, real>, dryRun: bool, buyKey: string)
    requires lots != []
    ensures
      var rest, after, own := lots[1..], AfterClose(lots[0], budgets, closed), lots[0].buyKey == buyKey;
      && ClosedOf(CapLots(lots, budgets, closed, dryRun), buyKey) ==
         (if own then NewLot(lots[0], budgets, closed, dryRun).closedSize else 0.0)
         + ClosedOf(CapLots(rest, budgets, after, dryRun), buyKey)
      && RequestedOf(lots, buyKey) == (if own then MaxR(0.0, lots[0].closedSize) else 0.0) + RequestedOf(rest, buyKey)
      && Tolerance(RowsOf(lots, buyKey)) == (if own then EPS else 0.0) + Tolerance(RowsOf(rest, buyKey))
  {
    CapFirst(lots, budgets, closed, dryRun);
    hide CapLots, NewLot, AfterClose, MaxR;
    var rows := RowsOf(lots[1..], buyKey);
    assert Tolerance(rows + 1) == Tolerance(rows) + EPS;
  }

  lemma Closes(lot: Lot, budgets: Budgets, closed: map<string, real>, buyKey: string)
    requires HasBudget(budgets, buyKey)
    ensures ClosedSoFar(AfterClose(lot, budgets, closed), buyKey) ==
            ClosedSoFar(closed, buyKey) + if lot.buyKey == buyKey then CapLot(lot, budgets, closed).closeSize else 0.0
  {
    hide CapLot, HasBudget;
  }

  lemma CapIs(lot: Lot, budgets: Budgets, closed: map<string, real>)
    requires HasBudget(budgets, lot.buyKey)
    ensures lot.buyKey in budgets
    ensures CapLot(lot, budgets, closed).closeSize ==
            MinR(MaxR(0.0, lot.closedSize), MaxR(0.0, budgets[lot.buyKey].entrySize - ClosedSoFar(closed, lot.buyKey)))
  {
  }

  lemma CapFirst(lots: seq<Lot>, budgets: Budgets, closed: map<string, real>, dryRun: bool)
    requires lots != []
    ensures
      var after := CapLots(lots, budgets, closed, dryRun);
      && after != [] && after[0] == NewLot(lots[0], budgets, closed, dryRun) && after[0].buyKey == lots[0].buyKey
      && after[1..] == CapLots(lots[1..], budgets, AfterClose(lots[0], budgets, closed), dryRun)
  {
    NewLotBounds(lots[0], budgets, closed, dryRun);
    hide NewLot, AfterClose;
  }

  lemma StaysInBudget(left: real, requested: real, c: real)
    requires left >= 0.0 && c == MinR(MaxR(0.0, requested), MaxR(0.0, left))
    ensures 0.0 <= c <= left
  {
  }

  /** One row closes `c`, stored as `n`, and the rest closes `rest`. */
  lemma BudgetStep(left: real, requested: real, c: real, n: real, rest: real, asked: real, slack: real)
    requires left >= 0.0 && asked >= 0.0 && c == MinR(MaxR(0.0, requested), MaxR(0.0, left))
    requires Abs(n - c) <= EPS && Abs(rest - MinR(left - c, asked)) <= slack
    ensures Abs(n + rest - MinR(left, MaxR(0.0, requested) + asked)) <= slack + EPS
  {
    assert MinR(left, MaxR(0.0, requested) + asked) == c + MinR(left - c, asked);
  }

  /** Which buys have a budget, and which rows are cut: thresholds of one unit of the 8th decimal. */
  lemma CapsExactly(lot: Lot, budgets: Budgets, closed: map<string, real>)
    ensures HasBudget(budgets, lot.buyKey) <==> lot.buyKey in budgets && budgets[lot.buyKey].entrySize > 0.00000001
    ensures HasBudget(budgets, lot.buyKey) ==>
              (IsCapped(lot, CapLot(lot, budgets, closed)) <==>
                 CapLot(lot, budgets, closed).closeSize > lot.closedSize + 0.00000001 ||
                 CapLot(lot, budgets, closed).closeSize < lot.closedSize - 0.00000001)
  {
    hide CapLot;
  }

  /** A cut row: its size is what was left of its buy, or what it asked for, and its cost is that size at the price
      of the buy; a dry run leaves its proceeds, result and exit price alone, a live run prices the kept shares. */
  lemma CutRowExactly(lot: Lot, budgets: Budgets, closed: map<string, real>, dryRun: bool)
    requires lot.buyKey in budgets && budgets[lot.buyKey].entrySize > 0.00000001
    requires IsCapped(lot, CapLot(lot, budgets, closed))
    ensures IsCutTo(lot, KeptSize(lot, budgets, closed), KeptCost(lot, budgets, closed), dryRun,
                    NewLot(lot, budgets, closed, dryRun))
  {
    KeptExactly(lot, budgets, closed);
    CutLotExactly(lot, CapLot(lot, budgets, closed), dryRun);
    hide IsCutTo, CutLot, CapLot, IsCapped;
  }

  /** `cut` is the row with this size and cost, every new amount rounded to 8 decimals. */
  predicate IsCutTo(lot: Lot, size: real, cost: real, dryRun: bool, cut: Lot) {
    && cut.id == lot.id && cut.sellKey == lot.sellKey && cut.buyKey == lot.buyKey && cut.createdAt == lot.createdAt
    && cut.closedSize == Dec(size) && cut.costBasisUsd == Dec(cost)
    && (if dryRun then
          cut.proceedsUsd == lot.proceedsUsd && cut.realizedPnlUsd == lot.realizedPnlUsd && cut.exitPrice == lot.exitPrice
        else
          var proceeds := KeptProceeds(lot, size);
          && cut.proceedsUsd == Dec(proceeds) && cut.realizedPnlUsd == Dec(proceeds - cost)
          && cut.exitPrice == Dec(if size <= 0.00000001 then 0.0 else proceeds / size))
  }

  lemma CutLotExactly(lot: Lot, capped: CappedClose, dryRun: bool)
    ensures IsCutTo(lot, capped.closeSize, capped.costBasisUsd, dryRun, CutLot(lot, capped, dryRun))
  {
    hide Dec, KeptProceeds, CutProceeds;
    KeptProceedsExactly(lot, capped);
  }

  lemma KeptProceedsExactly(lot: Lot, capped: CappedClose)
    ensures CutProceeds(lot, capped) == KeptProceeds(lot, capped.closeSize)
  {
  }

  /** What one row may still close of its buy. */
  function KeptSize(lot: Lot, budgets: Budgets, closed: map<string, real>): real
    requires lot.buyKey in budgets
  {
    var left := budgets[lot.buyKey].entrySize - if lot.buyKey in closed then closed[lot.buyKey] else 0.0;
    if left <= 0.0 || lot.closedSize <= 0.0 then 0.0 else if lot.closedSize < left then lot.closedSize else left
  }

  /** Its proceeds: those of the row, in proportion; a row of no size keeps none. */
  function KeptProceeds(lot: Lot, size: real): real {
    if lot.closedSize <= 0.00000001 then 0.0 else lot.proceedsUsd * (size / lot.closedSize)
  }

  /** Its cost: the price of the buy for each share, and nothing for a negative price. */
  function KeptCost(lot: Lot, budgets: Budgets, closed: map<string, real>): real
    requires lot.buyKey in budgets
  {
    var price := budgets[lot.buyKey].entryPrice;
    if price <= 0.0 then 0.0 else KeptSize(lot, budgets, closed) * price
  }

  lemma KeptExactly(lot: Lot, budgets: Budgets, closed: map<string, real>)
    requires HasBudget(budgets, lot.buyKey)
    ensures CapLot(lot, budgets, closed) == CappedClose(KeptSize(lot, budgets, closed), KeptCost(lot, budgets, closed))
  {
  }

  /** How many rows two lists differ in. */
  function Changed(a: seq<Lot>, b: seq<Lot>): nat
    requires |a| == |b|
  {
    if a == [] then 0 else (if a[0] != b[0] then 1 else 0) + Changed(a[1..], b[1..])
  }

  /** The reported count is the number of rows that changed, and the reported total what the new rows close, up to
      EPS a row. */
  lemma {:induction false} ReportIsTrue(lots: seq<Lot>, budgets: Budgets, closed: map<string, real>, dryRun: bool)
    ensures CappedCount(lots, budgets, closed) == Changed(lots, CapLots(lots, budgets, closed, dryRun))
    ensures Abs(CappedTotal(lots, budgets, closed) - Sum(SizeOf, CapLots(lots, budgets, closed, dryRun))) <=
            Tolerance(|lots|)
  {
    if lots == [] {
      NothingReported(lots, budgets, closed, dryRun);
    } else {
      hide NewLot, IsCapped, CapLot, HasBudget, AfterClose;
      var after := AfterClose(lots[0], budgets, closed);
      CapFirst(lots, budgets, closed, dryRun);
      ReportIsTrue(lots[1..], budgets, after, dryRun);
      CutIsChange(lots[0], budgets, closed, dryRun);
      SumFirst(CapLots(lots, budgets, closed, dryRun));
      assert Tolerance(|lots|) == Tolerance(|lots[1..]|) + EPS;
      hide CapLots, Sum;
    }
  }

  lemma NothingReported(lots: seq<Lot>, budgets: Budgets, closed: map<string, real>, dryRun: bool)
    requires lots == []
    ensures CapLots(lots, budgets, closed, dryRun) == [] && CappedCount(lots, budgets, closed) == 0
    ensures CappedTotal(lots, budgets, closed) == 0.0 && Sum(SizeOf, lots) == 0.0 && Tolerance(|lots|) == 0.0
  {
  }

  lemma SumFirst(lots: seq<Lot>)
    requires lots != []
    ensures Sum(SizeOf, lots) == lots[0].closedSize + Sum(SizeOf, lots[1..])
  {
  }

  lemma CutIsChange(lot: Lot, budgets: Budgets, closed: map<string, real>, dryRun: bool)
    ensures
      var n := NewLot(lot, budgets, closed, dryRun);
      && (n != lot <==> HasBudget(budgets, lot.buyKey) && IsCapped(lot, CapLot(lot, budgets, closed)))
      && Abs((if HasBudget(budgets, lot.buyKey) then CapLot(lot, budgets, closed).closeSize else lot.closedSize)
             - n.closedSize) <= EPS
  {
    if HasBudget(budgets, lot.buyKey) {
      DecIsClose(CapLot(lot, budgets, closed).closeSize);
      hide Dec, CapLot;
    }
  }

  /** A cut row keeps its proceeds per share, and its result is its proceeds less its cost, each up to the
      rounding of what is stored. */
  lemma CutKeepsPrice(lot: Lot, capped: CappedClose)
    ensures
      var cut := CutLot(lot, capped, false);
      && BooksBalance(cut)
      && (lot.closedSize > EPS ==>
            Abs(Product(cut.proceedsUsd, lot.closedSize) - Product(lot.proceedsUsd, capped.closeSize)) <=
            Product(HALF, lot.closedSize))
  {
    CutBalances(lot, capped);
    hide CutLot, BooksBalance;
    if lot.closedSize > EPS {
      CutProceedsIs(lot, capped);
      ProductsAreClose(CutLot(lot, capped, false).proceedsUsd, CutProceeds(lot, capped), lot.closedSize);
      Cancel(lot.proceedsUsd, capped.closeSize, lot.closedSize);
      hide Product, CutProceeds;
    }
  }

  lemma CutBalances(lot: Lot, capped: CappedClose)
    ensures BooksBalance(CutLot(lot, capped, false))
    ensures Abs(CutLot(lot, capped, false).proceedsUsd - CutProceeds(lot, capped)) <= HALF
  {
    var proceeds := CutProceeds(lot, capped);
    DecIsClose(proceeds);
    DecIsClose(capped.costBasisUsd);
    DecIsClose(proceeds - capped.costBasisUsd);
    hide Dec, CutProceeds;
  }

  lemma CutProceedsIs(lot: Lot, capped: CappedClose)
    requires lot.closedSize > EPS
    ensures CutProceeds(lot, capped) == lot.proceedsUsd * (capped.closeSize / lot.closedSize)
  {
  }

  lemma ProductsAreClose(stored: real, exact: real, s: real)
    requires s > 0.0 && Abs(stored - exact) <= HALF
    ensures Abs(Product(stored, s) - Product(exact, s)) <= Product(HALF, s)
  {
    hide Product;
    ProductOfSum(exact, stored - exact, s);
    ProductBound(stored - exact, s);
    assert exact + (stored - exact) == stored;
  }

  lemma Cancel(p: real, c: real, s: real)
    requires s > 0.0
    ensures Product(p * (c / s), s) == Product(p, c)
  {
    assert c / s * s == c;
  }

  lemma ProductBound(error: real, s: real)
    requires s > 0.0 && Abs(error) <= HALF
    ensures Abs(Product(error, s)) <= Product(HALF, s)
  {
    hide Product;
    if error >= 0.0 {
      ProductGrows(error, HALF, s);
    } else {
      ProductGrows(-error, HALF, s);
      ProductOfMinus(error, s);
    }
  }

  /** No row grows, unless it was negative; a row without a recorded size is not touched. */
  lemma {:induction false} NoRowGrows(lots: seq<Lot>, budgets: Budgets, closed: map<string, real>, dryRun: bool, i: nat)
    requires i < |lots|
    ensures
      var after := CapLots(lots, budgets, closed, dryRun);
      && after[i].closedSize <= MaxR(0.0, lots[i].closedSize)
      && after[i].buyKey == lots[i].buyKey && after[i].sellKey == lots[i].sellKey && after[i].id == lots[i].id
      && (!HasBudget(budgets, lots[i].buyKey) ==> after[i] == lots[i])
  {
    NewLotBounds(lots[0], budgets, closed, dryRun);
    if i > 0 {
      NoRowGrows(lots[1..], budgets, AfterClose(lots[0], budgets, closed), dryRun, i - 1);
    }
  }

  /** What the first pass and a second one have closed of each buy: the same, or the first has used the
      budget up and the second all but half a unit of the 8th decimal. */
  ghost predicate SecondPassFollows(budgets: Budgets, first: map<string, real>, second: map<string, real>) {
    forall k :: HasBudget(budgets, k) ==>
      var size, a, b := budgets[k].entrySize, ClosedSoFar(first, k), ClosedSoFar(second, k);
      0.0 <= a <= size && (a == b || (a == size && size - HALF <= b <= size))
  }

  /** One row in both passes, on its sizes: `d` is what the first pass stores for `c`. */
  lemma SecondClose(r: real, size: real, a: real, b: real, c: real, d: real, n: real)
    requires 0.0 <= a <= size && (a == b || (a == size && size - HALF <= b <= size))
    requires c == MinR(MaxR(0.0, r), MaxR(0.0, size - a))
    requires Abs(d - c) <= HALF && d >= 0.0 && (c == 0.0 ==> d == 0.0)
    requires n == if Abs(c - r) > EPS then d else r
    ensures
      var c' := MinR(MaxR(0.0, n), MaxR(0.0, size - b));
      && !(Abs(c' - n) > EPS)
      && 0.0 <= a + c <= size
      && (a + c == b + c' || (a + c == size && size - HALF <= b + c' <= size))
  {
  }

  /** One row in both passes. */
  lemma SecondPassOnRow(lot: Lot, budgets: Budgets, first: map<string, real>, second: map<string, real>, dryRun: bool)
    requires SecondPassFollows(budgets, first, second)
    ensures
      var n := NewLot(lot, budgets, first, dryRun);
      && (HasBudget(budgets, lot.buyKey) ==> !IsCapped(n, CapLot(n, budgets, second)))
      && SecondPassFollows(budgets, AfterClose(lot, budgets, first), AfterClose(n, budgets, second))
  {
    NewLotBounds(lot, budgets, first, dryRun);
    if HasBudget(budgets, lot.buyKey) {
      hide NewLot, SecondPassFollows, MinR, MaxR, Abs, HasBudget, CapLot;
      SecondPassOnBudgeted(lot, budgets, first, second, dryRun);
      StillFollows(budgets, first, second, lot.buyKey, CapLot(lot, budgets, first).closeSize,
                   CapLot(NewLot(lot, budgets, first, dryRun), budgets, second).closeSize);
    }
  }

  lemma SecondPassOnBudgeted(lot: Lot, budgets: Budgets, first: map<string, real>, second: map<string, real>, dryRun: bool)
    requires SecondPassFollows(budgets, first, second) && HasBudget(budgets, lot.buyKey)
    ensures
      var n, k := NewLot(lot, budgets, first, dryRun), lot.buyKey;
      && n.buyKey == k && !IsCapped(n, CapLot(n, budgets, second))
      && var size, a, b := budgets[k].entrySize, ClosedSoFar(first, k) + CapLot(lot, budgets, first).closeSize,
                           ClosedSoFar(second, k) + CapLot(n, budgets, second).closeSize;
         0.0 <= a <= size && (a == b || (a == size && size - HALF <= b <= size))
  {
    var k := lot.buyKey;
    NewLotBounds(lot, budgets, first, dryRun);
    StoredSize(lot, budgets, first, dryRun);
    Follows(budgets, first, second, k);
    hide NewLot, SecondPassFollows, MinR, MaxR, Abs, Dec;
    var c := CapLot(lot, budgets, first).closeSize;
    DecIsClose(c);
    DecIsClose(0.0);
    SecondClose(lot.closedSize, budgets[k].entrySize, ClosedSoFar(first, k), ClosedSoFar(second, k), c, Dec(c),
                NewLot(lot, budgets, first, dryRun).closedSize);
  }

  lemma StoredSize(lot: Lot, budgets: Budgets, closed: map<string, real>, dryRun: bool)
    requires HasBudget(budgets, lot.buyKey)
    ensures
      var c := CapLot(lot, budgets, closed).closeSize;
      NewLot(lot, budgets, closed, dryRun).closedSize == if Abs(c - lot.closedSize) > EPS then Dec(c) else lot.closedSize
  {
    hide Dec, Abs, CapLot;
  }

  lemma Follows(budgets: Budgets, first: map<string, real>, second: map<string, real>, k: string)
    requires SecondPassFollows(budgets, first, second) && HasBudget(budgets, k)
    ensures
      var size, a, b := budgets[k].entrySize, ClosedSoFar(first, k), ClosedSoFar(second, k);
      0.0 <= a <= size && (a == b || (a == size && size - HALF <= b <= size))
  {
  }

  /** Closing some more of one buy in both passes. */
  lemma StillFollows(budgets: Budgets, first: map<string, real>, second: map<string, real>, k: string, c: real, c': real)
    requires SecondPassFollows(budgets, first, second) && HasBudget(budgets, k)
    requires
      var size, a, b := budgets[k].entrySize, ClosedSoFar(first, k) + c, ClosedSoFar(second, k) + c';
      0.0 <= a <= size && (a == b || (a == size && size - HALF <= b <= size))
    ensures SecondPassFollows(budgets, first[k := ClosedSoFar(first, k) + c], second[k := ClosedSoFar(second, k) + c'])
  {
  }

  /** A second pass cuts nothing. */
  lemma {:induction false} SecondPassCutsNothing(lots: seq<Lot>, budgets: Budgets, first: map<string, real>,
                                                 second: map<string, real>, dryRun: bool)
    requires SecondPassFollows(budgets, first, second)
    ensures CappedCount(CapLots(lots, budgets, first, dryRun), budgets, second) == 0
  {
    hide SecondPassFollows, NewLot, AfterClose, CapLot, IsCapped;
    if lots != [] {
      NewLotBounds(lots[0], budgets, first, dryRun);
      SecondPassOnRow(lots[0], budgets, first, second, dryRun);
      var n := NewLot(lots[0], budgets, first, dryRun);
      var first', second' := AfterClose(lots[0], budgets, first), AfterClose(n, budgets, second);
      SecondPassCutsNothing(lots[1..], budgets, first', second', dryRun);
      assert CapLots(lots, budgets, first, dryRun)[1..] == CapLots(lots[1..], budgets, first', dryRun);
    }
  }

  /** The whole pass: every recorded buy keeps its budget and uses it when its rows ask for that much, and
      running the pass again cuts nothing. */
  lemma CappingSettles(lots: seq<Lot>, budgets: Budgets, dryRun: bool)
    ensures forall k :: HasBudget(budgets, k) ==>
              var total, slack := ClosedOf(CapLots(lots, budgets, map[], dryRun), k), Tolerance(RowsOf(lots, k));
              && total <= budgets[k].entrySize + slack
              && Abs(total - MinR(budgets[k].entrySize, RequestedOf(lots, k))) <= slack
    ensures CappedCount(CapLots(lots, budgets, map[], dryRun), budgets, map[]) == 0
  {
    hide CapLots, ClosedOf, RowsOf, RequestedOf, CappedCount;
    forall k | HasBudget(budgets, k)
      ensures
        var total, slack := ClosedOf(CapLots(lots, budgets, map[], dryRun), k), Tolerance(RowsOf(lots, k));
        && total <= budgets[k].entrySize + slack
        && Abs(total - MinR(budgets[k].entrySize, RequestedOf(lots, k))) <= slack
    {
      BudgetIsMet(lots, budgets, map[], dryRun, k);
    }
    SecondPassCutsNothing(lots, budgets, map[], map[], dryRun);
  }
}
