/** The priority debt day by day: who owes a score, who answers for it, and when it comes back. Days are stretches
    of 86,400,000 milliseconds since the epoch. */
module RescoreDays {
  import opened Options
  import opened Seqs
  import opened RescoreScheduler
  import opened RescoreLaws

  const DAY_MS := 86_400_000

  predicate Within(t: int, day: int) {
    day * DAY_MS <= t < (day + 1) * DAY_MS
  }

  /** A CopyPool wallet ranked 1 to 100 that has no score from this day. */
  predicate OwesScore(w: Row, day: int) {
    && w.inCopyPool && w.stage == COPY_POOL
    && w.rank.Some? && 1 <= w.rank.value <= 100
    && (w.lastScoredAt.None? || !Within(w.lastScoredAt.value, day))
  }

  function OwesBy(day: int): Row -> bool {
    (w: Row) => OwesScore(w, day)
  }

  /** Of those, the ones that are not cooling. */
  function ServableBy(day: int, now: int): Row -> bool {
    (w: Row) => OwesScore(w, day) && w.nextDeepAnalyzeAt <= now
  }

  /** Due today means owing a score for the day that holds the clock. */
  lemma DueIsOwing(w: Row, day: int, now: int)
    requires Within(now, day)
    ensures PriorityDue(w, now) <==> OwesScore(w, day)
    ensures PriorityReady(w, now) <==> OwesScore(w, day) && w.nextDeepAnalyzeAt <= now
  {
    assert now / DAY == day;
    if w.lastScoredAt.Some? {
      assert w.lastScoredAt.value / DAY == day <==> Within(w.lastScoredAt.value, day);
    }
  }

  /** What a slot pick answers, day by day: the debt is the wallets that owe a score; if one of them is not
      cooling, the priority channel serves as many of those as it has slots for, and the cursor stays. */
  lemma PriorityAnswersExactly(rows: seq<Row>, limit: nat, cursor: Cursor, day: int, now: int)
    requires Within(now, day) && limit >= 1
    ensures
      var p := PickRescoreSlots(rows, limit, cursor, now);
      var servable := Filter(ServableBy(day, now), rows);
      && p.priorityDue == |Filter(OwesBy(day), rows)|
      && (p.channel == Priority <==> servable != [])
      && (servable != [] ==>
            && p.cursor == cursor && |p.wallets| == Min(limit, |servable|)
            && forall x :: x in p.wallets ==> exists w :: w in rows && ServableBy(day, now)(w) && w.wallet == x)
  {
    forall w ensures PriorityDue(w, now) == OwesScore(w, day)
                  && PriorityReady(w, now) == ServableBy(day, now)(w) {
      DueIsOwing(w, day, now);
    }
    hide PriorityDue, PriorityReady, OwesScore, PickBackground;
    FilterSame(DueBy(now), OwesBy(day), rows);
    FilterSame(ReadyBy(now), ServableBy(day, now), rows);
    PickPriorityLength(rows, limit, now);
    DebtCoversReady(rows, now);
    forall x | x in PickPriority(rows, limit, now)
      ensures exists w :: w in rows && ServableBy(day, now)(w) && w.wallet == x
    {
      PickedByPriority(rows, limit, x, now);
    }
    hide PickPriority, Filter;
  }

  lemma DebtCoversReady(rows: seq<Row>, now: int)
    ensures Filter(ReadyBy(now), rows) != [] ==> CountPriorityDue(rows, now) > 0
  {
    FilterMembers(ReadyBy(now), rows);
    FilterMembers(DueBy(now), rows);
    var ready := Filter(ReadyBy(now), rows);
    if ready != [] {
      assert ready[0] in rows && DueBy(now)(ready[0]);
    }
  }

  // ------------------------------------------------------------ until midnight, and after it

  function DueWallets(rows: seq<Row>, now: int): seq<string> {
    Map(WalletOf, Filter(DueBy(now), rows))
  }

  /** Rescoring a list of wallets touches the rows of those wallets and no others. */
  lemma {:induction false} RescoreAllAt(rows: seq<Row>, wallets: seq<string>, now: int, i: nat)
    requires DistinctWallets(rows) && i < |rows|
    ensures |RescoreAll(rows, wallets, now)| == |rows|
    ensures
      var r := RescoreAll(rows, wallets, now)[i];
      && r.wallet == rows[i].wallet
      && (rows[i].wallet !in wallets ==> r == rows[i])
      && (rows[i].wallet in wallets && rows[i].stage == COPY_POOL ==> r == RescoredRow(rows[i], now))
    decreases |wallets|
  {
    hide DistinctWallets, Rescore;
    if wallets != [] {
      var next := Rescore(rows, wallets[0], now);
      RescoreOneAt(rows, wallets[0], now, i);
      RescoreKeepsDistinct(rows, wallets[0], now);
      RescoreAllAt(next, wallets[1..], now, i);
      assert wallets == [wallets[0]] + wallets[1..];
    }
  }

  lemma RescoreOneAt(rows: seq<Row>, wallet: string, now: int, i: nat)
    requires DistinctWallets(rows) && i < |rows|
    ensures Rescore(rows, wallet, now)[i] == if rows[i].wallet == wallet then RescoredRow(rows[i], now) else rows[i]
  {
    hide RescoredRow;
    if j :| 0 <= j < |rows| && rows[j].wallet == wallet {
      RescoreAt(rows, j, now);
    } else {
      RescoreAbsent(rows, wallet, now);
    }
  }

  lemma RescoreKeepsDistinct(rows: seq<Row>, wallet: string, now: int)
    requires DistinctWallets(rows)
    ensures DistinctWallets(Rescore(rows, wallet, now))
  {
    forall i | 0 <= i < |rows| ensures Rescore(rows, wallet, now)[i].wallet == rows[i].wallet {
      RescoreOneAt(rows, wallet, now, i);
    }
  }

  /** Once every due wallet is rescored no debt is left until the day ends; from midnight on every one of them is
      due again, until it is rescored. */
  lemma DebtReturnsAtMidnight(rows: seq<Row>, day: int, now: int, later: int)
    requires DistinctWallets(rows) && Within(now, day) && now <= later
    ensures
      var after := RescoreAll(rows, DueWallets(rows, now), now);
      && (later < (day + 1) * DAY_MS ==> CountPriorityDue(after, later) == 0)
      && (later >= (day + 1) * DAY_MS ==>
            forall x :: x in DueWallets(rows, now) ==> IsDueWallet(after, x, later))
  {
    hide RescoreAll, CountPriorityDue, IsDueWallet;
    if later < (day + 1) * DAY_MS {
      NoDebtToday(rows, day, now, later);
    } else {
      DebtAfterMidnight(rows, day, now, later);
    }
  }

  lemma DueWalletsExactly(rows: seq<Row>, now: int, i: nat)
    requires DistinctWallets(rows) && i < |rows|
    ensures rows[i].wallet in DueWallets(rows, now) <==> PriorityDue(rows[i], now)
  {
    hide PriorityDue, Map, Filter;
    FilterMembers(DueBy(now), rows);
    MapMembers(WalletOf, Filter(DueBy(now), rows));
    if PriorityDue(rows[i], now) {
      assert rows[i] in Filter(DueBy(now), rows);
    }
  }

  lemma NoDebtToday(rows: seq<Row>, day: int, now: int, later: int)
    requires DistinctWallets(rows) && Within(now, day) && Within(later, day)
    ensures CountPriorityDue(RescoreAll(rows, DueWallets(rows, now), now), later) == 0
  {
    var after := RescoreAll(rows, DueWallets(rows, now), now);
    FilterMembers(DueBy(later), after);
    forall r | r in after ensures !PriorityDue(r, later) {
      var i :| 0 <= i < |after| && after[i] == r;
      hide RescoreAll, Filter, DueWallets;
      if i < |rows| {
        RescoreAllAt(rows, DueWallets(rows, now), now, i);
        DueWalletsExactly(rows, now, i);
        PaidForToday(rows[i], day, now, later);
      } else {
        RescoreAllLength(rows, DueWallets(rows, now), now);
        assert false;
      }
    }
    hide PriorityDue, RescoreAll;
    if Filter(DueBy(later), after) != [] {
      assert Filter(DueBy(later), after)[0] in after;
    }
  }

  lemma {:induction false} RescoreAllLength(rows: seq<Row>, wallets: seq<string>, now: int)
    ensures |RescoreAll(rows, wallets, now)| == |rows|
    decreases |wallets|
  {
    hide Rescore;
    if wallets != [] {
      RescoreAllLength(Rescore(rows, wallets[0], now), wallets[1..], now);
    }
  }

  lemma PaidForToday(w: Row, day: int, now: int, later: int)
    requires Within(now, day) && Within(later, day)
    ensures !PriorityDue(RescoredRow(w, now), later)
    ensures !PriorityDue(w, now) ==> !PriorityDue(w, later)
  {
    DueIsOwing(w, day, now);
    DueIsOwing(w, day, later);
    DueIsOwing(RescoredRow(w, now), day, later);
    hide PriorityDue, LastDigitEven;
  }

  lemma DebtAfterMidnight(rows: seq<Row>, day: int, now: int, later: int)
    requires DistinctWallets(rows) && Within(now, day) && later >= (day + 1) * DAY_MS
    ensures forall x :: x in DueWallets(rows, now) ==>
              IsDueWallet(RescoreAll(rows, DueWallets(rows, now), now), x, later)
  {
    var after := RescoreAll(rows, DueWallets(rows, now), now);
    FilterMembers(DueBy(now), rows);
    MapMembers(WalletOf, Filter(DueBy(now), rows));
    RescoreAllLength(rows, DueWallets(rows, now), now);
    hide RescoreAll, Filter, Map;
    forall x | x in DueWallets(rows, now) ensures IsDueWallet(after, x, later) {
      var w :| w in Filter(DueBy(now), rows) && WalletOf(w) == x;
      var i :| 0 <= i < |rows| && rows[i] == w;
      RescoreAllAt(rows, DueWallets(rows, now), now, i);
      DueAgain(w, day, now, later);
      assert after[i] in after;
    }
  }

  lemma DueAgain(w: Row, day: int, now: int, later: int)
    requires Within(now, day) && later >= (day + 1) * DAY_MS && PriorityDue(w, now)
    ensures w.stage == COPY_POOL && PriorityDue(RescoredRow(w, now), later)
  {
    DueIsOwing(RescoredRow(w, now), later / DAY_MS, later);
  }
}
