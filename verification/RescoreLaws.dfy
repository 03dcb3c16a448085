/** Laws of the two rescore channels: when the priority channel preempts, that it never disturbs
    the rotation, how fast it drains, and the QUALIFIED floor of the deep batch. */
module RescoreLaws {
  import opened Options
  import opened Seqs
  import opened StringOrder
  import opened RescoreScheduler
  import opened Rotation

  // ------------------------------------------------------------ preemption

  lemma PickPriorityLength(rows: seq<Row>, limit: nat, now: int)
    ensures |PickPriority(rows, limit, now)| == Min(limit, |Filter(ReadyBy(now), rows)|)
  {
  }

  /** With at least one slot, the priority channel is taken exactly when some TopN wallet is due
      today and not cooling; it then leaves the rotation cursor alone. */
  lemma PriorityPreemptsExactly(rows: seq<Row>, limit: nat, cursor: Cursor, now: int)
    requires limit >= 1
    ensures
      var p := PickRescoreSlots(rows, limit, cursor, now);
      && (p.channel == Priority <==> exists w :: w in rows && PriorityReady(w, now))
      && (p.channel == Priority ==> p.cursor == cursor && p.wallets != [])
      && (p.channel == Background ==>
            p.wallets == PickBackground(rows, limit, cursor, now).wallets &&
            p.cursor == PickBackground(rows, limit, cursor, now).cursor)
  {
    hide PickPriority, PickBackground;
    PickPriorityLength(rows, limit, now);
    var ready, due := Filter(ReadyBy(now), rows), Filter(DueBy(now), rows);
    FilterMembers(ReadyBy(now), rows);
    FilterMembers(DueBy(now), rows);
    if w :| w in rows && PriorityReady(w, now) {
      assert w in ready && w in due;
    }
    if |ready| > 0 {
      assert ready[0] in rows && PriorityReady(ready[0], now);
    }
  }

  /** Without a slot every call resets the rotation, whatever the cursor was. */
  lemma ZeroSlotsResetTheRotation(rows: seq<Row>, cursor: Cursor, now: int)
    ensures PickRescoreSlots(rows, 0, cursor, now) ==
            Slots([], Background, START, CountPriorityDue(rows, now))
  {
    PickPriorityLength(rows, 0, now);
  }

  predicate RanksBefore(a: Row, b: Row)
    requires a.rank.Some? && b.rank.Some?
  {
    a.rank.value < b.rank.value || (a.rank == b.rank && Before(a.wallet, b.wallet))
  }

  lemma RanksBeforeExactly(a: Row, b: Row)
    requires a.rank.Some? && b.rank.Some? && a.wallet != b.wallet
    ensures PriorityLe(a, b) <==> RanksBefore(a, b)
  {
  }

  lemma PriorityLeIsTotal()
    ensures TotalPreorder(PriorityLe)
  {
    BeforeIsStrictTotalOrder();
  }

  /** The priority channel hands out the best ranks, in rank order: of two ready wallets the one that
      comes later, or is left out, ranks after the other. */
  lemma PriorityPicksBestRanks(rows: seq<Row>, limit: nat, now: int, a: Row, b: Row)
    requires DistinctWallets(rows) && a in rows && b in rows && a.wallet != b.wallet
    requires PriorityReady(a, now) && PriorityReady(b, now)
    ensures
      var picked := PickPriority(rows, limit, now);
      && (a.wallet in picked && b.wallet !in picked ==> RanksBefore(a, b))
      && (forall i, j :: 0 <= i < j < |picked| && picked[i] == a.wallet && picked[j] == b.wallet ==> RanksBefore(a, b))
  {
    assert Distinct(Map(WalletOf, rows));
    hide Sort, Filter, PriorityLe, RanksBefore, PriorityReady, DistinctWallets;
    var ready := Filter(ReadyBy(now), rows);
    var front := Take(Sort(PriorityLe, ready), limit);
    FilterMembers(ReadyBy(now), rows);
    assert ReadyBy(now)(a) && ReadyBy(now)(b);
    PriorityLeIsTotal();
    FrontOfSort(PriorityLe, ready, limit);
    SortMembers(PriorityLe, ready);
    RanksBeforeFromOrder(a, b, now);
    MapMembers(WalletOf, front);
    forall i | 0 <= i < |front|
      ensures (front[i].wallet == a.wallet ==> front[i] == a) && (front[i].wallet == b.wallet ==> front[i] == b)
    {
      assert front[i] in Sort(PriorityLe, ready) && front[i] in rows;
      if front[i].wallet == a.wallet {
        MapDistinctMember(WalletOf, rows, front[i], a);
      } else if front[i].wallet == b.wallet {
        MapDistinctMember(WalletOf, rows, front[i], b);
      }
    }
    hide Map, Take;
  }

  lemma RanksBeforeFromOrder(a: Row, b: Row, now: int)
    requires PriorityReady(a, now) && PriorityReady(b, now) && a.wallet != b.wallet
    ensures a.rank.Some? && b.rank.Some?
    ensures PriorityLe(a, b) ==> RanksBefore(a, b)
  {
    RanksBeforeExactly(a, b);
  }

  // ------------------------------------------------------------ what picks hand out

  /** Rescoring this wallet now changes nothing that the channels' rotation looks at: no row of that name is
      QUALIFIED or cooling. */
  ghost predicate SafeToRescore(rows: seq<Row>, wallet: string, now: int) {
    forall w :: w in rows && w.wallet == wallet ==> w.stage != QUALIFIED && w.nextDeepAnalyzeAt <= now
  }

  /** Every wallet a pick hands out is in the CopyPool, not cooling, and safe to rescore. */
  lemma PickedAreSafe(rows: seq<Row>, limit: nat, cursor: Cursor, wallet: string, now: int)
    requires DistinctWallets(rows)
    requires wallet in PickRescoreSlots(rows, limit, cursor, now).wallets
    ensures SafeToRescore(rows, wallet, now)
    ensures exists w :: w in rows && w.wallet == wallet && (PriorityReady(w, now) || BackgroundReady(w, now))
  {
    if PickRescoreSlots(rows, limit, cursor, now).channel == Priority {
      PickedByPriority(rows, limit, wallet, now);
    } else {
      PickedByBackground(rows, limit, cursor, wallet, now);
    }
    var w :| w in rows && w.wallet == wallet && (PriorityReady(w, now) || BackgroundReady(w, now));
    SafeByDistinctness(rows, w, now);
  }

  lemma SafeByDistinctness(rows: seq<Row>, w: Row, now: int)
    requires DistinctWallets(rows) && w in rows && w.stage != QUALIFIED && w.nextDeepAnalyzeAt <= now
    ensures SafeToRescore(rows, w.wallet, now)
  {
  }

  lemma PickedByPriority(rows: seq<Row>, limit: nat, wallet: string, now: int)
    requires wallet in PickPriority(rows, limit, now)
    ensures exists w :: w in rows && w.wallet == wallet && PriorityReady(w, now)
  {
    var ready := Filter(ReadyBy(now), rows);
    var sorted := Sort(PriorityLe, ready);
    FilterMembers(ReadyBy(now), rows);
    SortMembers(PriorityLe, ready);
    var i :| 0 <= i < |Take(sorted, limit)| && Map(WalletOf, Take(sorted, limit))[i] == wallet;
    assert sorted[i] in sorted && sorted[i] in ready;
    assert sorted[i] in rows && PriorityReady(sorted[i], now);
  }

  lemma PickedByBackground(rows: seq<Row>, limit: nat, cursor: Cursor, wallet: string, now: int)
    requires wallet in PickBackground(rows, limit, cursor, now).wallets
    ensures exists w :: w in rows && w.wallet == wallet && BackgroundReady(w, now)
  {
    hide Ring, PickBackground, PickKeys;
    BackgroundByRing(rows, limit, cursor, now);
    PickedFromRing(Ring(rows, now), limit, cursor, wallet);
    RingMembers(rows, now, wallet);
  }

  lemma PickedFromRing(ring: seq<Key>, limit: nat, cursor: Cursor, wallet: string)
    requires wallet in PickKeys(ring, limit, cursor).wallets
    ensures wallet in Map(KeyWallet, ring)
  {
    hide KeyAfter;
    FilterMembers(KeyAfterBy(cursor), ring);
    var ahead := Filter(KeyAfterBy(cursor), ring);
    var batch := if |Take(ahead, limit)| == 0 && cursor != START then Take(ring, limit) else Take(ahead, limit);
    var i :| 0 <= i < |batch| && Map(KeyWallet, batch)[i] == wallet;
    assert batch[i] in ring;
    var j :| 0 <= j < |ring| && ring[j] == batch[i];
    assert Map(KeyWallet, ring)[j] == wallet;
  }

  // ------------------------------------------------------------ draining the priority debt

  ghost predicate NoDueWalletCools(rows: seq<Row>, now: int) {
    forall w :: w in rows && PriorityDue(w, now) ==> w.nextDeepAnalyzeAt <= now
  }

  ghost predicate IsDueWallet(rows: seq<Row>, wallet: string, now: int) {
    exists w :: w in rows && w.wallet == wallet && PriorityDue(w, now)
  }

  /** Rescoring one due wallet clears exactly that debt. */
  lemma RescoringPaysOne(rows: seq<Row>, wallet: string, now: int)
    requires DistinctWallets(rows) && IsDueWallet(rows, wallet, now)
    ensures
      var rows' := Rescore(rows, wallet, now);
      && CountPriorityDue(rows', now) == CountPriorityDue(rows, now) - 1
      && DistinctWallets(rows')
      && (NoDueWalletCools(rows, now) ==> NoDueWalletCools(rows', now))
      && forall other :: other != wallet && IsDueWallet(rows, other, now) ==> IsDueWallet(rows', other, now)
  {
    var w :| w in rows && w.wallet == wallet && PriorityDue(w, now);
    var i :| 0 <= i < |rows| && rows[i] == w;
    RescoreAt(rows, i, now);
    FilterUpdateCount(DueBy(now), rows, i, RescoredRow(w, now));
    PaidRow(w, now);
    hide Filter, RescoredRow, PriorityDue, Rescore;
    OthersStayDue(rows, i, RescoredRow(w, now), now);
  }

  /** A rescored row is scored today: its debt is paid. */
  lemma PaidRow(w: Row, now: int)
    ensures !PriorityDue(RescoredRow(w, now), now) && RescoredRow(w, now).wallet == w.wallet
  {
    hide LastDigitEven;
  }

  lemma OthersStayDue(rows: seq<Row>, i: nat, paid: Row, now: int)
    requires DistinctWallets(rows) && i < |rows| && paid.wallet == rows[i].wallet && !PriorityDue(paid, now)
    ensures DistinctWallets(rows[i := paid])
    ensures NoDueWalletCools(rows, now) ==> NoDueWalletCools(rows[i := paid], now)
    ensures forall other :: other != paid.wallet && IsDueWallet(rows, other, now) ==>
                            IsDueWallet(rows[i := paid], other, now)
  {
    hide PriorityDue;
    var rows' := rows[i := paid];
    forall v | v in rows' && PriorityDue(v, now) ensures v in rows {
      var j :| 0 <= j < |rows'| && rows'[j] == v;
      assert j != i;
    }
    forall other | other != paid.wallet && IsDueWallet(rows, other, now) ensures IsDueWallet(rows', other, now) {
      var v :| v in rows && v.wallet == other && PriorityDue(v, now);
      var j :| 0 <= j < |rows| && rows[j] == v;
      assert rows'[j] == v;
    }
  }

  lemma {:induction false} RescoringPaysAll(rows: seq<Row>, wallets: seq<string>, now: int)
    requires DistinctWallets(rows) && NoDueWalletCools(rows, now) && Distinct(wallets)
    requires forall x :: x in wallets ==> IsDueWallet(rows, x, now)
    ensures
      var rows' := RescoreAll(rows, wallets, now);
      && CountPriorityDue(rows', now) == CountPriorityDue(rows, now) - |wallets|
      && DistinctWallets(rows') && NoDueWalletCools(rows', now)
    decreases |wallets|
  {
    hide IsDueWallet, CountPriorityDue, NoDueWalletCools, Rescore;
    if wallets != [] {
      RescoringPaysOne(rows, wallets[0], now);
      forall x | x in wallets[1..] ensures x != wallets[0] {
        var j :| 0 <= j < |wallets[1..]| && wallets[1..][j] == x;
        assert wallets[j + 1] == x;
      }
      RescoringPaysAll(Rescore(rows, wallets[0], now), wallets[1..], now);
    }
  }

  /** What the priority channel hands out: distinct due wallets, as many as there are slots. */
  lemma PriorityPick(rows: seq<Row>, limit: nat, now: int)
    requires DistinctWallets(rows) && NoDueWalletCools(rows, now)
    ensures
      var picked := PickPriority(rows, limit, now);
      && Distinct(picked)
      && |picked| == Min(limit, CountPriorityDue(rows, now))
      && forall x :: x in picked ==> IsDueWallet(rows, x, now)
  {
    var picked := PickPriority(rows, limit, now);
    FilterSame(DueBy(now), ReadyBy(now), rows);
    PickPriorityLength(rows, limit, now);
    PriorityDistinct(rows, limit, now);
    hide PickPriority, Filter;
    forall x | x in picked ensures IsDueWallet(rows, x, now) {
      PickedByPriority(rows, limit, x, now);
    }
  }

  /** One round of `pickRescoreSlots` and rescoring what it picked. */
  lemma RoundPaysExactly(rows: seq<Row>, limit: nat, cursor: Cursor, now: int)
    requires DistinctWallets(rows) && NoDueWalletCools(rows, now) && limit >= 1
    requires CountPriorityDue(rows, now) > 0
    ensures
      var p := PickRescoreSlots(rows, limit, cursor, now);
      var rows' := RescoreAll(rows, p.wallets, now);
      && p.channel == Priority && p.cursor == cursor
      && CountPriorityDue(rows', now) == CountPriorityDue(rows, now) - Min(limit, CountPriorityDue(rows, now))
      && DistinctWallets(rows') && NoDueWalletCools(rows', now)
  {
    hide CountPriorityDue, PickPriority, PickBackground, NoDueWalletCools, DistinctWallets, IsDueWallet;
    PriorityPick(rows, limit, now);
    RescoringPaysAll(rows, PickPriority(rows, limit, now), now);
  }

  datatype Progress = Progress(rows: seq<Row>, cursor: Cursor)

  function Rounds(rows: seq<Row>, limit: nat, cursor: Cursor, rounds: nat, now: int): Progress
    decreases rounds
  {
    if rounds == 0 then Progress(rows, cursor)
    else
      var p := PickRescoreSlots(rows, limit, cursor, now);
      Rounds(RescoreAll(rows, p.wallets, now), limit, p.cursor, rounds - 1, now)
  }

  /** The priority debt falls by `limit` a round until it is gone, so it is gone after
      `ceil(due / limit)` rounds and not before, with the rotation cursor where it was. */
  lemma {:induction false} DebtDrains(rows: seq<Row>, limit: nat, cursor: Cursor, rounds: nat, now: int)
    requires DistinctWallets(rows) && NoDueWalletCools(rows, now) && limit >= 1
    requires rounds <= CeilDiv(CountPriorityDue(rows, now), limit)
    ensures
      var due := CountPriorityDue(rows, now);
      var end := Rounds(rows, limit, cursor, rounds, now);
      && CountPriorityDue(end.rows, now) == Max(0, due - rounds * limit)
      && (CountPriorityDue(end.rows, now) == 0 <==> rounds == CeilDiv(due, limit))
      && end.cursor == cursor
      && DistinctWallets(end.rows) && NoDueWalletCools(end.rows, now)
    decreases rounds
  {
    hide CountPriorityDue, PickRescoreSlots, NoDueWalletCools, DistinctWallets, RescoreAll;
    if rounds > 0 {
      RoundPaysExactly(rows, limit, cursor, now);
      var rows' := RescoreAll(rows, PickRescoreSlots(rows, limit, cursor, now).wallets, now);
      DebtDrains(rows', limit, cursor, rounds - 1, now);
      assert rounds * limit == (rounds - 1) * limit + limit;
    }
  }

  // ------------------------------------------------------------ the deep batch

  function QualifiedIn(rows: seq<Row>): string -> bool {
    (x: string) => exists w :: w in rows && w.wallet == x && w.stage == QUALIFIED
  }

  /** A QUALIFIED wallet that is not cooling. */
  predicate Waits(w: Row, now: int) {
    w.stage == QUALIFIED && w.nextDeepAnalyzeAt <= now
  }

  function WaitsBy(now: int): Row -> bool {
    (w: Row) => Waits(w, now)
  }

  /** A deep batch leaves rescoring no slot exactly when the share rounds to 0, or when a QUALIFIED
      wallet waits and the batch has fewer than 5 places; every such batch resets the rotation. */
  lemma DeepBatchStarvesRotationExactly(rows: seq<Row>, limit: nat, cursor: Cursor, share: real, now: int)
    ensures
      var b := PickDeepBatch(rows, limit, cursor, share, now);
      && (b.refreshLimit == 0 <==>
            limit as real * share < 1.0 || limit == 0 ||
            (limit < 5 && exists w :: w in rows && Waits(w, now)))
      && (b.refreshLimit == 0 ==> b.cursor == START && b.channel == Background)
  {
    hide PickRescoreSlots, RefreshLimit, QualifiedReady, Waits;
    ZeroSlotsResetTheRotation(rows, cursor, now);
    QualifiedWaits(rows, now);
    NoRefreshSlot(limit, |Filter(QualifiedBy(now), rows)|, share);
    hide Filter, QualifiedBy;
  }

  lemma QualifiedWaits(rows: seq<Row>, now: int)
    ensures |Filter(QualifiedBy(now), rows)| > 0 <==> exists w :: w in rows && Waits(w, now)
  {
    hide Filter;
    var ready := Filter(QualifiedBy(now), rows);
    FilterMembers(QualifiedBy(now), rows);
    if |ready| > 0 {
      assert ready[0] in rows && Waits(ready[0], now);
    }
    if w :| w in rows && Waits(w, now) {
      assert w in ready;
    }
  }

  /** When the share of a batch rounds to nothing. */
  lemma NoRefreshSlot(limit: nat, qualifiedReady: nat, share: real)
    ensures RefreshLimit(limit, qualifiedReady, share) == 0 <==>
              limit as real * share < 1.0 || limit == 0 || (limit < 5 && qualifiedReady > 0)
  {
    RefreshLimitIsLargest(limit, qualifiedReady, share, 1);
    hide RefreshLimit;
  }

  /** Slots hand out at most `limit` distinct wallets, none of them QUALIFIED. */
  lemma SlotsAreDistinct(rows: seq<Row>, limit: nat, cursor: Cursor, now: int)
    requires DistinctWallets(rows)
    ensures
      var picked := PickRescoreSlots(rows, limit, cursor, now).wallets;
      && |picked| <= limit && Distinct(picked)
      && forall x :: x in picked ==> !QualifiedIn(rows)(x)
  {
    var picked := PickRescoreSlots(rows, limit, cursor, now).wallets;
    if PickRescoreSlots(rows, limit, cursor, now).channel == Priority {
      PriorityDistinct(rows, limit, now);
    } else {
      BackgroundDistinct(rows, limit, cursor, now);
    }
    forall x | x in picked ensures !QualifiedIn(rows)(x) {
      PickedAreSafe(rows, limit, cursor, x, now);
    }
  }

  lemma PriorityDistinct(rows: seq<Row>, limit: nat, now: int)
    requires DistinctWallets(rows)
    ensures Distinct(PickPriority(rows, limit, now)) && |PickPriority(rows, limit, now)| <= limit
  {
    hide Sort, Map, Filter, PriorityLe, Take;
    var ready := Filter(ReadyBy(now), rows);
    var sorted := Sort(PriorityLe, ready);
    assert Distinct(Map(WalletOf, rows));
    FilterDistinct(ReadyBy(now), WalletOf, rows);
    MapPermutation(WalletOf, ready, sorted);
    DistinctPermutation(Map(WalletOf, ready), Map(WalletOf, sorted));
    MapTakeDistinct(WalletOf, sorted, limit);
  }

  lemma BackgroundDistinct(rows: seq<Row>, limit: nat, cursor: Cursor, now: int)
    requires DistinctWallets(rows)
    ensures
      var picked := PickBackground(rows, limit, cursor, now).wallets;
      |picked| <= limit && Distinct(picked)
  {
    var ring := Ring(rows, now);
    RingIsRing(rows, now);
    BackgroundByRing(rows, limit, cursor, now);
    var ahead := Filter(KeyAfterBy(cursor), ring);
    FilterDistinct(KeyAfterBy(cursor), KeyWallet, ring);
    MapTakeDistinct(KeyWallet, ahead, limit);
    MapTakeDistinct(KeyWallet, ring, limit);
  }

  /** The rescore share is the largest that keeps within the requested share and, while a QUALIFIED wallet
      waits, within a fifth of the batch. */
  lemma RefreshLimitIsLargest(limit: nat, qualifiedReady: nat, share: real, slots: nat)
    requires slots >= 1
    ensures slots <= RefreshLimit(limit, qualifiedReady, share) <==>
              && slots as real <= limit as real * share
              && slots <= limit
              && (qualifiedReady > 0 ==> 5 * slots <= limit)
  {
    var asked := limit as real * share;
    assert slots <= asked.Floor <==> slots as real <= asked;
  }

  /** The last decimal digit of a text stands at `i`. */
  predicate LastDigitAt(s: string, i: nat) {
    i < |s| && '0' <= s[i] <= '9' && forall j :: i < j < |s| ==> !('0' <= s[j] <= '9')
  }

  /** No digit, or an even last one. */
  ghost predicate EvenEnding(s: string) {
    forall i: nat :: LastDigitAt(s, i) ==> s[i] in ['0', '2', '4', '6', '8']
  }

  lemma {:induction false} LastDigitEvenExactly(s: string)
    ensures LastDigitEven(s) <==> EvenEnding(s)
  {
    if s != "" {
      var n := |s| - 1;
      if '0' <= s[n] <= '9' {
        assert LastDigitAt(s, n);
        DigitParity(s[n]);
        assert forall i: nat :: LastDigitAt(s, i) ==> i == n;
      } else {
        LastDigitEvenExactly(s[..n]);
        assert forall i: nat :: LastDigitAt(s, i) <==> LastDigitAt(s[..n], i);
      }
    }
  }

  lemma DigitParity(c: char)
    requires '0' <= c <= '9'
    ensures (c as int - '0' as int) % 2 == 0 <==> c in ['0', '2', '4', '6', '8']
  {
  }

  /** What rescoring does to a wallet: it is scored, queued and due now. One that was QUALIFIED joins the rotation
      at once, ranked 999, if its address ends evenly, and is SCORED outside otherwise; any other keeps its
      standing. Either way it owes no score today. */
  lemma RescoredRowExactly(w: Row, now: int)
    ensures
      var r := RescoredRow(w, now);
      && r.wallet == w.wallet && r.lastScoredAt == Some(now)
      && r.nextDeepAnalyzeAt == now && r.lastDeepQueuedAt == Some(now) && !PriorityDue(r, now)
      && (w.stage != QUALIFIED ==> r.stage == w.stage && r.rank == w.rank && r.inCopyPool == w.inCopyPool)
      && (w.stage == QUALIFIED && EvenEnding(w.wallet) ==> Rotates(r, now) && r.rank == Some(999))
      && (w.stage == QUALIFIED && !EvenEnding(w.wallet) ==>
            r.stage == SCORED && r.rank == w.rank && r.inCopyPool == w.inCopyPool)
  {
    LastDigitEvenExactly(w.wallet);
    hide LastDigitEven, EvenEnding;
  }

  /** What a deep batch is made of: the rescore slots, then the first waiting QUALIFIED wallets in table order,
      as many as places are left; the final slice cuts nothing. */
  lemma DeepBatchExactly(rows: seq<Row>, limit: nat, cursor: Cursor, share: real, now: int)
    requires DistinctWallets(rows)
    ensures
      var b := PickDeepBatch(rows, limit, cursor, share, now);
      var slots := PickRescoreSlots(rows, b.refreshLimit, cursor, now);
      && b.wallets == slots.wallets + Map(WalletOf, Take(Filter(WaitsBy(now), rows), limit - b.refreshLimit))
      && b.refreshLimit == RefreshLimit(limit, |Filter(WaitsBy(now), rows)|, share)
      && b.refreshLimit + b.pipelineLimit == limit
      && b.channel == slots.channel && b.cursor == slots.cursor && b.priorityDue == slots.priorityDue
  {
    FilterSame(QualifiedBy(now), WaitsBy(now), rows);
    hide PickRescoreSlots, Filter, Map, DistinctWallets;
    SlotsAreDistinct(rows, PickDeepBatch(rows, limit, cursor, share, now).refreshLimit, cursor, now);
  }

  /** The deep batch: at most `limit` distinct wallets; rescoring gets at most a fifth while a QUALIFIED wallet
      waits; and exactly `min(limit - refreshLimit, waiting)` QUALIFIED wallets are in it. */
  lemma DeepBatchKeepsQualifiedFloor(rows: seq<Row>, limit: nat, cursor: Cursor, share: real, now: int)
    requires DistinctWallets(rows)
    ensures
      var b := PickDeepBatch(rows, limit, cursor, share, now);
      var waiting := |Filter(WaitsBy(now), rows)|;
      && |b.wallets| <= limit && Distinct(b.wallets)
      && (waiting > 0 ==> b.refreshLimit <= limit - QualifiedFloor(limit) && 5 * b.refreshLimit <= limit)
      && |Filter(QualifiedIn(rows), b.wallets)| == Min(limit - b.refreshLimit, waiting)
  {
    DeepBatchExactly(rows, limit, cursor, share, now);
    var b, waiting := PickDeepBatch(rows, limit, cursor, share, now), |Filter(WaitsBy(now), rows)|;
    hide PickRescoreSlots, PickDeepBatch, QualifiedIn, Filter, Map, DistinctWallets, RefreshLimit, QualifiedFloor, WaitsBy;
    BatchParts(rows, b.refreshLimit, b.pipelineLimit, cursor, now);
    AtMostAFifth(limit, waiting, share);
  }

  /** Rescore slots and waiting QUALIFIED wallets never name the same wallet. */
  lemma BatchParts(rows: seq<Row>, slots: nat, places: nat, cursor: Cursor, now: int)
    requires DistinctWallets(rows)
    ensures
      var rescore := PickRescoreSlots(rows, slots, cursor, now).wallets;
      var qualified := Map(WalletOf, Take(Filter(WaitsBy(now), rows), places));
      && |rescore| <= slots && Distinct(rescore + qualified)
      && |Filter(QualifiedIn(rows), rescore + qualified)| == Min(places, |Filter(WaitsBy(now), rows)|)
  {
    hide PickRescoreSlots, QualifiedIn, Filter, Map, DistinctWallets, WaitsBy, Distinct;
    SlotsAreDistinct(rows, slots, cursor, now);
    QualifiedPart(rows, places, now);
    JoinDistinct(QualifiedIn(rows), PickRescoreSlots(rows, slots, cursor, now).wallets,
                 Map(WalletOf, Take(Filter(WaitsBy(now), rows), places)));
  }

  lemma AtMostAFifth(limit: nat, waiting: nat, share: real)
    ensures
      var slots := RefreshLimit(limit, waiting, share);
      waiting > 0 ==> 5 * slots <= limit && slots <= limit - QualifiedFloor(limit)
  {
    var slots := RefreshLimit(limit, waiting, share);
    if slots > 0 {
      RefreshLimitIsLargest(limit, waiting, share, slots);
    }
    hide RefreshLimit;
  }

  lemma QualifiedPart(rows: seq<Row>, limit: nat, now: int)
    requires DistinctWallets(rows)
    ensures
      var qualified := Map(WalletOf, Take(Filter(WaitsBy(now), rows), limit));
      Distinct(qualified) && forall x :: x in qualified ==> QualifiedIn(rows)(x)
  {
    hide Map, Filter;
    var ready := Filter(WaitsBy(now), rows);
    var qualified := Map(WalletOf, Take(ready, limit));
    assert Distinct(Map(WalletOf, rows));
    FilterDistinct(WaitsBy(now), WalletOf, rows);
    FilterMembers(WaitsBy(now), rows);
    MapTakeDistinct(WalletOf, ready, limit);
    forall x | x in qualified ensures QualifiedIn(rows)(x) {
      var i :| 0 <= i < |qualified| && qualified[i] == x;
      assert ready[i] in ready;
    }
  }
}
