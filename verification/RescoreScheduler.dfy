/** The dual-channel rescore scheduler: a TopN priority channel that preempts a cursor-driven
    background rotation, and the deep batch that keeps a floor for QUALIFIED wallets. */
module RescoreScheduler {
  import opened Options
  import opened Seqs
  import opened StringOrder

  const DAY := 86_400_000
  const TOP_N := 100

  datatype Stage = QUALIFIED | COPY_POOL | SCORED

  datatype Row = Row(
    wallet: string,
    stage: Stage,
    rank: Option<int>,
    inCopyPool: bool,
    lastScoredAt: Option<int>,
    nextDeepAnalyzeAt: int,
    lastDeepQueuedAt: Option<int>)

  datatype Cursor = Cursor(lastRank: Option<int>, lastWallet: Option<string>)

  const START := Cursor(None, None)

  datatype Channel = Priority | Background

  datatype Slots = Slots(wallets: seq<string>, channel: Channel, cursor: Cursor, priorityDue: nat)

  datatype Batch = Batch(wallets: seq<string>, cursor: Cursor)

  datatype DeepBatch = DeepBatch(
    wallets: seq<string>,
    channel: Channel,
    cursor: Cursor,
    refreshLimit: nat,
    pipelineLimit: nat,
    priorityDue: nat)

  function WalletOf(w: Row): string {
    w.wallet
  }

  predicate IsScoredToday(w: Row, now: int) {
    w.lastScoredAt.Some? && w.lastScoredAt.value / DAY == now / DAY
  }

  // ------------------------------------------------------------ priority channel

  predicate PriorityDue(w: Row, now: int) {
    && w.inCopyPool && w.stage == COPY_POOL
    && w.rank.Some? && 1 <= w.rank.value <= TOP_N
    && !IsScoredToday(w, now)
  }

  predicate PriorityReady(w: Row, now: int) {
    PriorityDue(w, now) && w.nextDeepAnalyzeAt <= now
  }

  function DueBy(now: int): Row -> bool {
    (w: Row) => PriorityDue(w, now)
  }

  function ReadyBy(now: int): Row -> bool {
    (w: Row) => PriorityReady(w, now)
  }

  function CountPriorityDue(rows: seq<Row>, now: int): nat {
    |Filter(DueBy(now), rows)|
  }

  predicate PriorityLe(a: Row, b: Row) {
    var ra, rb := a.rank.GetOr(0), b.rank.GetOr(0);
    if ra != rb then ra < rb else Compare(a.wallet, b.wallet) <= 0
  }

  function PickPriority(rows: seq<Row>, limit: nat, now: int): seq<string> {
    Map(WalletOf, Take(Sort(PriorityLe, Filter(ReadyBy(now), rows)), limit))
  }

  // ------------------------------------------------------------ background channel

  /** NULLS FIRST, then rank ascending, then wallet. */
  function CompareBg(a: Row, b: Row): int {
    if a.rank.None? && b.rank.Some? then -1
    else if a.rank.Some? && b.rank.None? then 1
    else if a.rank.Some? && b.rank.Some? && a.rank != b.rank then a.rank.value - b.rank.value
    else Compare(a.wallet, b.wallet)
  }

  predicate BgLe(a: Row, b: Row) {
    CompareBg(a, b) <= 0
  }

  predicate AfterCursor(w: Row, cursor: Cursor) {
    if cursor.lastWallet.None? && cursor.lastRank.None? then true
    else if cursor.lastRank.None? then
      if w.rank.None? then Before(cursor.lastWallet.GetOr(""), w.wallet) else w.rank.value > TOP_N
    else if w.rank.None? then false
    else if w.rank.value > cursor.lastRank.value then true
    else w.rank == cursor.lastRank && Before(cursor.lastWallet.GetOr(""), w.wallet)
  }

  predicate BackgroundReady(w: Row, now: int) {
    && w.inCopyPool && w.stage == COPY_POOL
    && (w.rank.None? || w.rank.value > TOP_N)
    && w.nextDeepAnalyzeAt <= now
  }

  function BackgroundBy(now: int): Row -> bool {
    (w: Row) => BackgroundReady(w, now)
  }

  function AfterBy(cursor: Cursor): Row -> bool {
    (w: Row) => AfterCursor(w, cursor)
  }

  function BackgroundAfterBy(now: int, cursor: Cursor): Row -> bool {
    (w: Row) => BackgroundReady(w, now) && AfterCursor(w, cursor)
  }

  function CursorAt(w: Row): Cursor {
    Cursor(w.rank, Some(w.wallet))
  }

  function PickBackground(rows: seq<Row>, limit: nat, cursor: Cursor, now: int): Batch {
    var eligible := Sort(BgLe, Filter(BackgroundAfterBy(now, cursor), rows));
    var ahead := Take(eligible, limit);
    var wrapped := |ahead| == 0 && (cursor.lastWallet.Some? || cursor.lastRank.Some?);
    var batch := if wrapped then Take(Sort(BgLe, Filter(BackgroundBy(now), rows)), limit) else ahead;
    if |batch| == 0 then Batch([], if wrapped then START else cursor)
    else Batch(Map(WalletOf, batch), CursorAt(batch[|batch| - 1]))
  }

  // ------------------------------------------------------------ both channels

  function PickRescoreSlots(rows: seq<Row>, limit: nat, cursor: Cursor, now: int): Slots {
    var due := CountPriorityDue(rows, now);
    var wallets := PickPriority(rows, limit, now);
    if due > 0 && |wallets| > 0 then Slots(wallets, Priority, cursor, due)
    else
      var bg := PickBackground(rows, limit, cursor, now);
      Slots(bg.wallets, Background, bg.cursor, due)
  }

  predicate QualifiedReady(w: Row, now: int) {
    w.stage == QUALIFIED && w.nextDeepAnalyzeAt <= now
  }

  function QualifiedBy(now: int): Row -> bool {
    (w: Row) => QualifiedReady(w, now)
  }

  function Max(a: int, b: int): int { if a < b then b else a }

  function Min(a: int, b: int): int { if a < b then a else b }

  /** `Math.ceil(limit * 0.8)`, with the share as the exact fraction 4/5. */
  function QualifiedFloor(limit: nat): nat {
    (4 * limit + 4) / 5
  }

  function RefreshLimit(limit: nat, qualifiedReady: nat, refreshShare: real): nat {
    var maxRefresh := if qualifiedReady > 0 then Max(0, limit - QualifiedFloor(limit)) else limit;
    Max(0, Min((limit as real * refreshShare).Floor, maxRefresh))
  }

  function PickDeepBatch(rows: seq<Row>, limit: nat, cursor: Cursor, refreshShare: real, now: int): DeepBatch {
    var qualifiedReady := |Filter(QualifiedBy(now), rows)|;
    var refreshLimit := RefreshLimit(limit, qualifiedReady, refreshShare);
    var pipelineLimit := Max(0, limit - refreshLimit);
    var rescore := PickRescoreSlots(rows, refreshLimit, cursor, now);
    var qualified := Map(WalletOf, Take(Filter(QualifiedBy(now), rows), pipelineLimit));
    DeepBatch(Take(rescore.wallets + qualified, limit), rescore.channel, rescore.cursor,
              refreshLimit, pipelineLimit, rescore.priorityDue)
  }

  // ------------------------------------------------------------ rescoring

  /** The last decimal digit of the wallet text is even; a wallet without digits counts as 0. */
  predicate LastDigitEven(wallet: string) {
    if wallet == "" then true
    else
      var c := wallet[|wallet| - 1];
      if '0' <= c <= '9' then (c as int - '0' as int) % 2 == 0
      else LastDigitEven(wallet[..|wallet| - 1])
  }

  function RescoredRow(w: Row, now: int): Row {
    var scored := w.(lastScoredAt := Some(now), nextDeepAnalyzeAt := now, lastDeepQueuedAt := Some(now));
    if w.stage != QUALIFIED then scored
    else if LastDigitEven(w.wallet) then scored.(stage := COPY_POOL, inCopyPool := true, rank := Some(999))
    else scored.(stage := SCORED)
  }

  /** Rescores the first row with this wallet; no such row, no change. */
  function Rescore(rows: seq<Row>, wallet: string, now: int): (r: seq<Row>)
    ensures |r| == |rows|
  {
    if rows == [] then []
    else if rows[0].wallet == wallet then [RescoredRow(rows[0], now)] + rows[1..]
    else [rows[0]] + Rescore(rows[1..], wallet, now)
  }

  function RescoreAll(rows: seq<Row>, wallets: seq<string>, now: int): seq<Row>
    decreases |wallets|
  {
    if wallets == [] then rows else RescoreAll(Rescore(rows, wallets[0], now), wallets[1..], now)
  }

  ghost predicate DistinctWallets(rows: seq<Row>) {
    forall i, j :: 0 <= i < j < |rows| ==> rows[i].wallet != rows[j].wallet
  }

  lemma {:induction false} RescoreAt(rows: seq<Row>, i: nat, now: int)
    requires i < |rows| && DistinctWallets(rows)
    ensures Rescore(rows, rows[i].wallet, now) == rows[i := RescoredRow(rows[i], now)]
  {
    if i > 0 {
      RescoreAt(rows[1..], i - 1, now);
      assert rows[1..][i - 1 := RescoredRow(rows[i], now)] == rows[i := RescoredRow(rows[i], now)][1..];
    }
  }

  lemma {:induction false} RescoreAbsent(rows: seq<Row>, wallet: string, now: int)
    requires forall w :: w in rows ==> w.wallet != wallet
    ensures Rescore(rows, wallet, now) == rows
  {
    if rows != [] {
      RescoreAbsent(rows[1..], wallet, now);
    }
  }
}
