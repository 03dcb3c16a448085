/** Repeated picking and analysing drains the deep queue, with rank flushes in between or without. */
module DeepDrain {
  import opened Options
  import opened Seqs
  import opened PipelineRules
  import opened RankFlush
  import opened PipelineLaws
  import opened DeepPicker

  /** A round: the clock it runs at, how each analysis turns out, and whether the ranks are flushed after it. */
  datatype Tick = Tick(now: int, plan: string -> DeepOpts, flush: bool)

  function Analyze(rows: seq<Row>, wallet: string, now: int, opts: DeepOpts): (r: seq<Row>)
    ensures |r| == |rows|
  {
    var i := IndexOf(rows, wallet);
    if i == |rows| then rows else rows[i := DeepRow(rows[i], now, opts)]
  }

  function AnalyzeAll(rows: seq<Row>, wallets: seq<string>, t: Tick): seq<Row>
    decreases |wallets|
  {
    if wallets == [] then rows
    else AnalyzeAll(Analyze(rows, wallets[0], t.now, t.plan(wallets[0])), wallets[1..], t)
  }

  /** Rows that are or become due before `horizon`. */
  function PendingBy(horizon: int): Row -> bool {
    (r: Row) => !r.dormant && InDeepQueue(r) && (r.nextDeepAnalyzeAt.None? || r.nextDeepAnalyzeAt.value < horizon)
  }

  function Pending(rows: seq<Row>, horizon: int): nat {
    |Filter(PendingBy(horizon), rows)|
  }

  /** What a flush relies on: pooled rows wait in the deep queue. Every reachable state has it. */
  ghost predicate PooledAreQueued(rows: seq<Row>) {
    forall i :: 0 <= i < |rows| && rows[i].inCopyPool ==> InDeepQueue(rows[i])
  }

  lemma InvPooledAreQueued(rows: seq<Row>)
    requires Inv(rows)
    ensures PooledAreQueued(rows)
  {
    forall i | 0 <= i < |rows| && rows[i].inCopyPool ensures InDeepQueue(rows[i]) {
      assert RowInv(rows[i]);
    }
  }

  /** An analysis that does not throw takes its wallet out of the pending rows, and only that one. */
  lemma AnalysisSettlesOne(rows: seq<Row>, wallet: string, now: int, opts: DeepOpts, horizon: int)
    requires DistinctWallets(rows) && DueInQueue(rows, wallet, now)
    requires !opts.throwError && now < horizon <= now + WEEK
    ensures
      var rows' := Analyze(rows, wallet, now, opts);
      && Pending(rows', horizon) == Pending(rows, horizon) - 1
      && DistinctWallets(rows') && (PooledAreQueued(rows) ==> PooledAreQueued(rows'))
      && forall other :: other != wallet && DueInQueue(rows, other, now) ==> DueInQueue(rows', other, now)
  {
    var r :| r in rows && r.wallet == wallet && DeepDue(r, now) && InDeepQueue(r);
    var i := IndexOf(rows, wallet);
    var k :| 0 <= k < |rows| && rows[k] == r;
    assert k == i;
    var after := DeepRow(r, now, opts);
    FilterUpdateCount(PendingBy(horizon), rows, i, after);
    SettledRow(r, now, opts, horizon);
    hide DeepRow, Filter, InDeepQueue, DeepDue;
    var rows' := rows[i := after];
    assert DistinctWallets(rows');
    forall other | other != wallet && DueInQueue(rows, other, now) ensures DueInQueue(rows', other, now) {
      var v :| v in rows && v.wallet == other && DeepDue(v, now) && InDeepQueue(v);
      var j :| 0 <= j < |rows| && rows[j] == v;
      assert rows'[j] == v;
    }
  }

  lemma SettledRow(r: Row, now: int, opts: DeepOpts, horizon: int)
    requires DeepDue(r, now) && InDeepQueue(r) && !opts.throwError && now < horizon <= now + WEEK
    ensures PendingBy(horizon)(r) && !PendingBy(horizon)(DeepRow(r, now, opts))
    ensures DeepRow(r, now, opts).wallet == r.wallet
    ensures DeepRow(r, now, opts).inCopyPool ==> InDeepQueue(DeepRow(r, now, opts))
  {
    hide QueuedRow;
    QueuedKeepsRow(r, now);
  }

  lemma {:induction false} RoundSettlesAll(rows: seq<Row>, wallets: seq<string>, t: Tick, horizon: int)
    requires DistinctWallets(rows) && Distinct(wallets)
    requires forall x :: x in wallets ==> DueInQueue(rows, x, t.now)
    requires (forall x :: !t.plan(x).throwError) && t.now < horizon <= t.now + WEEK
    ensures
      var rows' := AnalyzeAll(rows, wallets, t);
      && Pending(rows', horizon) == Pending(rows, horizon) - |wallets|
      && DistinctWallets(rows') && (PooledAreQueued(rows) ==> PooledAreQueued(rows'))
    decreases |wallets|
  {
    hide DueInQueue, Pending, Analyze, DistinctWallets, PooledAreQueued;
    if wallets != [] {
      var rows' := Analyze(rows, wallets[0], t.now, t.plan(wallets[0]));
      AnalysisSettlesOne(rows, wallets[0], t.now, t.plan(wallets[0]), horizon);
      forall x | x in wallets[1..] ensures x != wallets[0] && x in wallets {
        var j :| 0 <= j < |wallets[1..]| && wallets[1..][j] == x;
        assert wallets[j + 1] == x;
      }
      RoundSettlesAll(rows', wallets[1..], t, horizon);
    }
  }

  /** A flush moves no row into or out of the pending ones. */
  lemma FlushKeepsPending(rows: seq<Row>, horizon: int)
    requires DistinctWallets(rows) && PooledAreQueued(rows)
    ensures Pending(FlushRows(rows), horizon) == Pending(rows, horizon)
    ensures DistinctWallets(FlushRows(rows)) && PooledAreQueued(FlushRows(rows))
  {
    var after := FlushRows(rows);
    forall i | 0 <= i < |rows|
      ensures PendingBy(horizon)(after[i]) == PendingBy(horizon)(rows[i])
      ensures after[i].wallet == rows[i].wallet && (after[i].inCopyPool ==> InDeepQueue(after[i]))
    {
      RankIsPlace(rows, i);
      hide FlushRows;
    }
    hide FlushRows, InDeepQueue;
    SameCount(PendingBy(horizon), PendingBy(horizon), after, rows);
  }

  // ------------------------------------------------------------ rounds

  /** The rows after one round: `pickDeep`, analysing what it picked, and perhaps a flush. */
  function Round(rows: seq<Row>, t: Tick, limit: nat, share: real): seq<Row>
    requires share >= 0.0
  {
    var analysed := AnalyzeAll(rows, PickDeep(rows, limit, share, t.now), t);
    if t.flush then FlushRows(analysed) else analysed
  }

  function Drain(rows: seq<Row>, ticks: seq<Tick>, limit: nat, share: real): seq<Row>
    requires share >= 0.0
    decreases |ticks|
  {
    if ticks == [] then rows else Drain(Round(rows, ticks[0], limit, share), ticks[1..], limit, share)
  }

  /** How many wallets those rounds analyse. */
  function Analysed(rows: seq<Row>, ticks: seq<Tick>, limit: nat, share: real): nat
    requires share >= 0.0
    decreases |ticks|
  {
    if ticks == [] then 0
    else
      |PickDeep(rows, limit, share, ticks[0].now)|
      + Analysed(Round(rows, ticks[0], limit, share), ticks[1..], limit, share)
  }

  /** How many of those rounds pick anything. */
  function BusyRounds(rows: seq<Row>, ticks: seq<Tick>, limit: nat, share: real): nat
    requires share >= 0.0
    decreases |ticks|
  {
    if ticks == [] then 0
    else
      (if PickDeep(rows, limit, share, ticks[0].now) != [] then 1 else 0)
      + BusyRounds(Round(rows, ticks[0], limit, share), ticks[1..], limit, share)
  }

  /** A round within seven days before `horizon` in which no analysis throws. */
  ghost predicate Calm(t: Tick, horizon: int) {
    t.now < horizon <= t.now + WEEK && forall x :: !t.plan(x).throwError
  }

  ghost predicate CalmTicks(rows: seq<Row>, ticks: seq<Tick>, horizon: int) {
    && (forall k :: 0 <= k < |ticks| ==> Calm(ticks[k], horizon))
    && (PooledAreQueued(rows) || forall k :: 0 <= k < |ticks| ==> !ticks[k].flush)
  }

  lemma CalmTail(rows: seq<Row>, rows': seq<Row>, ticks: seq<Tick>, horizon: int)
    requires CalmTicks(rows, ticks, horizon) && ticks != [] && (PooledAreQueued(rows) ==> PooledAreQueued(rows'))
    ensures Calm(ticks[0], horizon) && (ticks[0].flush ==> PooledAreQueued(rows))
    ensures CalmTicks(rows', ticks[1..], horizon)
  {
    hide PooledAreQueued, Calm;
  }

  /** One round settles exactly what it picks. */
  lemma OneRound(rows: seq<Row>, t: Tick, limit: nat, share: real, horizon: int)
    requires DistinctWallets(rows) && share >= 0.0
    requires Calm(t, horizon) && (t.flush ==> PooledAreQueued(rows))
    ensures
      var rows' := Round(rows, t, limit, share);
      && Pending(rows', horizon) == Pending(rows, horizon) - |PickDeep(rows, limit, share, t.now)|
      && DistinctWallets(rows') && (PooledAreQueued(rows) ==> PooledAreQueued(rows'))
  {
    var picked := PickDeep(rows, limit, share, t.now);
    TakeDedupDistinct(DeepCandidates(rows, limit, share, t.now), limit);
    hide DueInQueue, Pending, PooledAreQueued, DistinctWallets;
    forall x | x in picked ensures DueInQueue(rows, x, t.now) {
      PickedAreDue(rows, limit, share, t.now, x);
    }
    hide PickDeep;
    RoundSettlesAll(rows, picked, t, horizon);
    if t.flush {
      FlushKeepsPending(AnalyzeAll(rows, picked, t), horizon);
    }
  }

  /** The drain terminates. While the clock stays within seven days before `horizon` and no analysis throws,
      every analysis settles one pending wallet for good, so no more rounds can be busy than there are wallets
      pending at the start. */
  lemma {:induction false} DrainTerminates(rows: seq<Row>, ticks: seq<Tick>, limit: nat, share: real, horizon: int)
    requires DistinctWallets(rows) && share >= 0.0 && CalmTicks(rows, ticks, horizon)
    ensures Pending(Drain(rows, ticks, limit, share), horizon) ==
            Pending(rows, horizon) - Analysed(rows, ticks, limit, share)
    ensures BusyRounds(rows, ticks, limit, share) <= Pending(rows, horizon)
    decreases |ticks|
  {
    hide Pending, Round, PickDeep, DistinctWallets, CalmTicks, PooledAreQueued, Calm;
    if ticks != [] {
      var rows' := Round(rows, ticks[0], limit, share);
      CalmTail(rows, rows, ticks, horizon);
      OneRound(rows, ticks[0], limit, share, horizon);
      CalmTail(rows, rows', ticks, horizon);
      DrainTerminates(rows', ticks[1..], limit, share, horizon);
    }
  }

  /** Among one round more than there are wallets pending, one finds no work due: with a limit of 2 or more the
      queue is drained by then. */
  lemma {:induction false} SomeRoundFindsNoWork(rows: seq<Row>, ticks: seq<Tick>, limit: nat, share: real, horizon: int)
    returns (k: nat)
    requires DistinctWallets(rows) && share >= 0.0 && limit >= 2 && CalmTicks(rows, ticks, horizon)
    requires |ticks| > Pending(rows, horizon)
    ensures k <= Pending(rows, horizon) && k < |ticks|
    ensures !WorkDue(Drain(rows, ticks[..k], limit, share), ticks[k].now)
    decreases |ticks|
  {
    hide Pending, Round, PickDeep, DistinctWallets, CalmTicks, PooledAreQueued, Calm, WorkDue, Refresh, Overloaded;
    PickDeepEmptyExactly(rows, limit, share, ticks[0].now);
    if PickDeep(rows, limit, share, ticks[0].now) == [] {
      k := 0;
      assert Drain(rows, ticks[..0], limit, share) == rows;
    } else {
      var rows' := Round(rows, ticks[0], limit, share);
      CalmTail(rows, rows, ticks, horizon);
      OneRound(rows, ticks[0], limit, share, horizon);
      CalmTail(rows, rows', ticks, horizon);
      var j := SomeRoundFindsNoWork(rows', ticks[1..], limit, share, horizon);
      k := j + 1;
      assert ticks[..k][1..] == ticks[1..][..j];
    }
  }
}
