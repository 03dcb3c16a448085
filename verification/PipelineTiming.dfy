/** What time and failures do over the runs of the pipeline: a QUALIFIED wallet is always due, an outage changes
    no standing, and live profile fetches of a wallet are more than 45 minutes apart. */
module PipelineTiming {
  import opened Options
  import opened Seqs
  import opened PipelineRules
  import opened RankFlush
  import opened PipelineLaws
  import opened DeepPicker

  // ------------------------------------------------------------ QUALIFIED wallets are due

  predicate QualifiedDue(r: Row, now: int) {
    r.stage == QUALIFIED ==> r.nextDeepAnalyzeAt.Some? && r.nextDeepAnalyzeAt.value <= now
  }

  ghost predicate QualifiedAreDue(s: System) {
    forall i :: 0 <= i < |s.rows| ==> QualifiedDue(s.rows[i], s.now)
  }

  lemma DeepKeepsQualifiedDue(r: Row, now: int, opts: DeepOpts)
    ensures QualifiedDue(DeepRow(r, now, opts), now)
  {
    hide ResolveProfileSource;
  }

  lemma FlushKeepsQualifiedDue(rows: seq<Row>, i: nat, now: int)
    requires i < |rows| && QualifiedDue(rows[i], now)
    ensures QualifiedDue(FlushRows(rows)[i], now)
  {
    RankIsPlace(rows, i);
    hide FlushRows;
  }

  lemma StepKeepsQualifiedDue(s: System, e: Event)
    requires Enabled(s, e) && QualifiedAreDue(s)
    ensures QualifiedAreDue(Step(s, e))
  {
    match e
    case Ingest(_, _) =>
    case Light(_, _) =>
    case Deep(w, opts) =>
      DeepKeepsQualifiedDue(s.rows[IndexOf(s.rows, w)], s.now, opts);
      hide DeepRow;
    case Flush =>
      forall i | 0 <= i < |s.rows| ensures QualifiedDue(FlushRows(s.rows)[i], s.now) {
        FlushKeepsQualifiedDue(s.rows, i, s.now);
      }
      hide FlushRows;
    case Advance(_) =>
  }

  lemma {:induction false} RunKeepsQualifiedDue(s: System, events: seq<Event>)
    requires ValidRun(s, events) && QualifiedAreDue(s)
    ensures QualifiedAreDue(Run(s, events))
    decreases |events|
  {
    hide QualifiedAreDue, Step, Enabled;
    if events != [] {
      StepKeepsQualifiedDue(s, events[0]);
      RunKeepsQualifiedDue(Step(s, events[0]), events[1..]);
    }
  }

  /** While QUALIFIED wallets are due, the deep picker comes back empty exactly when no work is due, at every
      limit and under overload too. */
  lemma PickDeepNeverOverlooksWork(s: System, limit: nat, share: real)
    requires QualifiedAreDue(s) && share >= 0.0 && limit >= 1
    ensures PickDeep(s.rows, limit, share, s.now) == [] <==> !WorkDue(s.rows, s.now)
  {
    hide PickDeep, WorkDue, Refresh, RefreshSlots;
    PickDeepEmptyExactly(s.rows, limit, share, s.now);
    NonEmptyFilter(WaitingQualified, s.rows);
    hide Filter;
    if Overloaded(s.rows) {
      var r :| r in s.rows && WaitingQualified(r);
      assert QualifiedDue(r, s.now);
      assert QualifiedDueBy(s.now)(r);
    }
  }

  /** So it is in every state that the pipeline reaches. */
  lemma ReachablePickDeepEmptyExactly(now: int, events: seq<Event>, limit: nat, share: real)
    requires ValidRun(System([], now), events) && share >= 0.0 && limit >= 1
    ensures
      var s := Run(System([], now), events);
      PickDeep(s.rows, limit, share, s.now) == [] <==> !WorkDue(s.rows, s.now)
  {
    hide PickDeep, WorkDue;
    RunKeepsQualifiedDue(System([], now), events);
    PickDeepNeverOverlooksWork(Run(System([], now), events), limit, share);
  }

  // ------------------------------------------------------------ a table that no run reaches

  function Cooling(i: nat): Row {
    NewRow(seq(i + 1, _ => 'q'), "", 0).(stage := QUALIFIED, nextDeepAnalyzeAt := Some(1))
  }

  function Waiting(): Row {
    NewRow("s", "", 0).(stage := SCORED)
  }

  /** Six QUALIFIED wallets that are not due and one SCORED wallet that is. */
  function CoolingQueue(): (rows: seq<Row>)
    ensures |rows| == 7
  {
    seq(6, i requires 0 <= i < 6 => Cooling(i)) + [Waiting()]
  }

  /** On an arbitrary table a limit of 1 can overlook due work: the queue is overloaded with QUALIFIED wallets,
      the one place is kept for them, and none of them is due. */
  lemma OnePlaceOverlooksWork()
    ensures
      var rows := CoolingQueue();
      && DistinctWallets(rows) && WorkDue(rows, 0) && PickDeep(rows, 1, 0.2, 0) == []
  {
    var rows := CoolingQueue();
    CoolingQueueIsDistinct();
    CoolingQueueIsOverloaded();
    NoQualifiedIsDue();
    assert QueueDueBy(0)(rows[6]) && rows[6] in rows;
    hide CoolingQueue, PickDeep, Overloaded, QualifiedDueBy, Refresh, RefreshSlots, DistinctWallets;
    NothingToRefresh(rows);
    PickDeepEmptyExactly(rows, 1, 0.2, 0);
  }

  lemma CoolingQueueIsDistinct()
    ensures DistinctWallets(CoolingQueue())
  {
    var rows := CoolingQueue();
    forall i, j | 0 <= i < j < 7 ensures rows[i].wallet != rows[j].wallet {
      if j == 6 {
        assert rows[i].wallet[0] == 'q';
      } else {
        assert |rows[i].wallet| == i + 1 && |rows[j].wallet| == j + 1;
      }
    }
  }

  lemma CoolingQueueIsOverloaded()
    ensures Overloaded(CoolingQueue())
  {
    var cooling := CoolingQueue()[..6];
    assert CoolingQueue() == cooling + [Waiting()];
    assert forall r :: r in cooling ==> WaitingQualified(r);
    hide CoolingQueue, Filter;
    FilterConcat(WaitingQualified, cooling, [Waiting()]);
    FilterAll(WaitingQualified, cooling);
  }

  lemma NoQualifiedIsDue()
    ensures forall r :: r in CoolingQueue() ==> !QualifiedDueBy(0)(r)
  {
    var rows := CoolingQueue();
    forall r | r in rows ensures !QualifiedDueBy(0)(r) {
      var i :| 0 <= i < 7 && rows[i] == r;
      assert i < 6 ==> r.nextDeepAnalyzeAt == Some(1);
    }
  }

  lemma NothingToRefresh(rows: seq<Row>)
    ensures Refresh(rows, RefreshSlots(1, 0.2), 0) == []
  {
    assert RefreshSlots(1, 0.2) == 0;
    hide Sort, Filter;
  }

  // ------------------------------------------------------------ outages

  /** Only the clock moves and deep analyses fail. */
  predicate IsOutage(events: seq<Event>) {
    forall e :: e in events ==> e.Advance? || (e.Deep? && e.opts.throwError)
  }

  predicate SameStanding(a: Row, b: Row) {
    && a.wallet == b.wallet && a.stage == b.stage && a.score == b.score && a.inCopyPool == b.inCopyPool
    && a.rank == b.rank && a.copyPoolMissCount == b.copyPoolMissCount
  }

  lemma OutageStep(s: System, e: Event, i: nat)
    requires Enabled(s, e) && IsOutage([e]) && i < |s.rows|
    ensures |Step(s, e).rows| == |s.rows| && SameStanding(s.rows[i], Step(s, e).rows[i])
  {
    assert e in [e];
    if e.Deep? && i == IndexOf(s.rows, e.wallet) {
      FailedAnalysisRetriesAtOnce(s.rows[i], s.now, e.opts);
      DeepKeepsWallet(s.rows[i], s.now, e.opts);
    }
    hide DeepRow;
  }

  lemma DeepKeepsWallet(r: Row, now: int, opts: DeepOpts)
    ensures DeepRow(r, now, opts).wallet == r.wallet
  {
    hide QueuedRow;
    QueuedKeepsRow(r, now);
  }

  /** However long an outage lasts and whatever is retried in it, every wallet keeps its stage, score, pool
      place, rank and misses. */
  lemma {:induction false} OutageChangesNoStanding(s: System, events: seq<Event>, i: nat)
    requires ValidRun(s, events) && IsOutage(events) && i < |s.rows|
    ensures |Run(s, events).rows| == |s.rows| && SameStanding(s.rows[i], Run(s, events).rows[i])
    decreases |events|
  {
    hide Step, Enabled;
    if events != [] {
      assert events[0] in events;
      assert forall e :: e in events[1..] ==> e in events;
      OutageStep(s, events[0], i);
      OutageChangesNoStanding(Step(s, events[0]), events[1..], i);
    }
  }

  // ------------------------------------------------------------ live fetches are spaced

  /** A row that has been analysed, and its next state: the profile is the same, or was fetched again more than
      45 minutes after it. */
  predicate Spaced(before: Row, after: Row) {
    && before.stage != RAW && after.stage != RAW
    && before.profileFetchedAt.Some? && after.profileFetchedAt.Some?
    && (after.profileFetchedAt == before.profileFetchedAt ||
        after.profileFetchedAt.value > before.profileFetchedAt.value + 45 * 60_000)
  }

  lemma DeepIsSpaced(r: Row, now: int, opts: DeepOpts)
    requires InDeepQueue(r) && r.profileFetchedAt.Some?
    ensures Spaced(r, DeepRow(r, now, opts))
  {
    ProfileIsFresh(r, now, opts);
    DeepIsNotRaw(r, now, opts);
    hide DeepRow;
  }

  lemma DeepIsNotRaw(r: Row, now: int, opts: DeepOpts)
    requires InDeepQueue(r)
    ensures DeepRow(r, now, opts).stage != RAW
  {
    hide ResolveProfileSource;
  }

  lemma StepIsSpaced(s: System, e: Event, i: nat)
    requires Enabled(s, e) && i < |s.rows| && s.rows[i].stage != RAW && s.rows[i].profileFetchedAt.Some?
    ensures i < |Step(s, e).rows| && Spaced(s.rows[i], Step(s, e).rows[i])
  {
    match e
    case Ingest(_, _) =>
    case Light(_, _) =>
    case Deep(w, opts) =>
      if i == IndexOf(s.rows, w) {
        DeepIsSpaced(s.rows[i], s.now, opts);
      }
      hide DeepRow;
    case Flush =>
      RankIsPlace(s.rows, i);
      hide FlushRows;
    case Advance(_) =>
  }

  /** Over any run, once a wallet's profile was fetched it is fetched again only when it is more than 45 minutes
      old, and the wallet never becomes RAW again. */
  lemma {:induction false} ProfileFetchesAreSpaced(s: System, events: seq<Event>, i: nat)
    requires ValidRun(s, events)
    requires i < |s.rows| && s.rows[i].stage != RAW && s.rows[i].profileFetchedAt.Some?
    ensures i < |Run(s, events).rows| && Spaced(s.rows[i], Run(s, events).rows[i])
    decreases |events|
  {
    hide Step, Enabled;
    if events != [] {
      StepIsSpaced(s, events[0], i);
      ProfileFetchesAreSpaced(Step(s, events[0]), events[1..], i);
    }
  }
}
