/** What every run of the pipeline keeps. */
module PipelineLaws {
  import opened Options
  import opened Seqs
  import opened Texts
  import opened PipelineRules
  import opened RankFlush

  // ------------------------------------------------------------ runs

  datatype System = System(rows: seq<Row>, now: int)

  datatype Event =
    | Ingest(wallet: string, source: string)
    | Light(wallet: string, profile: Profile)
    | Deep(wallet: string, opts: DeepOpts)
    | Flush
    | Advance(ms: nat)

  /** Light analysis takes a RAW wallet, deep analysis one that waits in the deep queue. */
  predicate Enabled(s: System, e: Event) {
    match e
    case Light(w, _) => var i := IndexOf(s.rows, w); i < |s.rows| && s.rows[i].stage == RAW
    case Deep(w, _) => var i := IndexOf(s.rows, w); i < |s.rows| && InDeepQueue(s.rows[i])
    case _ => true
  }

  function Step(s: System, e: Event): System
    requires Enabled(s, e)
  {
    match e
    case Ingest(w, source) => s.(rows := IngestRows(s.rows, w, source, s.now))
    case Light(w, p) => var i := IndexOf(s.rows, w); s.(rows := s.rows[i := LightRow(s.rows[i], s.now, p)])
    case Deep(w, opts) => var i := IndexOf(s.rows, w); s.(rows := s.rows[i := DeepRow(s.rows[i], s.now, opts)])
    case Flush => s.(rows := FlushRows(s.rows))
    case Advance(ms) => s.(now := s.now + ms)
  }

  predicate ValidRun(s: System, events: seq<Event>)
    decreases |events|
  {
    events == [] || (Enabled(s, events[0]) && ValidRun(Step(s, events[0]), events[1..]))
  }

  function Run(s: System, events: seq<Event>): System
    requires ValidRun(s, events)
    decreases |events|
  {
    if events == [] then s else Run(Step(s, events[0]), events[1..])
  }

  // ------------------------------------------------------------ the invariant

  /** A row at rest. A pooled row is either above the exit line with no miss, or on its one allowed
      miss, at or below the line and shown as SCORED. */
  predicate RowInv(r: Row) {
    && r.stage != LIGHT_ANALYZING && r.stage != FULL_ANALYZING
    && 0 <= r.copyPoolMissCount < EXIT_MISS
    && (r.stage == COPY_POOL ==> r.inCopyPool)
    && (r.rank.Some? ==> r.inCopyPool)
    && (r.inCopyPool ==>
          && r.score.Some?
          && ((r.stage == COPY_POOL && r.score.value > EXIT && r.copyPoolMissCount == 0) ||
              (r.stage == SCORED && r.score.value <= EXIT && r.copyPoolMissCount == 1)))
  }

  ghost predicate DistinctWallets(rows: seq<Row>) {
    forall i, j :: 0 <= i < j < |rows| ==> rows[i].wallet != rows[j].wallet
  }

  ghost predicate DistinctRanks(rows: seq<Row>) {
    forall i, j :: 0 <= i < j < |rows| && rows[i].rank.Some? && rows[j].rank.Some? ==> rows[i].rank != rows[j].rank
  }

  ghost predicate Inv(rows: seq<Row>) {
    && (forall i :: 0 <= i < |rows| ==> RowInv(rows[i]) && Lower(rows[i].wallet) == rows[i].wallet)
    && DistinctWallets(rows)
    && DistinctRanks(rows)
  }

  /** Queueing a row touches its timestamps and profile source only. */
  lemma QueuedKeepsRow(r: Row, now: int)
    ensures
      var q := QueuedRow(r, now);
      q == r.(lastDeepQueuedAt := Some(now), profileSourceLast := q.profileSourceLast,
              profileFetchedAt := q.profileFetchedAt)
  {
    hide ResolveProfileSource;
  }

  lemma DeepKeepsRow(r: Row, now: int, opts: DeepOpts)
    requires RowInv(r)
    ensures RowInv(DeepRow(r, now, opts)) && DeepRow(r, now, opts).wallet == r.wallet
    ensures DeepRow(r, now, opts).rank == None || DeepRow(r, now, opts).rank == r.rank
  {
    hide QueuedRow;
    QueuedKeepsRow(r, now);
  }

  /** Replacing one row by one of the same wallet that keeps its rank or drops it. */
  lemma ReplaceKeepsInv(rows: seq<Row>, i: nat, r: Row)
    requires Inv(rows) && i < |rows|
    requires RowInv(r) && r.wallet == rows[i].wallet && (r.rank == None || r.rank == rows[i].rank)
    ensures Inv(rows[i := r])
  {
  }

  lemma AppendKeepsInv(rows: seq<Row>, r: Row)
    requires Inv(rows) && RowInv(r) && Lower(r.wallet) == r.wallet && r.rank == None
    requires forall i :: 0 <= i < |rows| ==> rows[i].wallet != r.wallet
    ensures Inv(rows + [r])
  {
  }

  lemma IngestKeepsInv(rows: seq<Row>, wallet: string, source: string, now: int)
    requires Inv(rows)
    ensures Inv(IngestRows(rows, wallet, source, now))
  {
    var w := Lower(wallet);
    LowerIdempotent(wallet);
    var i := IndexOf(rows, w);
    if i < |rows| {
      var r := TouchedRow(rows[i], source, now);
      assert RowInv(rows[i]) && RowInv(r);
      ReplaceKeepsInv(rows, i, r);
    } else {
      AppendKeepsInv(rows, NewRow(w, source, now));
    }
  }

  /** Touching a row twice is touching it once. */
  lemma TouchIsIdempotent(r: Row, source: string, now: int)
    ensures TouchedRow(TouchedRow(r, source, now), source, now) == TouchedRow(r, source, now)
  {
    var once := Dedup(r.sources + [source]);
    assert source in once;
    assert (once + [source])[..|once|] == once;
    DedupDistinct(once);
  }

  /** Discovery is idempotent, whatever the letter case of the address. */
  lemma IngestIsIdempotent(rows: seq<Row>, wallet: string, again: string, source: string, now: int)
    requires Lower(wallet) == Lower(again)
    ensures
      var known := IngestRows(rows, wallet, source, now);
      IngestRows(known, again, source, now) == known
  {
    hide Lower, TouchedRow, Dedup;
    var w := Lower(wallet);
    var known := IngestRows(rows, wallet, source, now);
    var i := IndexOf(rows, w);
    SeenSource(source);
    TouchKeepsWallet(if i < |rows| then rows[i] else NewRow(w, source, now), source, now);
    assert known[i].wallet == w;
    PlaceFound(known, w, i);
    if i < |rows| {
      TouchIsIdempotent(rows[i], source, now);
    } else {
      NewIsTouched(w, source, now);
    }
  }

  lemma SeenSource(source: string)
    ensures Dedup([source]) == [source]
  {
    DedupDistinct([source]);
  }

  lemma NewIsTouched(wallet: string, source: string, now: int)
    ensures TouchedRow(NewRow(wallet, source, now), source, now) == NewRow(wallet, source, now)
  {
    DedupDistinct([source]);
    assert ([source] + [source])[..1] == [source];
  }

  lemma TouchKeepsWallet(r: Row, source: string, now: int)
    ensures TouchedRow(r, source, now).wallet == r.wallet
  {
  }

  lemma PlaceFound(rows: seq<Row>, wallet: string, i: nat)
    requires i < |rows| && rows[i].wallet == wallet && forall j :: 0 <= j < i ==> rows[j].wallet != wallet
    ensures IndexOf(rows, wallet) == i
  {
  }

  /** Discovery adds or touches one row and leaves the others alone. A new or woken wallet is awake and,
      if RAW, due for light analysis at once; an awake one only gains its source, it is not rescheduled. */
  lemma IngestTouchesOneRow(rows: seq<Row>, wallet: string, source: string, now: int)
    ensures
      var after := IngestRows(rows, wallet, source, now);
      var i := IndexOf(rows, Lower(wallet));
      && |after| == (if i == |rows| then |rows| + 1 else |rows|)
      && after[i].wallet == Lower(wallet) && source in after[i].sources && !after[i].dormant
      && (forall j :: 0 <= j < |rows| && j != i ==> after[j] == rows[j])
      && (if i == |rows| then after[i].stage == RAW && LightDue(after[i], now)
          else if rows[i].dormant then after[i].stage == rows[i].stage && DeepDue(after[i], now) &&
                                       (rows[i].stage == RAW ==> LightDue(after[i], now))
          else after[i] == rows[i].(sources := after[i].sources))
  {
    hide Lower, Dedup;
  }

  /** An analysis that throws changes nothing of a waiting row's standing and makes it due again at once. */
  lemma FailedAnalysisRetriesAtOnce(r: Row, now: int, opts: DeepOpts)
    requires InDeepQueue(r) && opts.throwError
    ensures
      var f := DeepRow(r, now, opts);
      && f.stage == r.stage && f.score == r.score && f.inCopyPool == r.inCopyPool && f.rank == r.rank
      && f.copyPoolMissCount == r.copyPoolMissCount && InDeepQueue(f) && (!r.dormant ==> DeepDue(f, now))
  {
    hide QueuedRow;
    QueuedKeepsRow(r, now);
  }

  /** No analysis runs on a profile older than 45 minutes, and using a snapshot never makes it look younger. */
  lemma ProfileIsFresh(r: Row, now: int, opts: DeepOpts)
    ensures
      var f := DeepRow(r, now, opts);
      && f.profileFetchedAt.Some? && now - f.profileFetchedAt.value <= 45 * 60_000
      && f.profileSourceLast == Some(ResolveProfileSource(r, now))
      && (f.profileSourceLast == Some(Snapshot) ==> f.profileFetchedAt == r.profileFetchedAt)
      && (f.profileSourceLast == Some(Live) ==> f.profileFetchedAt == Some(now))
  {
    hide SyncRow;
    SyncKeepsProfile(QueuedRow(r, now).(score := Some(opts.score), tier2Enhanced := opts.tier2e, stage := SCORED),
                     opts.score, opts.tier2e, opts.hardFlag);
  }

  lemma SyncKeepsProfile(r: Row, score: real, tier2e: bool, hardFlag: bool)
    ensures
      var s := SyncRow(r, score, tier2e, hardFlag);
      s.profileFetchedAt == r.profileFetchedAt && s.profileSourceLast == r.profileSourceLast
  {
  }

  lemma FlushKeepsRow(rows: seq<Row>, i: nat)
    requires Inv(rows) && i < |rows|
    ensures RowInv(FlushRows(rows)[i]) && FlushRows(rows)[i].wallet == rows[i].wallet
    ensures FlushRows(rows)[i].rank.Some? ==> OnBoard(rows[i])
  {
    RankIsPlace(rows, i);
    assert RowInv(rows[i]);
  }

  lemma FlushKeepsInv(rows: seq<Row>)
    requires Inv(rows)
    ensures Inv(FlushRows(rows))
  {
    var after := FlushRows(rows);
    hide FlushRows, RowInv, OnBoard;
    forall i | 0 <= i < |rows|
      ensures RowInv(after[i]) && after[i].wallet == rows[i].wallet
      ensures after[i].rank.Some? ==> OnBoard(rows[i])
    {
      FlushKeepsRow(rows, i);
    }
    forall i, j | 0 <= i < j < |rows| && after[i].rank.Some? && after[j].rank.Some?
      ensures after[i].rank != after[j].rank
    {
      RanksFollowScores(rows, i, j);
    }
  }

  lemma StepKeepsInv(s: System, e: Event)
    requires Inv(s.rows) && Enabled(s, e)
    ensures Inv(Step(s, e).rows)
  {
    match e
    case Ingest(w, source) => IngestKeepsInv(s.rows, w, source, s.now);
    case Light(w, p) =>
      var i := IndexOf(s.rows, w);
      assert RowInv(s.rows[i]);
      ReplaceKeepsInv(s.rows, i, LightRow(s.rows[i], s.now, p));
    case Deep(w, opts) =>
      var i := IndexOf(s.rows, w);
      DeepKeepsRow(s.rows[i], s.now, opts);
      ReplaceKeepsInv(s.rows, i, DeepRow(s.rows[i], s.now, opts));
    case Flush => FlushKeepsInv(s.rows);
    case Advance(_) =>
  }

  /** Every run keeps the invariant, whatever the scores, failures, clock and order of work. */
  lemma {:induction false} RunKeepsInv(s: System, events: seq<Event>)
    requires Inv(s.rows) && ValidRun(s, events)
    ensures Inv(Run(s, events).rows)
    decreases |events|
  {
    hide Inv, Step, Enabled;
    if events != [] {
      StepKeepsInv(s, events[0]);
      RunKeepsInv(Step(s, events[0]), events[1..]);
    }
  }

  /** The reachable states, spelled out for every row. */
  lemma ReachableStates(now: int, events: seq<Event>, i: nat)
    requires ValidRun(System([], now), events) && i < |Run(System([], now), events).rows|
    ensures
      var rows := Run(System([], now), events).rows;
      var r := rows[i];
      && r.stage != LIGHT_ANALYZING && r.stage != FULL_ANALYZING
      && (r.stage == COPY_POOL ==> r.inCopyPool && r.score.Some? && r.score.value > EXIT)
      && (r.inCopyPool ==> r.score.Some? && (r.stage == COPY_POOL || r.stage == SCORED))
      && (r.rank.Some? ==> r.inCopyPool)
      && 0 <= r.copyPoolMissCount < EXIT_MISS
      && (r.stage == ELIMINATED ==> !r.inCopyPool && r.rank == None)
      && DistinctWallets(rows) && DistinctRanks(rows)
  {
    RunKeepsInv(System([], now), events);
    assert RowInv(Run(System([], now), events).rows[i]);
  }

  lemma StepKeepsEliminated(s: System, e: Event, i: nat)
    requires Inv(s.rows) && Enabled(s, e)
    requires i < |s.rows| && s.rows[i].stage == ELIMINATED
    ensures i < |Step(s, e).rows| && Step(s, e).rows[i].stage == ELIMINATED
  {
    assert RowInv(s.rows[i]);
    if e == Flush {
      RankIsPlace(s.rows, i);
    }
  }

  /** ELIMINATED is absorbing, and such a wallet is never in the pool again. */
  lemma {:induction false} EliminatedIsAbsorbing(s: System, events: seq<Event>, i: nat)
    requires Inv(s.rows) && ValidRun(s, events)
    requires i < |s.rows| && s.rows[i].stage == ELIMINATED
    ensures
      var rows := Run(s, events).rows;
      i < |rows| && rows[i].stage == ELIMINATED && !rows[i].inCopyPool && rows[i].rank == None
    decreases |events|
  {
    if events == [] {
      assert RowInv(s.rows[i]);
    } else {
      hide Inv, Step, Enabled;
      StepKeepsInv(s, events[0]);
      StepKeepsEliminated(s, events[0], i);
      EliminatedIsAbsorbing(Step(s, events[0]), events[1..], i);
    }
  }

  /** A flush takes out exactly the rows on their one allowed miss: the grace that the miss counter
      gives never outlives a flush. */
  lemma FlushPurgesExactlyFirstMisses(rows: seq<Row>, i: nat)
    requires Inv(rows) && i < |rows|
    ensures rows[i].inCopyPool && !FlushRows(rows)[i].inCopyPool <==>
            rows[i].inCopyPool && rows[i].copyPoolMissCount == 1
    ensures FlushRows(rows)[i].inCopyPool ==> FlushRows(rows)[i].copyPoolMissCount == 0
  {
    RankIsPlace(rows, i);
    assert RowInv(rows[i]);
  }

  /** Which analyses move a row out of the pool and into it. */
  lemma PoolMembershipExactly(r: Row, now: int, opts: DeepOpts)
    requires RowInv(r) && !opts.throwError && !opts.l1Fail
    ensures DeepRow(r, now, opts).inCopyPool <==>
            && !opts.hardFlag
            && (if !r.inCopyPool then opts.score >= ENTER
                else opts.score > EXIT || r.copyPoolMissCount == 0)
  {
  }

  // ------------------------------------------------------------ the pickers hand out enabled work

  lemma PickedRow(rows: seq<Row>, keep: Row -> bool, s: seq<Row>, wallet: string)
    requires DistinctWallets(rows)
    requires forall r :: r in s ==> r in rows && keep(r)
    requires wallet in Map(WalletOf, s)
    ensures IndexOf(rows, wallet) < |rows| && keep(rows[IndexOf(rows, wallet)])
  {
    var k :| 0 <= k < |s| && Map(WalletOf, s)[k] == wallet;
    assert s[k] in s;
    var i :| 0 <= i < |rows| && rows[i] == s[k];
    assert IndexOf(rows, wallet) == i;
  }

  /** The light picker serves `min(limit, due)` wallets, each once; every one is awake, RAW and due, so its
      light analysis is an enabled step. */
  lemma LightPickExactly(s: System, limit: nat, p: Profile)
    requires DistinctWallets(s.rows)
    ensures
      var picked, due := PickLight(s.rows, limit, s.now), |Filter(LightDueBy(s.now), s.rows)|;
      && |picked| == (if limit < due then limit else due) && Distinct(picked)
      && forall x :: x in picked ==>
           && IndexOf(s.rows, x) < |s.rows| && LightDue(s.rows[IndexOf(s.rows, x)], s.now)
           && Enabled(s, Light(x, p))
  {
    hide Filter, Map;
    var due := Filter(LightDueBy(s.now), s.rows);
    assert Distinct(Map(WalletOf, s.rows));
    FilterDistinct(LightDueBy(s.now), WalletOf, s.rows);
    FilterMembers(LightDueBy(s.now), s.rows);
    var picked := PickLight(s.rows, limit, s.now);
    assert picked == Take(Map(WalletOf, due), limit);
    hide PickLight, DistinctWallets;
    forall x | x in picked
      ensures IndexOf(s.rows, x) < |s.rows| && LightDue(s.rows[IndexOf(s.rows, x)], s.now)
    {
      PickedRow(s.rows, LightDueBy(s.now), due, x);
    }
  }
}
