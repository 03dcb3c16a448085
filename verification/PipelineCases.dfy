/** Case by case, what each step of the pipeline makes of a row: thresholds, dates and standings written out. */
module PipelineCases {
  import opened Options
  import opened Seqs
  import opened Texts
  import opened PipelineRules
  import opened RankFlush
  import opened PipelineLaws

  const SEVEN_DAYS := 604_800_000

  // ------------------------------------------------------------ discovery and light analysis

  /** A newly discovered wallet is awake, RAW and due for light analysis only, known from one source, with no
      score, pool place, rank or miss. */
  lemma NewWalletExactly(rows: seq<Row>, wallet: string, source: string, now: int)
    requires forall i :: 0 <= i < |rows| ==> rows[i].wallet != Lower(wallet)
    ensures
      var after := IngestRows(rows, wallet, source, now);
      && |after| == |rows| + 1 && after[..|rows|] == rows
      && var r := after[|rows|];
         && r.wallet == Lower(wallet) && r.stage == RAW && !r.dormant && r.sources == [source]
         && r.nextLightAnalyzeAt == Some(now) && r.nextDeepAnalyzeAt == None
         && r.lastLightQueuedAt == None && r.lastDeepQueuedAt == None && r.profileFetchedAt == None
         && r.score == None && !r.inCopyPool && r.rank == None && r.copyPoolMissCount == 0
         && !r.tier2Enhanced && r.failReason == None && r.profileSourceLast == None
  {
    hide Lower;
    assert IndexOf(rows, Lower(wallet)) == |rows|;
  }

  /** A known wallet gains the source, once, and loses none; a dormant one wakes up due for both analyses; nothing
      else about it changes. */
  lemma KnownWalletExactly(rows: seq<Row>, wallet: string, source: string, now: int, i: nat)
    requires i < |rows| && rows[i].wallet == Lower(wallet) && DistinctWallets(rows)
    ensures
      var after := IngestRows(rows, wallet, source, now);
      && |after| == |rows|
      && var r, a := rows[i], after[i];
         && (forall x :: x in a.sources <==> x in r.sources || x == source) && Distinct(a.sources)
         && a == r.(sources := a.sources, dormant := false,
                    nextLightAnalyzeAt := if r.dormant then Some(now) else r.nextLightAnalyzeAt,
                    nextDeepAnalyzeAt := if r.dormant then Some(now) else r.nextDeepAnalyzeAt)
  {
    hide Lower;
    assert IndexOf(rows, Lower(wallet)) == i;
  }

  /** A light analysis qualifies a wallet with holdings of 1000, 10 predictions and 5 curves or more, and makes
      its deep analysis due at once; any other is eliminated and scheduled for nothing. */
  lemma LightRowExactly(r: Row, now: int, p: Profile)
    ensures
      var l := LightRow(r, now, p);
      && l.lastLightQueuedAt == Some(now) && l.profileFetchedAt == Some(now) && l.profileSourceLast == Some(Live)
      && l == r.(stage := l.stage, nextLightAnalyzeAt := l.nextLightAnalyzeAt, nextDeepAnalyzeAt := l.nextDeepAnalyzeAt,
                 failReason := l.failReason, lastLightQueuedAt := Some(now), profileFetchedAt := Some(now),
                 profileSourceLast := Some(Live))
      && (if p.holdings < 1000.0 || p.predictions < 10.0 || p.curves < 5.0 then
            && l.stage == ELIMINATED && l.nextLightAnalyzeAt == None && l.nextDeepAnalyzeAt == None
            && l.failReason == Some("T1L_FAIL")
          else
            && l.stage == QUALIFIED && l.nextDeepAnalyzeAt == Some(now) && l.failReason == None
            && l.nextLightAnalyzeAt == r.nextLightAnalyzeAt)
  {
  }

  // ------------------------------------------------------------ deep analysis

  predicate Queued(r: Row) {
    r.stage in {QUALIFIED, SCORED, COPY_POOL}
  }

  /** What no deep analysis touches, and the time it leaves behind. */
  lemma DeepLeavesAlone(r: Row, now: int, opts: DeepOpts)
    ensures
      var d := DeepRow(r, now, opts);
      && d.wallet == r.wallet && d.dormant == r.dormant && d.sources == r.sources
      && d.lastLightQueuedAt == r.lastLightQueuedAt && d.lastDeepQueuedAt == Some(now)
  {
    var q := QueuedRow(r, now);
    QueuedKeepsRow(r, now);
    SyncLeavesAlone(q.(score := Some(opts.score), tier2Enhanced := opts.tier2e, stage := SCORED),
                    opts.score, opts.tier2e, opts.hardFlag);
    hide QueuedRow, SyncRow;
  }

  lemma SyncLeavesAlone(r: Row, score: real, tier2e: bool, hardFlag: bool)
    ensures
      var s := SyncRow(r, score, tier2e, hardFlag);
      s == r.(stage := s.stage, inCopyPool := s.inCopyPool, rank := s.rank, copyPoolMissCount := s.copyPoolMissCount)
  {
  }

  /** A deep analysis of any outcome works on the profile that is there, if that is at most 45 minutes old, and on one
      fetched for it otherwise. */
  lemma DeepProfileExactly(r: Row, now: int, opts: DeepOpts)
    ensures
      var d := DeepRow(r, now, opts);
      if r.profileFetchedAt.None? || now - r.profileFetchedAt.value > 2_700_000
      then d.profileSourceLast == Some(Live) && d.profileFetchedAt == Some(now)
      else d.profileSourceLast == Some(Snapshot) && d.profileFetchedAt == r.profileFetchedAt
  {
    ProfileIsFresh(r, now, opts);
    hide DeepRow;
  }

  /** An analysis that throws puts the wallet back as it was, due at once; one found in the middle of an analysis goes
      back to QUALIFIED. */
  lemma DeepErrorExactly(r: Row, now: int, opts: DeepOpts)
    requires opts.throwError
    ensures
      var d := DeepRow(r, now, opts);
      && (r.stage != FULL_ANALYZING ==> d.stage == r.stage) && (r.stage == FULL_ANALYZING ==> d.stage == QUALIFIED)
      && d.score == r.score && d.tier2Enhanced == r.tier2Enhanced
      && d.inCopyPool == r.inCopyPool && d.rank == r.rank && d.copyPoolMissCount == r.copyPoolMissCount
      && d.nextLightAnalyzeAt == r.nextLightAnalyzeAt && d.nextDeepAnalyzeAt == Some(now)
      && d.failReason == Some("rpc_timeout")
  {
    hide QueuedRow;
    QueuedKeepsRow(r, now);
  }

  /** An L1 failure eliminates the wallet: out of the pool, without a rank, scheduled for nothing. */
  lemma DeepL1Exactly(r: Row, now: int, opts: DeepOpts)
    requires !opts.throwError && opts.l1Fail
    ensures
      var d := DeepRow(r, now, opts);
      && d.stage == ELIMINATED && !d.inCopyPool && d.rank == None
      && d.nextLightAnalyzeAt == None && d.nextDeepAnalyzeAt == None && d.failReason == Some("L1-RET")
      && d.score == r.score && d.tier2Enhanced == r.tier2Enhanced && d.copyPoolMissCount == r.copyPoolMissCount
  {
    hide QueuedRow;
    QueuedKeepsRow(r, now);
  }

  /** Where a scored wallet stands: its stage, pool place, rank and misses. */
  datatype Standing = Standing(stage: Stage, pooled: bool, rank: Option<int>, misses: int)

  function StandingOf(r: Row): Standing {
    Standing(r.stage, r.inCopyPool, r.rank, r.copyPoolMissCount)
  }

  /** The pool hysteresis on a row in any stage: a hard flag ends any place; an outsider enters from 40 on; a pooled
      wallet above 30 is kept and recovers, one at or below 30 is kept on its first miss and drops to SCORED on the
      next. */
  lemma SyncExactly(r: Row, score: real, tier2e: bool, hardFlag: bool)
    ensures StandingOf(SyncRow(r, score, tier2e, hardFlag)) ==
            if hardFlag then Standing(r.stage, false, None, 0)
            else if !r.inCopyPool then
              if score < 40.0 then StandingOf(r) else Standing(COPY_POOL, true, r.rank, 0)
            else if score > 30.0 then Standing(COPY_POOL, true, r.rank, 0)
            else if r.copyPoolMissCount < 1 then Standing(r.stage, true, r.rank, r.copyPoolMissCount + 1)
            else Standing(SCORED, false, None, 0)
  {
  }

  /** Every other analysis stores its score and tier, sets the next one a week away, and decides the standing:
      a hard flag ends any; an outsider enters from 40 on; a pooled wallet above 30 is kept, one at or below 30 is
      kept on its first miss and loses its place on the next. */
  lemma DeepScoreExactly(r: Row, now: int, opts: DeepOpts)
    requires !opts.throwError && !opts.l1Fail
    ensures
      var d := DeepRow(r, now, opts);
      && d.score == Some(opts.score) && d.tier2Enhanced == opts.tier2e
      && d.nextDeepAnalyzeAt == Some(now + SEVEN_DAYS) && d.nextLightAnalyzeAt == r.nextLightAnalyzeAt
      && d.failReason == r.failReason
      && StandingOf(d) ==
         if opts.hardFlag then Standing(SCORED, false, None, 0)
         else if !r.inCopyPool then
           if opts.score < 40.0 then Standing(SCORED, false, r.rank, r.copyPoolMissCount)
           else Standing(COPY_POOL, true, r.rank, 0)
         else if opts.score > 30.0 then Standing(COPY_POOL, true, r.rank, 0)
         else if r.copyPoolMissCount < 1 then Standing(SCORED, true, r.rank, r.copyPoolMissCount + 1)
         else Standing(SCORED, false, None, 0)
  {
    hide QueuedRow;
    QueuedKeepsRow(r, now);
  }

  /** A wallet becomes ELIMINATED in exactly two ways: a light analysis that it does not pass, or a deep analysis
      that runs to its end with an L1 failure. */
  lemma EliminationExactly(s: System, e: Event, i: nat)
    requires Inv(s.rows) && Enabled(s, e) && i < |s.rows| && s.rows[i].stage != ELIMINATED
    ensures i < |Step(s, e).rows|
    ensures Step(s, e).rows[i].stage == ELIMINATED <==>
              match e
              case Light(w, p) =>
                w == s.rows[i].wallet && (p.holdings < 1000.0 || p.predictions < 10.0 || p.curves < 5.0)
              case Deep(w, opts) => w == s.rows[i].wallet && !opts.throwError && opts.l1Fail
              case _ => false
  {
    match e
    case Light(w, p) =>
      hide Inv, LightRow;
      WalletPlace(s.rows, w, i);
      LightRowExactly(s.rows[i], s.now, p);
    case Deep(w, opts) =>
      DeepEliminates(s, w, opts, i);
    case Flush =>
      hide Inv, FlushRows;
      RankIsPlace(s.rows, i);
    case Ingest(_, _) =>
    case Advance(_) =>
  }

  lemma DeepEliminates(s: System, wallet: string, opts: DeepOpts, i: nat)
    requires DistinctWallets(s.rows) && Enabled(s, Deep(wallet, opts)) && i < |s.rows| && s.rows[i].stage != ELIMINATED
    ensures |Step(s, Deep(wallet, opts)).rows| == |s.rows|
    ensures Step(s, Deep(wallet, opts)).rows[i].stage == ELIMINATED <==>
              wallet == s.rows[i].wallet && !opts.throwError && opts.l1Fail
  {
    hide DeepRow;
    WalletPlace(s.rows, wallet, i);
    DeepStage(s.rows[IndexOf(s.rows, wallet)], s.now, opts);
  }

  lemma WalletPlace(rows: seq<Row>, wallet: string, i: nat)
    requires DistinctWallets(rows) && i < |rows| && IndexOf(rows, wallet) < |rows|
    ensures IndexOf(rows, wallet) == i <==> rows[i].wallet == wallet
  {
  }

  lemma DeepStage(r: Row, now: int, opts: DeepOpts)
    requires Queued(r)
    ensures DeepRow(r, now, opts).stage == ELIMINATED <==> !opts.throwError && opts.l1Fail
  {
    if opts.throwError {
      DeepErrorExactly(r, now, opts);
    } else if opts.l1Fail {
      DeepL1Exactly(r, now, opts);
    } else {
      DeepScoreExactly(r, now, opts);
    }
    hide DeepRow;
  }

  // ------------------------------------------------------------ the rank flush and the cached board

  /** A purge takes a pooled row without a score, or with one of at most 30, out of the pool and off the ranks; it shows
      as SCORED if it has a score. Any other row is left as it is. */
  lemma PurgeExactly(r: Row)
    ensures PurgedRow(r) ==
            if !r.inCopyPool || (r.score.Some? && r.score.value > 30.0) then r
            else r.(inCopyPool := false, rank := None, stage := if r.score == None then r.stage else SCORED)
  {
  }

  /** A flush keeps a pooled row above 30 in the pool, takes any other pooled row out of it and shows it as SCORED
      if it has a score; apart from the rank nothing else changes, for any row. */
  lemma FlushedRowExactly(rows: seq<Row>, i: nat)
    requires i < |rows|
    ensures
      var r, f := rows[i], FlushRows(rows)[i];
      var stays := r.inCopyPool && r.score.Some? && r.score.value > 30.0;
      && f == r.(inCopyPool := stays, rank := f.rank,
                 stage := if r.inCopyPool && !stays && r.score.Some? then SCORED else r.stage)
      && (f.rank.Some? <==> stays)
  {
    RankIsPlace(rows, i);
    hide FlushRows;
  }

  predicate Shown(r: Row) {
    r.inCopyPool && r.rank != None && r.score.Some? && r.score.value > 30.0
  }

  predicate RankedMember(r: Row) {
    r.rank.Some? && r.stage == COPY_POOL
  }

  /** The cached board lists the pooled and ranked rows above 30. In every state that keeps the invariant, between
      flushes too, those are the ranked wallets in stage COPY_POOL: a pooled wallet on its miss is not shown, nor one
      that entered since the last flush. */
  lemma CachedBoardExactly(rows: seq<Row>)
    ensures CachedBoard(rows) == Filter(Shown, rows)
    ensures Inv(rows) ==> CachedBoard(rows) == Filter(RankedMember, rows)
  {
    FilterSame(OnCachedBoard, Shown, rows);
    if Inv(rows) {
      forall r | r in rows ensures OnCachedBoard(r) == RankedMember(r) {
        var i :| 0 <= i < |rows| && rows[i] == r;
        assert RowInv(rows[i]);
      }
      hide Inv, RowInv, OnCachedBoard;
      FilterSame(OnCachedBoard, RankedMember, rows);
    }
  }

  // ------------------------------------------------------------ light picks

  /** An awake RAW wallet whose light analysis is not in the future. */
  predicate LightWork(r: Row, now: int) {
    !r.dormant && r.stage == RAW && !(r.nextLightAnalyzeAt.Some? && r.nextLightAnalyzeAt.value > now)
  }

  /** Who is due for a light analysis. */
  lemma LightWorkExactly(r: Row, now: int)
    ensures LightDueBy(now)(r) <==> LightWork(r, now)
  {
  }

  /** The light picker serves wallets in the order of their discovery: nobody with work is passed over for one
      discovered later. */
  lemma LightPicksInOrder(rows: seq<Row>, limit: nat, now: int, i: nat, j: nat)
    requires DistinctWallets(rows) && i < j < |rows| && LightWork(rows[i], now) && LightWork(rows[j], now)
    requires rows[j].wallet in PickLight(rows, limit, now)
    ensures rows[i].wallet in PickLight(rows, limit, now)
  {
    LightWorkExactly(rows[i], now);
    assert Distinct(Map(WalletOf, rows)) && Distinct(rows);
    hide Filter, Map, LightWork, DistinctWallets, LightDueBy, Take;
    var front := Take(Filter(LightDueBy(now), rows), limit);
    FrontRow(rows, LightDueBy(now), limit, rows[j]);
    FilterFront(LightDueBy(now), rows, limit, i, j);
    MapMembers(WalletOf, front);
  }

  lemma FrontRow(rows: seq<Row>, keep: Row -> bool, limit: nat, r: Row)
    requires Distinct(Map(WalletOf, rows)) && r in rows
    requires r.wallet in Map(WalletOf, Take(Filter(keep, rows), limit))
    ensures r in Take(Filter(keep, rows), limit)
  {
    var front := Take(Filter(keep, rows), limit);
    FilterMembers(keep, rows);
    MapMembers(WalletOf, front);
    hide Map, Filter;
    var x :| x in front && WalletOf(x) == r.wallet;
    assert x in rows;
    MapDistinctMember(WalletOf, rows, x, r);
  }
}
