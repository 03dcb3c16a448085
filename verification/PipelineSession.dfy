/** The pipeline on its mutable rows: the `db` map in insertion order and the simulated clock. */
module PipelineSession {
  import opened Options
  import opened Seqs
  import opened Texts
  import opened PipelineRules
  import opened RankFlush
  import opened PipelineLaws

  class WalletRow {
    const wallet: string
    var stage: Stage
    var dormant: bool
    var nextLightAnalyzeAt: Option<int>
    var nextDeepAnalyzeAt: Option<int>
    var lastLightQueuedAt: Option<int>
    var lastDeepQueuedAt: Option<int>
    var sources: seq<string>
    var score: Option<real>
    var inCopyPool: bool
    var copyPoolMissCount: int
    var rank: Option<int>
    var tier2Enhanced: bool
    var failReason: Option<string>
    var profileFetchedAt: Option<int>
    var profileSourceLast: Option<ProfileSource>

    constructor (r: Row)
      ensures View() == r
    {
      wallet, stage, dormant, sources := r.wallet, r.stage, r.dormant, r.sources;
      nextLightAnalyzeAt, nextDeepAnalyzeAt := r.nextLightAnalyzeAt, r.nextDeepAnalyzeAt;
      lastLightQueuedAt, lastDeepQueuedAt := r.lastLightQueuedAt, r.lastDeepQueuedAt;
      score, inCopyPool, copyPoolMissCount, rank := r.score, r.inCopyPool, r.copyPoolMissCount, r.rank;
      tier2Enhanced, failReason := r.tier2Enhanced, r.failReason;
      profileFetchedAt, profileSourceLast := r.profileFetchedAt, r.profileSourceLast;
    }

    function View(): Row
      reads this
    {
      Row(wallet, stage, dormant, nextLightAnalyzeAt, nextDeepAnalyzeAt, lastLightQueuedAt, lastDeepQueuedAt,
          sources, score, inCopyPool, copyPoolMissCount, rank, tier2Enhanced, failReason,
          profileFetchedAt, profileSourceLast)
    }

    method Touch(source: string, now: int)
      modifies this
      ensures View() == TouchedRow(old(View()), source, now)
    {
      sources := Dedup(sources + [source]);
      if dormant {
        dormant := false;
        nextLightAnalyzeAt := Some(now);
        nextDeepAnalyzeAt := Some(now);
      }
    }

    /** Starts the light analysis and fetches the profile live. */
    method StartLight(now: int)
      modifies this
      ensures View() == old(View()).(stage := LIGHT_ANALYZING, lastLightQueuedAt := Some(now),
                                     profileFetchedAt := Some(now), profileSourceLast := Some(Live))
    {
      stage := LIGHT_ANALYZING;
      lastLightQueuedAt := Some(now);
      profileFetchedAt := Some(now);
      profileSourceLast := Some(Live);
    }

    method LightAnalyze(p: Profile, now: int)
      modifies this
      ensures View() == LightRow(old(View()), now, p)
    {
      StartLight(now);
      var pass := p.holdings >= 1000.0 && p.predictions >= 10.0 && p.curves >= 5.0;
      if !pass {
        stage := ELIMINATED;
        nextLightAnalyzeAt := None;
        nextDeepAnalyzeAt := None;
        failReason := Some("T1L_FAIL");
        return;
      }
      stage := QUALIFIED;
      nextDeepAnalyzeAt := Some(now);
      failReason := None;
    }

    method SyncCopyPool(newScore: real, tier2e: bool, hardFlag: bool)
      modifies this
      ensures View() == SyncRow(old(View()), newScore, tier2e, hardFlag)
    {
      if hardFlag {
        inCopyPool := false;
        rank := None;
        copyPoolMissCount := 0;
        return;
      }
      var tier2eOk := if REQUIRE_TIER2E then tier2e else true;
      var canEnter := tier2eOk && newScore >= ENTER;
      if !inCopyPool && canEnter {
        inCopyPool := true;
        copyPoolMissCount := 0;
        stage := COPY_POOL;
        return;
      }
      if inCopyPool {
        if newScore <= EXIT {
          copyPoolMissCount := copyPoolMissCount + 1;
          if copyPoolMissCount >= EXIT_MISS {
            inCopyPool := false;
            rank := None;
            stage := SCORED;
            copyPoolMissCount := 0;
          }
        } else {
          copyPoolMissCount := 0;
          stage := COPY_POOL;
        }
      }
    }

    /** Queues the row, takes the profile from the snapshot or live, and starts the analysis. */
    method StartDeep(now: int) returns (profileSource: ProfileSource)
      modifies this
      ensures View() == QueuedRow(old(View()), now).(stage := FULL_ANALYZING)
      ensures profileSource == ResolveProfileSource(old(View()), now)
    {
      stage := FULL_ANALYZING;
      lastDeepQueuedAt := Some(now);
      profileSource := ResolveProfileSource(View(), now);
      profileSourceLast := Some(profileSource);
      if profileSource == Live {
        profileFetchedAt := Some(now);
      }
    }

    /** The catch branch: the previous stage comes back and the row is due again at once. */
    method RestoreAfterError(prevStage: Stage, now: int)
      modifies this
      ensures View() == old(View()).(
                stage := if prevStage == FULL_ANALYZING then QUALIFIED else prevStage,
                nextDeepAnalyzeAt := Some(now), failReason := Some("rpc_timeout"))
    {
      stage := if prevStage == FULL_ANALYZING then QUALIFIED else prevStage;
      nextDeepAnalyzeAt := Some(now);
      failReason := Some("rpc_timeout");
    }

    /** The L1 branch: out of the pool for good. */
    method RejectL1()
      modifies this
      ensures View() == old(View()).(
                inCopyPool := false, rank := None, stage := ELIMINATED,
                nextDeepAnalyzeAt := None, nextLightAnalyzeAt := None, failReason := Some("L1-RET"))
    {
      inCopyPool := false;
      rank := None;
      stage := ELIMINATED;
      nextDeepAnalyzeAt := None;
      nextLightAnalyzeAt := None;
      failReason := Some("L1-RET");
    }

    /** The scored branch. */
    method RecordScore(opts: DeepOpts, now: int)
      modifies this
      ensures View() == SyncRow(old(View()).(score := Some(opts.score), tier2Enhanced := opts.tier2e, stage := SCORED),
                                opts.score, opts.tier2e, opts.hardFlag).(nextDeepAnalyzeAt := Some(now + WEEK))
    {
      hide SyncRow;
      score := Some(opts.score);
      tier2Enhanced := opts.tier2e;
      stage := SCORED;
      SyncCopyPool(opts.score, opts.tier2e, opts.hardFlag);
      nextDeepAnalyzeAt := Some(now + WEEK);
    }

    /** A deep analysis; a thrown error is caught and puts the previous stage back. */
    method DeepAnalyze(opts: DeepOpts, now: int) returns (prevStage: Stage, profileSource: ProfileSource)
      modifies this
      ensures View() == DeepRow(old(View()), now, opts)
      ensures prevStage == old(stage) && profileSource == ResolveProfileSource(old(View()), now)
    {
      hide SyncRow, ResolveProfileSource;
      prevStage := stage;
      profileSource := StartDeep(now);
      if opts.throwError {
        RestoreAfterError(prevStage, now);
      } else if opts.l1Fail {
        RejectL1();
      } else {
        RecordScore(opts, now);
      }
    }

    method SetRank(place: Option<int>)
      modifies this
      ensures View() == old(View()).(rank := place)
    {
      rank := place;
    }

    /** Takes a row at or below the exit line out of the pool. */
    method Purge() returns (purged: bool)
      modifies this
      ensures View() == PurgedRow(old(View())) && (purged <==> BelowFloor(old(View())))
    {
      purged := inCopyPool && (score.None? || score.value <= EXIT);
      if purged {
        inCopyPool := false;
        rank := None;
        stage := if score.Some? then SCORED else stage;
      }
    }
  }

  function Views(db: seq<WalletRow>): (r: seq<Row>)
    reads db
    ensures |r| == |db| && forall i :: 0 <= i < |db| ==> r[i] == db[i].View()
  {
    if db == [] then [] else [db[0].View()] + Views(db[1..])
  }

  lemma ViewsSnoc(db: seq<WalletRow>, row: WalletRow)
    ensures Views(db + [row]) == Views(db) + [row.View()]
  {
    hide Views;
  }

  predicate Separate(db: seq<WalletRow>) {
    forall i, j :: 0 <= i < j < |db| ==> db[i] != db[j]
  }

  class Pipeline {
    var db: seq<WalletRow>
    var simNow: int

    constructor (now: int)
      ensures Valid() && State() == System([], now)
    {
      db, simNow := [], now;
    }

    ghost predicate Valid()
      reads this
    {
      Separate(db)
    }

    function State(): System
      reads this, db
    {
      System(Views(db), simNow)
    }

    method AdvanceClock(ms: nat)
      requires Valid()
      modifies `simNow
      ensures Valid() && State() == Step(old(State()), Advance(ms))
      ensures State().rows == old(State().rows) && simNow == old(simNow) + ms
    {
      simNow := simNow + ms;
    }

    method AddRow(r: Row)
      requires Valid()
      modifies `db
      ensures Valid() && State() == old(State()).(rows := old(State().rows) + [r])
    {
      hide Views;
      ghost var before := Views(db);
      var row := new WalletRow(r);
      assert forall j :: 0 <= j < |db| ==> db[j] != row;
      assert Views(db) == before;
      ViewsSnoc(db, row);
      db := db + [row];
    }

    method IngestWallet(wallet: string, source: string)
      requires Valid()
      modifies this, db
      ensures Valid() && State() == Step(old(State()), Ingest(wallet, source))
    {
      hide TouchedRow, NewRow;
      var w := Lower(wallet);
      var i := IndexOf(Views(db), w);
      ghost var before := Views(db);
      if i == |db| {
        AddRow(NewRow(w, source, simNow));
        return;
      }
      db[i].Touch(source, simNow);
      assert forall j :: 0 <= j < |db| && j != i ==> db[j] != db[i];
      assert Views(db) == before[i := TouchedRow(before[i], source, simNow)];
    }

    method LightAnalyzeAt(i: nat, p: Profile)
      requires Valid() && i < |db|
      modifies db
      ensures Views(db) == old(Views(db))[i := LightRow(old(Views(db))[i], simNow, p)]
    {
      hide LightRow;
      ghost var before := Views(db);
      db[i].LightAnalyze(p, simNow);
      assert forall j :: 0 <= j < |db| && j != i ==> db[j] != db[i];
      assert Views(db) == before[i := LightRow(before[i], simNow, p)];
    }

    method DeepAnalyzeAt(i: nat, opts: DeepOpts) returns (prevStage: Stage, profileSource: ProfileSource)
      requires Valid() && i < |db|
      modifies db
      ensures Views(db) == old(Views(db))[i := DeepRow(old(Views(db))[i], simNow, opts)]
      ensures prevStage == old(Views(db))[i].stage
      ensures profileSource == ResolveProfileSource(old(Views(db))[i], simNow)
    {
      hide DeepRow, ResolveProfileSource;
      ghost var before := Views(db);
      prevStage, profileSource := db[i].DeepAnalyze(opts, simNow);
      assert forall j :: 0 <= j < |db| && j != i ==> db[j] != db[i];
      assert Views(db) == before[i := DeepRow(before[i], simNow, opts)];
    }

    method LightAnalyzeWallet(wallet: string, p: Profile)
      requires Valid() && Enabled(State(), Light(wallet, p))
      modifies db
      ensures Valid() && State() == Step(old(State()), Light(wallet, p))
    {
      hide LightRow, Views, Separate;
      LightAnalyzeAt(IndexOf(Views(db), wallet), p);
    }

    method DeepAnalyzeWallet(wallet: string, opts: DeepOpts)
      returns (prevStage: Stage, profileSource: ProfileSource)
      requires Valid() && Enabled(State(), Deep(wallet, opts))
      modifies db
      ensures Valid() && State() == Step(old(State()), Deep(wallet, opts))
      ensures
        var r := old(State().rows[IndexOf(State().rows, wallet)]);
        prevStage == r.stage && profileSource == ResolveProfileSource(r, simNow)
    {
      hide DeepRow, ResolveProfileSource, Views, Separate;
      prevStage, profileSource := DeepAnalyzeAt(IndexOf(Views(db), wallet), opts);
    }

    /** Purges below the exit line, then numbers the board. */
    method RecomputeRanks() returns (purged: nat, ranked: nat)
      requires Valid()
      modifies db
      ensures Valid() && State() == Step(old(State()), Flush)
      ensures purged == PurgeCount(old(Views(db))) && ranked == BoardSize(old(Views(db)))
    {
      ghost var before := Views(db);
      BoardLength(before);
      hide PurgeCount, BoardSize, PurgedRow, FlushRows, Board;
      purged := PurgePass();
      ranked := NumberBoard(before);
    }

    method NumberBoard(ghost before: seq<Row>) returns (ranked: nat)
      requires Valid() && Views(db) == Map(PurgedRow, before)
      modifies db
      ensures Views(db) == FlushRows(before)
      ensures ranked == |Board(Map(PurgedRow, before))|
    {
      ghost var purged := Views(db);
      var board := Board(Views(db));
      hide Board, PlaceOf, PurgedRow;
      ranked := |board|;
      ClearPass(purged, board);
      RankPass(purged, board);
      FlushFromPlaces(before, Views(db));
    }

    method PurgeAt(i: nat) returns (out: bool)
      requires Valid() && i < |db|
      modifies db
      ensures Views(db) == old(Views(db))[i := PurgedRow(old(Views(db))[i])]
      ensures out <==> BelowFloor(old(Views(db))[i])
    {
      hide PurgedRow, BelowFloor;
      ghost var before := Views(db);
      out := db[i].Purge();
      assert forall j :: 0 <= j < |db| && j != i ==> db[j] != db[i];
      assert Views(db) == before[i := PurgedRow(before[i])];
    }

    method PurgePass() returns (purged: nat)
      requires Valid()
      modifies db
      ensures Views(db) == Map(PurgedRow, old(Views(db)))
      ensures purged == PurgeCount(old(Views(db)))
    {
      hide PurgedRow, BelowFloor, Views, Separate, Map, Filter, PurgedUpTo;
      ghost var before := Views(db);
      purged := 0;
      NothingPurged(before);
      for i := 0 to |db|
        invariant Views(db) == PurgedUpTo(before, i)
        invariant purged == |Filter(BelowFloor, before[..i])|
      {
        PurgeNext(before, i);
        CountNext(BelowFloor, before, i);
        var out := PurgeAt(i);
        if out {
          purged := purged + 1;
        }
      }
      AllPurged(before);
      assert before[..|db|] == before;
    }

    /** Rows off the board lose their rank. */
    method ClearPass(ghost purged: seq<Row>, board: seq<Entry>)
      requires Valid() && Views(db) == purged
      modifies db
      ensures forall j :: 0 <= j < |db| ==> Views(db)[j] == PartlyRanked(purged, board, 0, j)
    {
      hide PlaceOf, Views;
      for i := 0 to |db|
        invariant forall j :: 0 <= j < |db| ==>
                    db[j].View() == if j < i then PartlyRanked(purged, board, 0, j) else purged[j]
      {
        assert forall j :: 0 <= j < |db| && j != i ==> db[j] != db[i];
        if PlaceOf(board, i).None? {
          db[i].SetRank(None);
        }
      }
    }

    /** Rows on the board get their place, counted from 1. */
    method RankPass(ghost purged: seq<Row>, board: seq<Entry>)
      requires Valid() && |purged| == |db| && board == Board(purged)
      requires forall j :: 0 <= j < |db| ==> Views(db)[j] == PartlyRanked(purged, board, 0, j)
      modifies db
      ensures forall j :: 0 <= j < |db| ==> Views(db)[j] == RankedRow(purged[j], PlaceOf(board, j))
    {
      BoardPlaces(purged);
      hide Board, PlaceOf, PartlyRanked, Views, RankedRow;
      for i := 0 to |board|
        invariant forall j :: 0 <= j < |db| ==> db[j].View() == PartlyRanked(purged, board, i, j)
      {
        var k := board[i].index;
        assert forall j :: 0 <= j < |db| && j != k ==> db[j] != db[k];
        RankNext(purged, board, i);
        db[k].SetRank(Some(i + 1));
      }
      AllRanked(purged, board);
    }

    /** Analyses every wallet of a batch of QUALIFIED ones. */
    method SweepBatch(left: seq<Row>, plan: string -> DeepOpts)
      requires Valid() && Inv(State().rows)
      requires forall w :: !plan(w).throwError
      requires forall k :: 0 <= k < |left| ==> QualifiedAt(State().rows, left[k].wallet)
      requires forall j, k :: 0 <= j < k < |left| ==> left[j].wallet != left[k].wallet
      modifies db
      ensures Valid() && Inv(State().rows)
      ensures QualifiedCount(State().rows) == QualifiedCount(old(State().rows)) - |left|
    {
      hide Inv, QualifiedAt, QualifiedCount, Enabled;
      for n := 0 to |left|
        invariant Valid() && Inv(State().rows)
        invariant QualifiedCount(State().rows) == QualifiedCount(old(State().rows)) - n
        invariant forall k :: n <= k < |left| ==> QualifiedAt(State().rows, left[k].wallet)
      {
        SweepOne(State(), left[n].wallet, plan(left[n].wallet));
        var _, _ := DeepAnalyzeWallet(left[n].wallet, plan(left[n].wallet));
      }
    }

    /** A flush keeps the invariant and every QUALIFIED wallet. */
    method FlushRanks()
      requires Valid() && Inv(State().rows)
      modifies db
      ensures Valid() && Inv(State().rows)
      ensures QualifiedCount(State().rows) == QualifiedCount(old(State().rows))
    {
      hide Inv, QualifiedCount, FlushRows, PurgeCount, BoardSize, Views, Separate;
      FlushKeepsQualified(State().rows);
      FlushKeepsInv(State().rows);
      var _, _ := RecomputeRanks();
    }

    /** One round of the sweep: analyse, let the clock run, flush the ranks. */
    method SweepRound(left: seq<Row>, plan: string -> DeepOpts, wall: nat)
      requires Valid() && Inv(State().rows)
      requires forall w :: !plan(w).throwError
      requires forall k :: 0 <= k < |left| ==> QualifiedAt(State().rows, left[k].wallet)
      requires forall j, k :: 0 <= j < k < |left| ==> left[j].wallet != left[k].wallet
      modifies `simNow, db
      ensures Valid() && Inv(State().rows) && simNow == old(simNow) + wall
      ensures QualifiedCount(State().rows) == QualifiedCount(old(State().rows)) - |left|
    {
      hide Inv, QualifiedAt, QualifiedCount, Step, Views, Separate;
      SweepBatch(left, plan);
      AdvanceClock(wall);
      FlushRanks();
    }

    /** Runs the last QUALIFIED wallets through deep analysis until none is due. It terminates however
        the clock moves, because no analysed wallet is QUALIFIED again. */
    method FinalSweep(plan: string -> DeepOpts, wallMs: nat -> nat)
      requires Valid() && Inv(State().rows)
      requires forall w :: !plan(w).throwError
      modifies `simNow, db
      ensures Valid() && Inv(State().rows)
      ensures forall r :: r in State().rows && r.stage == QUALIFIED ==> !Elapsed(r.nextDeepAnalyzeAt, simNow)
    {
      hide Inv, QualifiedAt, QualifiedCount, Filter, Take;
      while true
        invariant Valid() && Inv(State().rows)
        decreases QualifiedCount(State().rows)
      {
        var left := Take(Filter(SweepBy(simNow), State().rows), SWEEP_BATCH);
        if |left| == 0 {
          SweepDone(State().rows, simNow);
          break;
        }
        SweepPick(State().rows, simNow, left);
        SweepRound(left, plan, wallMs(|left|));
      }
    }
  }

  const SWEEP_BATCH := 30

  predicate IsQualified(r: Row) {
    r.stage == QUALIFIED
  }

  function QualifiedCount(rows: seq<Row>): nat {
    |Filter(IsQualified, rows)|
  }

  function SweepBy(now: int): Row -> bool {
    (r: Row) => r.stage == QUALIFIED && Elapsed(r.nextDeepAnalyzeAt, now)
  }

  predicate QualifiedAt(rows: seq<Row>, wallet: string) {
    var i := IndexOf(rows, wallet);
    i < |rows| && rows[i].stage == QUALIFIED
  }

  /** The rows when the first `i` of them went through the purge. */
  ghost function PurgedUpTo(rows: seq<Row>, i: nat): (r: seq<Row>)
    requires i <= |rows|
    ensures |r| == |rows|
  {
    Map(PurgedRow, rows[..i]) + rows[i..]
  }

  lemma NothingPurged(rows: seq<Row>)
    ensures PurgedUpTo(rows, 0) == rows && Filter(BelowFloor, rows[..0]) == []
  {
  }

  lemma PurgeNext(rows: seq<Row>, i: nat)
    requires i < |rows|
    ensures PurgedUpTo(rows, i)[i] == rows[i]
    ensures PurgedUpTo(rows, i + 1) == PurgedUpTo(rows, i)[i := PurgedRow(rows[i])]
  {
    hide PurgedRow, Map;
  }

  lemma AllPurged(rows: seq<Row>)
    ensures PurgedUpTo(rows, |rows|) == Map(PurgedRow, rows)
  {
    hide PurgedRow, Map;
    assert rows[..|rows|] == rows;
  }

  lemma CountNext(p: Row -> bool, s: seq<Row>, i: nat)
    requires i < |s|
    ensures |Filter(p, s[..i + 1])| == |Filter(p, s[..i])| + if p(s[i]) then 1 else 0
  {
    assert s[..i + 1] == s[..i] + [s[i]];
    FilterConcat(p, s[..i], [s[i]]);
  }

  /** A row when every row off the board has lost its rank and the first `i` places are given. */
  ghost function PartlyRanked(purged: seq<Row>, board: seq<Entry>, i: nat, j: nat): Row
    requires j < |purged|
  {
    var place := PlaceOf(board, j);
    if place.Some? && place.value >= i then purged[j] else RankedRow(purged[j], place)
  }

  lemma RankNext(purged: seq<Row>, board: seq<Entry>, i: nat)
    requires board == Board(purged) && i < |board|
    ensures
      var k := board[i].index;
      && k < |purged|
      && PartlyRanked(purged, board, i + 1, k) == PartlyRanked(purged, board, i, k).(rank := Some(i + 1))
      && forall j :: 0 <= j < |purged| && j != k ==>
                       PartlyRanked(purged, board, i + 1, j) == PartlyRanked(purged, board, i, j)
  {
    BoardPlaces(purged);
    hide Board, PlaceOf;
  }

  lemma AllRanked(purged: seq<Row>, board: seq<Entry>)
    requires board == Board(purged)
    ensures forall j :: 0 <= j < |purged| ==>
              PartlyRanked(purged, board, |board|, j) == RankedRow(purged[j], PlaceOf(board, j))
  {
    BoardPlaces(purged);
    hide Board, PlaceOf;
  }

  lemma FlushFromPlaces(before: seq<Row>, after: seq<Row>)
    requires |after| == |before|
    requires
      var purged := Map(PurgedRow, before);
      forall i :: 0 <= i < |before| ==> after[i] == RankedRow(purged[i], PlaceOf(Board(purged), i))
    ensures after == FlushRows(before)
  {
    hide Board, PlaceOf, RankedRow, PurgedRow;
  }

  /** Places and rows of a board are each other's inverse. */
  lemma BoardPlaces(rows: seq<Row>)
    ensures
      var board := Board(rows);
      && (forall p :: 0 <= p < |board| ==> board[p].index < |rows| && PlaceOf(board, board[p].index) == Some(p))
      && (forall j: nat :: PlaceOf(board, j).Some? ==>
            PlaceOf(board, j).value < |board| && board[PlaceOf(board, j).value].index == j)
  {
    var board := Board(rows);
    BoardIsSorted(rows);
    hide Board;
    forall p | 0 <= p < |board| ensures board[p].index < |rows| && PlaceOf(board, board[p].index) == Some(p) {
      assert board[p] in board;
      PlaceOfIsPosition(board, board[p].index);
    }
    forall j: nat ensures PlaceOf(board, j).Some? ==>
                    PlaceOf(board, j).value < |board| && board[PlaceOf(board, j).value].index == j {
      PlaceOfIsPosition(board, j);
    }
  }

  lemma SweepDone(rows: seq<Row>, now: int)
    requires |Take(Filter(SweepBy(now), rows), SWEEP_BATCH)| == 0
    ensures forall r :: r in rows && r.stage == QUALIFIED ==> !Elapsed(r.nextDeepAnalyzeAt, now)
  {
    FilterMembers(SweepBy(now), rows);
    forall r | r in rows && r.stage == QUALIFIED ensures !Elapsed(r.nextDeepAnalyzeAt, now) {
      assert SweepBy(now)(r) ==> r in Filter(SweepBy(now), rows);
    }
  }

  lemma SweepPick(rows: seq<Row>, now: int, left: seq<Row>)
    requires Inv(rows) && left == Take(Filter(SweepBy(now), rows), SWEEP_BATCH)
    ensures forall k :: 0 <= k < |left| ==> QualifiedAt(rows, left[k].wallet)
    ensures forall j, k :: 0 <= j < k < |left| ==> left[j].wallet != left[k].wallet
  {
    var all := Filter(SweepBy(now), rows);
    FilterMembers(SweepBy(now), rows);
    assert Distinct(Map(WalletOf, rows));
    FilterDistinct(SweepBy(now), WalletOf, rows);
    forall k | 0 <= k < |left| ensures QualifiedAt(rows, left[k].wallet) {
      assert all[k] in all;
      PickedRow(rows, SweepBy(now), [left[k]], left[k].wallet);
    }
    forall j, k | 0 <= j < k < |left| ensures left[j].wallet != left[k].wallet {
      assert Map(WalletOf, all)[j] == left[j].wallet && Map(WalletOf, all)[k] == left[k].wallet;
    }
  }

  lemma SweepOne(s: System, wallet: string, opts: DeepOpts)
    requires Inv(s.rows) && QualifiedAt(s.rows, wallet) && !opts.throwError
    ensures Enabled(s, Deep(wallet, opts))
    ensures
      var rows' := Step(s, Deep(wallet, opts)).rows;
      && Inv(rows')
      && QualifiedCount(rows') == QualifiedCount(s.rows) - 1
      && forall other :: other != wallet && QualifiedAt(s.rows, other) ==> QualifiedAt(rows', other)
  {
    var i := IndexOf(s.rows, wallet);
    var r := DeepRow(s.rows[i], s.now, opts);
    StepKeepsInv(s, Deep(wallet, opts));
    FilterUpdateCount(IsQualified, s.rows, i, r);
    AnalysedIsNotQualified(s.rows[i], s.now, opts);
    hide DeepRow, Inv, Filter;
    forall other | other != wallet && QualifiedAt(s.rows, other) ensures QualifiedAt(s.rows[i := r], other) {
      OthersKeepPlace(s.rows, i, r, other);
    }
  }

  lemma AnalysedIsNotQualified(r: Row, now: int, opts: DeepOpts)
    requires !opts.throwError
    ensures DeepRow(r, now, opts).stage != QUALIFIED && DeepRow(r, now, opts).wallet == r.wallet
  {
  }

  lemma OthersKeepPlace(rows: seq<Row>, i: nat, r: Row, other: string)
    requires i < |rows| && r.wallet == rows[i].wallet && other != r.wallet && QualifiedAt(rows, other)
    ensures QualifiedAt(rows[i := r], other)
  {
    var k := IndexOf(rows, other);
    assert rows[i := r][k] == rows[k];
    assert IndexOf(rows[i := r], other) == k;
  }

  lemma FlushKeepsQualified(rows: seq<Row>)
    requires Inv(rows)
    ensures QualifiedCount(FlushRows(rows)) == QualifiedCount(rows)
  {
    var after := FlushRows(rows);
    forall i | 0 <= i < |rows| ensures IsQualified(after[i]) == IsQualified(rows[i]) {
      RankIsPlace(rows, i);
      assert RowInv(rows[i]);
    }
    SameCount(IsQualified, IsQualified, rows, after);
  }
}
