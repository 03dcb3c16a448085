/** The smart-money pipeline on values: discovery, light and deep analysis, CopyPool hysteresis, the
    rank flush and the pickers. Rows are listed in insertion order, as the source's `Map` keeps them. */
module PipelineRules {
  import opened Options
  import opened Seqs
  import opened Texts

  const ENTER := 40.0
  const EXIT := 30.0
  const EXIT_MISS := 2
  const REQUIRE_TIER2E := false
  const PROFILE_TTL_MS := 45 * 60_000
  const DEEP_QUEUE_MAX := 5
  const WEEK := 7 * 86_400_000

  datatype Stage =
    | RAW | LIGHT_ANALYZING | QUALIFIED | FULL_ANALYZING | SCORED
    | COPY_POOL | BLOCKED | DORMANT | ELIMINATED

  datatype ProfileSource = Live | Snapshot

  datatype Row = Row(
    wallet: string,
    stage: Stage,
    dormant: bool,
    nextLightAnalyzeAt: Option<int>,
    nextDeepAnalyzeAt: Option<int>,
    lastLightQueuedAt: Option<int>,
    lastDeepQueuedAt: Option<int>,
    sources: seq<string>,
    score: Option<real>,
    inCopyPool: bool,
    copyPoolMissCount: int,
    rank: Option<int>,
    tier2Enhanced: bool,
    failReason: Option<string>,
    profileFetchedAt: Option<int>,
    profileSourceLast: Option<ProfileSource>)

  datatype Profile = Profile(holdings: real, predictions: real, curves: real)

  datatype DeepOpts = DeepOpts(throwError: bool, score: real, tier2e: bool, hardFlag: bool, l1Fail: bool)

  // ------------------------------------------------------------ lookup and ingest

  /** The position of a wallet; the number of rows if it is unknown. */
  function IndexOf(rows: seq<Row>, wallet: string): (i: nat)
    ensures i <= |rows|
    ensures i < |rows| ==> rows[i].wallet == wallet
    ensures forall j :: 0 <= j < i ==> rows[j].wallet != wallet
  {
    if rows == [] || rows[0].wallet == wallet then 0 else 1 + IndexOf(rows[1..], wallet)
  }

  function NewRow(wallet: string, source: string, now: int): Row {
    Row(wallet, RAW, false, Some(now), None, None, None, [source], None, false, 0, None, false, None, None, None)
  }

  function TouchedRow(r: Row, source: string, now: int): Row {
    var known := r.(sources := Dedup(r.sources + [source]));
    if r.dormant then known.(dormant := false, nextLightAnalyzeAt := Some(now), nextDeepAnalyzeAt := Some(now))
    else known
  }

  function IngestRows(rows: seq<Row>, wallet: string, source: string, now: int): seq<Row> {
    var w := Lower(wallet);
    var i := IndexOf(rows, w);
    if i == |rows| then rows + [NewRow(w, source, now)] else rows[i := TouchedRow(rows[i], source, now)]
  }

  // ------------------------------------------------------------ analysis

  predicate PassesLight(p: Profile) {
    p.holdings >= 1000.0 && p.predictions >= 10.0 && p.curves >= 5.0
  }

  function LightRow(r: Row, now: int, p: Profile): Row {
    var fetched := r.(lastLightQueuedAt := Some(now), profileFetchedAt := Some(now), profileSourceLast := Some(Live));
    if PassesLight(p) then
      fetched.(stage := QUALIFIED, nextDeepAnalyzeAt := Some(now), failReason := None)
    else
      fetched.(stage := ELIMINATED, nextLightAnalyzeAt := None, nextDeepAnalyzeAt := None,
               failReason := Some("T1L_FAIL"))
  }

  function ResolveProfileSource(r: Row, now: int): ProfileSource {
    if r.profileFetchedAt.Some? && now - r.profileFetchedAt.value <= PROFILE_TTL_MS then Snapshot else Live
  }

  /** What `syncCopyPool` makes of a row that was just scored. */
  function SyncRow(r: Row, score: real, tier2e: bool, hardFlag: bool): Row {
    if hardFlag then r.(inCopyPool := false, rank := None, copyPoolMissCount := 0)
    else if !r.inCopyPool then
      if (REQUIRE_TIER2E ==> tier2e) && score >= ENTER then
        r.(inCopyPool := true, copyPoolMissCount := 0, stage := COPY_POOL)
      else r
    else if score > EXIT then r.(copyPoolMissCount := 0, stage := COPY_POOL)
    else if r.copyPoolMissCount + 1 < EXIT_MISS then r.(copyPoolMissCount := r.copyPoolMissCount + 1)
    else r.(inCopyPool := false, rank := None, stage := SCORED, copyPoolMissCount := 0)
  }

  function QueuedRow(r: Row, now: int): Row {
    var source := ResolveProfileSource(r, now);
    var queued := r.(lastDeepQueuedAt := Some(now), profileSourceLast := Some(source));
    if source == Live then queued.(profileFetchedAt := Some(now)) else queued
  }

  /** The whole effect of a deep analysis on its row. */
  function DeepRow(r: Row, now: int, opts: DeepOpts): Row {
    var queued := QueuedRow(r, now);
    if opts.throwError then
      queued.(stage := if r.stage == FULL_ANALYZING then QUALIFIED else r.stage,
              nextDeepAnalyzeAt := Some(now), failReason := Some("rpc_timeout"))
    else if opts.l1Fail then
      queued.(inCopyPool := false, rank := None, stage := ELIMINATED, nextDeepAnalyzeAt := None,
              nextLightAnalyzeAt := None, failReason := Some("L1-RET"))
    else
      var scored := queued.(score := Some(opts.score), tier2Enhanced := opts.tier2e, stage := SCORED);
      SyncRow(scored, opts.score, opts.tier2e, opts.hardFlag).(nextDeepAnalyzeAt := Some(now + WEEK))
  }

  // ------------------------------------------------------------ the rank flush

  predicate BelowFloor(r: Row) {
    r.inCopyPool && (r.score.None? || r.score.value <= EXIT)
  }

  function PurgedRow(r: Row): Row {
    if BelowFloor(r) then
      r.(inCopyPool := false, rank := None, stage := if r.score.Some? then SCORED else r.stage)
    else r
  }

  predicate OnBoard(r: Row) {
    r.inCopyPool && r.score.Some? && r.score.value > EXIT
  }

  datatype Entry = Entry(index: nat, score: real)

  predicate HigherFirst(a: Entry, b: Entry) {
    a.score >= b.score
  }

  /** The rows on the board from index `from` on. */
  function Entries(rows: seq<Row>, from: nat): seq<Entry>
    requires from <= |rows|
    decreases |rows| - from
  {
    if from == |rows| then []
    else (if OnBoard(rows[from]) then [Entry(from, rows[from].score.value)] else []) + Entries(rows, from + 1)
  }

  /** The board: best score first, insertion order among equals. */
  function Board(rows: seq<Row>): seq<Entry> {
    Sort(HigherFirst, Entries(rows, 0))
  }

  function PlaceOf(board: seq<Entry>, index: nat): Option<nat> {
    if board == [] then None
    else if board[0].index == index then Some(0)
    else var rest := PlaceOf(board[1..], index); if rest.Some? then Some(1 + rest.value) else None
  }

  function RankedRow(r: Row, place: Option<nat>): Row {
    r.(rank := if place.Some? then Some(place.value + 1) else None)
  }

  function FlushRows(rows: seq<Row>): (r: seq<Row>)
    ensures |r| == |rows|
  {
    var purged := Map(PurgedRow, rows);
    var board := Board(purged);
    seq(|rows|, i requires 0 <= i < |rows| => RankedRow(purged[i], PlaceOf(board, i)))
  }

  // ------------------------------------------------------------ pickers

  predicate Elapsed(at: Option<int>, now: int) {
    at.None? || at.value <= now
  }

  predicate LightDue(r: Row, now: int) {
    !r.dormant && r.stage == RAW && Elapsed(r.nextLightAnalyzeAt, now)
  }

  predicate DeepDue(r: Row, now: int) {
    !r.dormant && Elapsed(r.nextDeepAnalyzeAt, now)
  }

  predicate InDeepQueue(r: Row) {
    r.stage == QUALIFIED || r.stage == SCORED || r.stage == COPY_POOL
  }

  function LightDueBy(now: int): Row -> bool {
    (r: Row) => LightDue(r, now)
  }

  function QueueDueBy(now: int): Row -> bool {
    (r: Row) => DeepDue(r, now) && InDeepQueue(r)
  }

  function PoolDueBy(now: int): Row -> bool {
    (r: Row) => DeepDue(r, now) && r.stage == COPY_POOL
  }

  function QualifiedDueBy(now: int): Row -> bool {
    (r: Row) => DeepDue(r, now) && r.stage == QUALIFIED
  }

  function OtherDueBy(now: int): Row -> bool {
    (r: Row) => DeepDue(r, now) && (r.stage == SCORED || r.stage == COPY_POOL)
  }

  predicate WaitingQualified(r: Row) {
    !r.dormant && r.stage == QUALIFIED
  }

  function WalletOf(r: Row): string {
    r.wallet
  }

  predicate LongestWaitFirst(a: Row, b: Row) {
    a.lastDeepQueuedAt.GetOr(0) <= b.lastDeepQueuedAt.GetOr(0)
  }

  function PickLight(rows: seq<Row>, limit: nat, now: int): seq<string> {
    Map(WalletOf, Take(Filter(LightDueBy(now), rows), limit))
  }

  /** `Math.floor(limit * refreshShare)` for a share that is not negative. */
  function RefreshSlots(limit: nat, share: real): nat
    requires share >= 0.0
  {
    (limit as real * share).Floor
  }

  function Refresh(rows: seq<Row>, slots: nat, now: int): seq<string> {
    Map(WalletOf, Take(Sort(LongestWaitFirst, Filter(PoolDueBy(now), rows)), slots))
  }

  predicate Overloaded(rows: seq<Row>) {
    |Filter(WaitingQualified, rows)| > DEEP_QUEUE_MAX
  }

  /** `Math.max(1, Math.ceil(pipelineLimit * 0.3))`, with the share as the exact fraction 3/10. */
  function QualifiedSlots(pipelineLimit: nat): nat {
    if pipelineLimit == 0 then 1 else (3 * pipelineLimit + 9) / 10
  }

  function PipelineLimit(rows: seq<Row>, limit: nat, share: real, now: int): nat
    requires share >= 0.0
  {
    var refresh := Refresh(rows, RefreshSlots(limit, share), now);
    if |refresh| <= limit then limit - |refresh| else 0
  }

  /** The candidates before de-duplication and the final slice. */
  function DeepCandidates(rows: seq<Row>, limit: nat, share: real, now: int): seq<string>
    requires share >= 0.0
  {
    var refresh := Refresh(rows, RefreshSlots(limit, share), now);
    var pipelineLimit := PipelineLimit(rows, limit, share, now);
    if !Overloaded(rows) then
      refresh + Map(WalletOf, Take(Filter(QueueDueBy(now), rows), pipelineLimit))
    else
      var qualifiedSlots := QualifiedSlots(pipelineLimit);
      var otherSlots := if qualifiedSlots <= pipelineLimit then pipelineLimit - qualifiedSlots else 0;
      refresh
      + Map(WalletOf, Take(Filter(QualifiedDueBy(now), rows), qualifiedSlots))
      + Map(WalletOf, Take(Filter(OtherDueBy(now), rows), otherSlots))
  }

  function PickDeep(rows: seq<Row>, limit: nat, share: real, now: int): seq<string>
    requires share >= 0.0
  {
    Take(Dedup(DeepCandidates(rows, limit, share, now)), limit)
  }

  predicate OnCachedBoard(r: Row) {
    r.inCopyPool && r.rank.Some? && r.score.Some? && r.score.value > EXIT
  }

  function CachedBoard(rows: seq<Row>): seq<Row> {
    Filter(OnCachedBoard, rows)
  }
}
