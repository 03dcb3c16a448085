/** The quotas of the deep picker, written out: what a pick consists of, in order, in both regimes. */
module DeepQuota {
  import opened Options
  import opened Seqs
  import opened PipelineRules
  import opened PipelineLaws
  import opened DeepPicker

  /** An awake wallet of the deep queue whose next analysis is not in the future. */
  predicate HasWork(r: Row, now: int) {
    && !r.dormant && r.stage in {QUALIFIED, SCORED, COPY_POOL}
    && !(r.nextDeepAnalyzeAt.Some? && r.nextDeepAnalyzeAt.value > now)
  }

  function WorkBy(now: int): Row -> bool {
    (r: Row) => HasWork(r, now)
  }

  function NewWorkBy(now: int): Row -> bool {
    (r: Row) => HasWork(r, now) && r.stage == QUALIFIED
  }

  function OldWorkBy(now: int): Row -> bool {
    (r: Row) => HasWork(r, now) && r.stage != QUALIFIED
  }

  function PoolWorkBy(now: int): Row -> bool {
    (r: Row) => HasWork(r, now) && r.stage == COPY_POOL
  }

  predicate AwakeQualified(r: Row) {
    r.stage == QUALIFIED && !r.dormant
  }

  /** The picker's own notions of due work. */
  lemma WorkExactly(r: Row, now: int)
    ensures QueueDueBy(now)(r) <==> HasWork(r, now)
    ensures QualifiedDueBy(now)(r) <==> HasWork(r, now) && r.stage == QUALIFIED
    ensures OtherDueBy(now)(r) <==> HasWork(r, now) && r.stage != QUALIFIED
    ensures PoolDueBy(now)(r) <==> HasWork(r, now) && r.stage == COPY_POOL
    ensures WaitingQualified(r) <==> AwakeQualified(r)
  {
  }

  lemma SameLists(rows: seq<Row>, now: int)
    ensures Filter(QueueDueBy(now), rows) == Filter(WorkBy(now), rows)
    ensures Filter(QualifiedDueBy(now), rows) == Filter(NewWorkBy(now), rows)
    ensures Filter(OtherDueBy(now), rows) == Filter(OldWorkBy(now), rows)
    ensures Filter(PoolDueBy(now), rows) == Filter(PoolWorkBy(now), rows)
    ensures Filter(WaitingQualified, rows) == Filter(AwakeQualified, rows)
  {
    hide Filter, HasWork, AwakeQualified, QueueDueBy, QualifiedDueBy, OtherDueBy, PoolDueBy, WaitingQualified;
    forall r ensures QueueDueBy(now)(r) == WorkBy(now)(r) && QualifiedDueBy(now)(r) == NewWorkBy(now)(r)
                  && OtherDueBy(now)(r) == OldWorkBy(now)(r) && PoolDueBy(now)(r) == PoolWorkBy(now)(r)
                  && WaitingQualified(r) == AwakeQualified(r)
    {
      WorkExactly(r, now);
    }
    FilterSame(QueueDueBy(now), WorkBy(now), rows);
    FilterSame(QualifiedDueBy(now), NewWorkBy(now), rows);
    FilterSame(OtherDueBy(now), OldWorkBy(now), rows);
    FilterSame(PoolDueBy(now), PoolWorkBy(now), rows);
    FilterSame(WaitingQualified, AwakeQualified, rows);
  }

  function FirstWallets(keep: Row -> bool, rows: seq<Row>, n: nat): seq<string> {
    Map(WalletOf, Take(Filter(keep, rows), n))
  }

  /** Places an overloaded queue keeps for QUALIFIED wallets: the least number that is at least one and at least
      three tenths of the places left. */
  ghost predicate QualifiedQuota(left: nat, quota: nat) {
    quota >= 1 && 10 * quota >= 3 * left && (quota == 1 || 10 * (quota - 1) < 3 * left)
  }

  lemma QuotaExactly(left: nat, quota: nat)
    ensures QualifiedQuota(left, quota) <==> quota == QualifiedSlots(left)
  {
  }

  /** The refresh part: as many due pool wallets as the share allows. */
  lemma RefreshSize(rows: seq<Row>, limit: nat, share: real, now: int, n: nat)
    requires share >= 0.0
    ensures
      var refresh, due := Refresh(rows, RefreshSlots(limit, share), now), |Filter(PoolWorkBy(now), rows)|;
      n <= |refresh| <==> n <= due && n as real <= limit as real * share
  {
    SameLists(rows, now);
    hide Filter, PoolWorkBy;
    assert n <= (limit as real * share).Floor <==> n as real <= limit as real * share;
  }

  /** What is picked after the refresh part, when `left` places are left: in a queue with more than five QUALIFIED
      wallets first the quota of those, then wallets scored before; otherwise whoever has work, in table order. */
  function AfterRefresh(rows: seq<Row>, left: nat, quota: nat, now: int): seq<string> {
    if |Filter(AwakeQualified, rows)| > 5 then
      FirstWallets(NewWorkBy(now), rows, quota) +
      FirstWallets(OldWorkBy(now), rows, if quota < left then left - quota else 0)
    else FirstWallets(WorkBy(now), rows, left)
  }

  /** The whole pick: the refresh part, then what comes after it without the wallets that were refreshed, cut at
      the limit. */
  lemma PickDeepExactly(rows: seq<Row>, limit: nat, share: real, now: int, quota: nat)
    requires DistinctWallets(rows) && share >= 0.0
    requires
      var refresh := Refresh(rows, RefreshSlots(limit, share), now);
      QualifiedQuota(if |refresh| <= limit then limit - |refresh| else 0, quota)
    ensures
      var refresh := Refresh(rows, RefreshSlots(limit, share), now);
      var left := if |refresh| <= limit then limit - |refresh| else 0;
      PickDeep(rows, limit, share, now) ==
      Take(refresh + Filter((x: string) => x !in refresh, AfterRefresh(rows, left, quota, now)), limit)
  {
    var refresh := Refresh(rows, RefreshSlots(limit, share), now);
    var left := if |refresh| <= limit then limit - |refresh| else 0;
    QuotaExactly(left, quota);
    CandidatesExactly(rows, limit, share, now);
    RefreshDistinct(rows, RefreshSlots(limit, share), now);
    AfterRefreshDistinct(rows, left, quota, now);
    hide Refresh, RefreshSlots, AfterRefresh, DeepCandidates, Dedup, QualifiedSlots, QualifiedQuota;
    DedupAppend(refresh, AfterRefresh(rows, left, quota, now));
  }

  lemma CandidatesExactly(rows: seq<Row>, limit: nat, share: real, now: int)
    requires share >= 0.0
    ensures
      var refresh := Refresh(rows, RefreshSlots(limit, share), now);
      var left := if |refresh| <= limit then limit - |refresh| else 0;
      DeepCandidates(rows, limit, share, now) == refresh + AfterRefresh(rows, left, QualifiedSlots(left), now)
  {
    SameLists(rows, now);
    hide Refresh, RefreshSlots, Filter, Map, QualifiedSlots, QueueDueBy, QualifiedDueBy, OtherDueBy,
         AwakeQualified, WaitingQualified;
    var refresh := Refresh(rows, RefreshSlots(limit, share), now);
    var left := PipelineLimit(rows, limit, share, now);
    var quota := QualifiedSlots(left);
    if Overloaded(rows) {
      var first := FirstWallets(NewWorkBy(now), rows, quota);
      var then' := FirstWallets(OldWorkBy(now), rows, if quota < left then left - quota else 0);
      assert refresh + first + then' == refresh + (first + then');
    }
  }

  lemma AfterRefreshDistinct(rows: seq<Row>, left: nat, quota: nat, now: int)
    requires DistinctWallets(rows)
    ensures Distinct(AfterRefresh(rows, left, quota, now))
  {
    FilteredWalletsDistinct(rows, WorkBy(now), left);
    var rest := if quota < left then left - quota else 0;
    FilteredWalletsDistinct(rows, NewWorkBy(now), quota);
    FilteredWalletsDistinct(rows, OldWorkBy(now), rest);
    hide Filter, Map, HasWork;
    forall x | x in FirstWallets(NewWorkBy(now), rows, quota) ensures x !in FirstWallets(OldWorkBy(now), rows, rest) {
      if x in FirstWallets(OldWorkBy(now), rows, rest) {
        FromFilter(rows, NewWorkBy(now), quota, x);
        FromFilter(rows, OldWorkBy(now), rest, x);
        OneStage(rows, x);
      }
    }
    ConcatDistinct(FirstWallets(NewWorkBy(now), rows, quota), FirstWallets(OldWorkBy(now), rows, rest));
  }

  lemma OneStage(rows: seq<Row>, wallet: string)
    requires DistinctWallets(rows)
    ensures !((exists r :: r in rows && r.wallet == wallet && r.stage == QUALIFIED) &&
              (exists r :: r in rows && r.wallet == wallet && r.stage != QUALIFIED))
  {
  }

  lemma ConcatDistinct(a: seq<string>, b: seq<string>)
    requires Distinct(a) && Distinct(b) && forall x :: x in a ==> x !in b
    ensures Distinct(a + b)
  {
    var all := a + b;
    forall i, j | 0 <= i < j < |all| ensures all[i] != all[j] {
      if i < |a| <= j {
        assert all[i] in a && all[j] in b;
      }
    }
  }
}
