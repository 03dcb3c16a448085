/** The deep picker: what it hands out, and the QUALIFIED share under overload. */
module DeepPicker {
  import opened Options
  import opened Seqs
  import opened PipelineRules
  import opened PipelineLaws

  // ------------------------------------------------------------ what is picked

  ghost predicate DueInQueue(rows: seq<Row>, wallet: string, now: int) {
    exists r :: r in rows && r.wallet == wallet && DeepDue(r, now) && InDeepQueue(r)
  }

  lemma FromFilter(rows: seq<Row>, keep: Row -> bool, slots: nat, wallet: string)
    requires wallet in Map(WalletOf, Take(Filter(keep, rows), slots))
    ensures exists r :: r in rows && r.wallet == wallet && keep(r)
  {
    FilterMembers(keep, rows);
    var kept := Filter(keep, rows);
    var k :| 0 <= k < |Take(kept, slots)| && Map(WalletOf, Take(kept, slots))[k] == wallet;
    assert kept[k] in kept;
  }

  lemma FromRefresh(rows: seq<Row>, slots: nat, now: int, wallet: string)
    requires wallet in Refresh(rows, slots, now)
    ensures exists r :: r in rows && r.wallet == wallet && DeepDue(r, now) && r.stage == COPY_POOL
  {
    var due := Filter(PoolDueBy(now), rows);
    FilterMembers(PoolDueBy(now), rows);
    SortMembers(LongestWaitFirst, due);
    var sorted := Sort(LongestWaitFirst, due);
    var k :| 0 <= k < |Take(sorted, slots)| && Map(WalletOf, Take(sorted, slots))[k] == wallet;
    assert sorted[k] in sorted && sorted[k] in due;
  }

  /** Everything picked is due, awake and waiting in the deep queue. */
  lemma PickedAreDue(rows: seq<Row>, limit: nat, share: real, now: int, wallet: string)
    requires share >= 0.0
    ensures wallet in PickDeep(rows, limit, share, now) ==> DueInQueue(rows, wallet, now)
  {
    if wallet in PickDeep(rows, limit, share, now) {
      assert wallet in DeepCandidates(rows, limit, share, now);
      CandidatesAreDue(rows, limit, share, now, wallet);
    }
  }

  lemma CandidatesAreDue(rows: seq<Row>, limit: nat, share: real, now: int, wallet: string)
    requires share >= 0.0 && wallet in DeepCandidates(rows, limit, share, now)
    ensures DueInQueue(rows, wallet, now)
  {
    var slots := RefreshSlots(limit, share);
    var refresh := Refresh(rows, slots, now);
    var pipeline := PipelineLimit(rows, limit, share, now);
    if wallet in refresh {
      FromRefresh(rows, slots, now, wallet);
    } else if !Overloaded(rows) {
      FromFilter(rows, QueueDueBy(now), pipeline, wallet);
    } else if wallet in Map(WalletOf, Take(Filter(QualifiedDueBy(now), rows), QualifiedSlots(pipeline))) {
      FromFilter(rows, QualifiedDueBy(now), QualifiedSlots(pipeline), wallet);
    } else {
      FromFilter(rows, OtherDueBy(now), pipeline - QualifiedSlots(pipeline), wallet);
    }
  }

  /** The refresh part takes the pool wallets that were queued longest ago. */
  lemma RefreshPicksLongestWaiting(rows: seq<Row>, slots: nat, now: int, a: Row, b: Row)
    requires DistinctWallets(rows) && a in rows && b in rows && PoolDueBy(now)(a) && PoolDueBy(now)(b)
    requires a.wallet in Refresh(rows, slots, now) && b.wallet !in Refresh(rows, slots, now)
    ensures a.lastDeepQueuedAt.GetOr(0) <= b.lastDeepQueuedAt.GetOr(0)
  {
    var due := Filter(PoolDueBy(now), rows);
    var front := Take(Sort(LongestWaitFirst, due), slots);
    FilterMembers(PoolDueBy(now), rows);
    assert Distinct(Map(WalletOf, rows));
    hide Sort, Filter, Map, Take;
    SortMembers(LongestWaitFirst, due);
    FrontOfSort(LongestWaitFirst, due, slots);
    MapMembers(WalletOf, front);
    var x :| x in front && x.wallet == a.wallet;
    assert x in Sort(LongestWaitFirst, due) && x in rows;
    MapDistinctMember(WalletOf, rows, x, a);
    assert b !in front;
    assert LongestWaitFirst(a, b);
  }

  lemma DeepPicksAreEnabled(s: System, limit: nat, share: real, wallet: string, opts: DeepOpts)
    requires DistinctWallets(s.rows) && share >= 0.0
    requires wallet in PickDeep(s.rows, limit, share, s.now)
    ensures Enabled(s, Deep(wallet, opts))
  {
    PickedAreDue(s.rows, limit, share, s.now, wallet);
    var r :| r in s.rows && r.wallet == wallet && DeepDue(r, s.now) && InDeepQueue(r);
    PickedRow(s.rows, QueueDueBy(s.now), [r], wallet);
  }

  lemma {:induction false} NonEmptyFilter<T(!new)>(keep: T -> bool, s: seq<T>)
    ensures Filter(keep, s) != [] <==> exists x :: x in s && keep(x)
  {
    FilterMembers(keep, s);
    if Filter(keep, s) != [] {
      assert Filter(keep, s)[0] in s;
    }
    if x :| x in s && keep(x) {
      assert x in Filter(keep, s);
    }
  }

  /** The queue still holds due work. */
  ghost predicate WorkDue(rows: seq<Row>, now: int) {
    exists r :: r in rows && QueueDueBy(now)(r)
  }

  /** Nothing picked: no work is due, or the one place of an overloaded queue is kept for a QUALIFIED
      wallet and none is due. In particular a limit of 2 or more never overlooks due work. */
  lemma PickDeepEmptyExactly(rows: seq<Row>, limit: nat, share: real, now: int)
    requires share >= 0.0 && limit >= 1
    ensures PickDeep(rows, limit, share, now) == [] <==>
            || !WorkDue(rows, now)
            || (limit == 1 && Overloaded(rows) && Refresh(rows, RefreshSlots(limit, share), now) == [] &&
                !exists r :: r in rows && QualifiedDueBy(now)(r))
  {
    hide PickDeep, Refresh, Overloaded, Filter;
    EmptyCandidates(rows, limit, share, now);
    EmptyPick(rows, limit, share, now);
  }

  lemma EmptyPick(rows: seq<Row>, limit: nat, share: real, now: int)
    requires share >= 0.0 && limit >= 1
    ensures PickDeep(rows, limit, share, now) == [] <==> DeepCandidates(rows, limit, share, now) == []
  {
    hide DeepCandidates, Dedup;
    var candidates := DeepCandidates(rows, limit, share, now);
    if candidates != [] {
      assert candidates[0] in Dedup(candidates);
    }
  }

  lemma EmptyTake(rows: seq<Row>, keep: Row -> bool, slots: nat)
    ensures Map(WalletOf, Take(Filter(keep, rows), slots)) == [] <==>
              slots == 0 || !exists r :: r in rows && keep(r)
  {
    hide Filter, Map;
    NonEmptyFilter(keep, rows);
  }

  lemma EmptyCandidates(rows: seq<Row>, limit: nat, share: real, now: int)
    requires share >= 0.0 && limit >= 1
    ensures DeepCandidates(rows, limit, share, now) == [] <==>
            || !WorkDue(rows, now)
            || (limit == 1 && Overloaded(rows) && Refresh(rows, RefreshSlots(limit, share), now) == [] &&
                !exists r :: r in rows && QualifiedDueBy(now)(r))
  {
    hide Refresh, Overloaded, Filter, Map, Take;
    var refresh := Refresh(rows, RefreshSlots(limit, share), now);
    var pipeline := PipelineLimit(rows, limit, share, now);
    var slots := QualifiedSlots(pipeline);
    EmptyTake(rows, QueueDueBy(now), pipeline);
    EmptyTake(rows, QualifiedDueBy(now), slots);
    EmptyTake(rows, OtherDueBy(now), if slots <= pipeline then pipeline - slots else 0);
    if refresh != [] {
      FromRefresh(rows, RefreshSlots(limit, share), now, refresh[0]);
    }
    QueueSplits(now);
  }

  /** The queue is the QUALIFIED wallets and the others. */
  lemma QueueSplits(now: int)
    ensures forall r :: QueueDueBy(now)(r) <==> QualifiedDueBy(now)(r) || OtherDueBy(now)(r)
  {
  }

  // ------------------------------------------------------------ the QUALIFIED share

  function QualifiedIn(rows: seq<Row>): string -> bool {
    (x: string) => exists r :: r in rows && r.wallet == x && r.stage == QUALIFIED
  }

  lemma FilteredWalletsDistinct(rows: seq<Row>, keep: Row -> bool, slots: nat)
    requires DistinctWallets(rows)
    ensures Distinct(Map(WalletOf, Take(Filter(keep, rows), slots)))
  {
    assert Distinct(Map(WalletOf, rows));
    FilterDistinct(keep, WalletOf, rows);
    MapTakeDistinct(WalletOf, Filter(keep, rows), slots);
  }

  lemma RefreshDistinct(rows: seq<Row>, slots: nat, now: int)
    requires DistinctWallets(rows)
    ensures Distinct(Refresh(rows, slots, now)) && |Refresh(rows, slots, now)| <= slots
    ensures forall x :: x in Refresh(rows, slots, now) ==> !QualifiedIn(rows)(x)
  {
    var due := Filter(PoolDueBy(now), rows);
    var sorted := Sort(LongestWaitFirst, due);
    assert Distinct(Map(WalletOf, rows));
    FilterDistinct(PoolDueBy(now), WalletOf, rows);
    MapPermutation(WalletOf, due, sorted);
    DistinctPermutation(Map(WalletOf, due), Map(WalletOf, sorted));
    MapTakeDistinct(WalletOf, sorted, slots);
    forall x | x in Refresh(rows, slots, now) ensures !QualifiedIn(rows)(x) {
      FromRefresh(rows, slots, now, x);
    }
  }

  lemma QualifiedPart(rows: seq<Row>, slots: nat, now: int)
    requires DistinctWallets(rows)
    ensures
      var part := Map(WalletOf, Take(Filter(QualifiedDueBy(now), rows), slots));
      Distinct(part) && forall x :: x in part ==> QualifiedIn(rows)(x)
  {
    FilteredWalletsDistinct(rows, QualifiedDueBy(now), slots);
    forall x | x in Map(WalletOf, Take(Filter(QualifiedDueBy(now), rows), slots)) ensures QualifiedIn(rows)(x) {
      FromFilter(rows, QualifiedDueBy(now), slots, x);
    }
  }

  lemma OtherPart(rows: seq<Row>, slots: nat, now: int)
    requires DistinctWallets(rows)
    ensures forall x :: x in Map(WalletOf, Take(Filter(OtherDueBy(now), rows), slots)) ==> !QualifiedIn(rows)(x)
  {
    forall x | x in Map(WalletOf, Take(Filter(OtherDueBy(now), rows), slots)) ensures !QualifiedIn(rows)(x) {
      FromFilter(rows, OtherDueBy(now), slots, x);
    }
  }

  /** De-duplicating and cutting `front + rest` at `limit` keeps all that `front` has of `p`, when
      `front` fits and `rest` has none. */
  lemma CutKeepsFront(p: string -> bool, front: seq<string>, rest: seq<string>, limit: nat)
    requires Distinct(front) && |front| <= limit && forall x :: x in rest ==> !p(x)
    ensures |Filter(p, Take(Dedup(front + rest), limit))| == |Filter(p, front)|
  {
    var picked := Take(Dedup(front + rest), limit);
    DedupKeepsFront(front, rest);
    var tail := picked[|front|..];
    assert picked == front + tail;
    forall x | x in tail ensures !p(x) {
      var k :| 0 <= k < |tail| && tail[k] == x;
      assert picked[|front| + k] == x && x in Dedup(front + rest);
      forall j | 0 <= j < |front| ensures front[j] != x {
        assert picked[j] == front[j];
      }
    }
    FilterConcat(p, front, tail);
    FilterNothing(p, tail);
  }

  /** Under overload the pick holds exactly `min(due QUALIFIED, max(1, ceil(0.3 * pipelineLimit)))`
      QUALIFIED wallets while the refresh part leaves room, and none once it takes every place. */
  lemma OverloadKeepsQualifiedShare(rows: seq<Row>, limit: nat, share: real, now: int)
    requires DistinctWallets(rows) && share >= 0.0 && limit >= 1 && Overloaded(rows)
    ensures
      var picked := PickDeep(rows, limit, share, now);
      var refresh := Refresh(rows, RefreshSlots(limit, share), now);
      var slots := QualifiedSlots(PipelineLimit(rows, limit, share, now));
      var due := |Filter(QualifiedDueBy(now), rows)|;
      && |picked| <= limit && Distinct(picked)
      && (|refresh| < limit ==>
            && |Filter(QualifiedIn(rows), picked)| == (if due < slots then due else slots)
            && slots >= 1 && 10 * slots >= 3 * (limit - |refresh|))
      && (|refresh| >= limit ==> Filter(QualifiedIn(rows), picked) == [])
      && (share < 1.0 ==> |refresh| < limit)
  {
    hide Refresh, QualifiedIn, Filter, Overloaded, Map, Dedup, RefreshSlots;
    var refresh := Refresh(rows, RefreshSlots(limit, share), now);
    var pipeline := PipelineLimit(rows, limit, share, now);
    var slots := QualifiedSlots(pipeline);
    var otherSlots := if slots <= pipeline then pipeline - slots else 0;
    var qualified := Map(WalletOf, Take(Filter(QualifiedDueBy(now), rows), slots));
    var others := Map(WalletOf, Take(Filter(OtherDueBy(now), rows), otherSlots));
    RefreshDistinct(rows, RefreshSlots(limit, share), now);
    QualifiedPart(rows, slots, now);
    OtherPart(rows, otherSlots, now);
    ShareBelowOne(limit, share);
    TakeDedupDistinct(refresh + qualified + others, limit);
    CutThreeParts(QualifiedIn(rows), refresh, qualified, others, limit);
    PickIs(rows, limit, share, now);
    assert PickDeep(rows, limit, share, now) == Take(Dedup(refresh + qualified + others), limit);
  }

  /** The pick under overload. */
  lemma PickIs(rows: seq<Row>, limit: nat, share: real, now: int)
    requires share >= 0.0 && Overloaded(rows)
    ensures
      var pipeline := PipelineLimit(rows, limit, share, now);
      var slots := QualifiedSlots(pipeline);
      PickDeep(rows, limit, share, now) ==
      Take(Dedup(Refresh(rows, RefreshSlots(limit, share), now)
                 + Map(WalletOf, Take(Filter(QualifiedDueBy(now), rows), slots))
                 + Map(WalletOf, Take(Filter(OtherDueBy(now), rows),
                                      if slots <= pipeline then pipeline - slots else 0))), limit)
  {
    hide Refresh, Filter, Overloaded, Map, Dedup, RefreshSlots, PipelineLimit, QualifiedSlots, Take;
  }

  /** Refresh, QUALIFIED and the rest after de-duplication and the cut. */
  lemma CutThreeParts(p: string -> bool, refresh: seq<string>, qualified: seq<string>, others: seq<string>, limit: nat)
    requires Distinct(refresh) && Distinct(qualified)
    requires |refresh| < limit ==> |refresh| + |qualified| <= limit
    requires forall x :: (x in refresh || x in others ==> !p(x)) && (x in qualified ==> p(x))
    ensures
      var kept := Filter(p, Take(Dedup(refresh + qualified + others), limit));
      if |refresh| < limit then |kept| == |qualified| else kept == []
  {
    JoinDistinct(p, refresh, qualified);
    if |refresh| < limit {
      CutKeepsFront(p, refresh + qualified, others, limit);
    } else {
      CutInsideFront(p, refresh, qualified + others, limit);
      assert refresh + qualified + others == refresh + (qualified + others);
    }
  }

  lemma ShareBelowOne(limit: nat, share: real)
    requires share >= 0.0 && limit >= 1
    ensures share < 1.0 ==> RefreshSlots(limit, share) < limit
  {
    if share < 1.0 {
      assert limit as real * share < limit as real;
    }
  }

  lemma TakeDedupDistinct(s: seq<string>, limit: nat)
    ensures Distinct(Take(Dedup(s), limit))
  {
  }

  lemma CutInsideFront(p: string -> bool, front: seq<string>, rest: seq<string>, limit: nat)
    requires Distinct(front) && limit <= |front| && forall x :: x in front ==> !p(x)
    ensures Filter(p, Take(Dedup(front + rest), limit)) == []
  {
    DedupKeepsFront(front, rest);
    assert Take(Dedup(front + rest), limit) == front[..limit];
    FilterNothing(p, front[..limit]);
  }

  /** Without overload a pick holds at most one place for each due wallet, and at least as many wallets as
      the places that refreshing left over can serve. The two bounds differ because a wallet picked for
      refreshing may take a pipeline place too. */
  lemma NormalPickSize(rows: seq<Row>, limit: nat, share: real, now: int)
    requires DistinctWallets(rows) && share >= 0.0 && !Overloaded(rows)
    ensures
      var picked := PickDeep(rows, limit, share, now);
      var due := |Filter(QueueDueBy(now), rows)|;
      var places := PipelineLimit(rows, limit, share, now);
      && (if places < due then places else due) <= |picked|
      && |picked| <= limit && |picked| <= due
  {
    hide Overloaded, Refresh, Filter, Map, Dedup, DistinctWallets, PipelineLimit;
    var refresh := Refresh(rows, RefreshSlots(limit, share), now);
    var places := PipelineLimit(rows, limit, share, now);
    var pipeline := Map(WalletOf, Take(Filter(QueueDueBy(now), rows), places));
    var all := DeepCandidates(rows, limit, share, now);
    assert all == refresh + pipeline;
    FilteredWalletsDistinct(rows, QueueDueBy(now), places);
    assert places <= limit by {
      PlacesFit(rows, limit, share, now);
    }
    DistinctInside(pipeline, Dedup(all));
    TakeDedupDistinct(all, limit);
    PickedAreFew(rows, limit, share, now);
  }

  lemma PlacesFit(rows: seq<Row>, limit: nat, share: real, now: int)
    requires share >= 0.0
    ensures PipelineLimit(rows, limit, share, now) <= limit
  {
    hide Refresh;
  }

  lemma PickedAreFew(rows: seq<Row>, limit: nat, share: real, now: int)
    requires share >= 0.0
    ensures |PickDeep(rows, limit, share, now)| <= |Filter(QueueDueBy(now), rows)|
  {
    var picked := PickDeep(rows, limit, share, now);
    var due := Map(WalletOf, Filter(QueueDueBy(now), rows));
    TakeDedupDistinct(DeepCandidates(rows, limit, share, now), limit);
    forall x | x in picked ensures x in due {
      PickedAreDue(rows, limit, share, now, x);
      hide PickDeep, Map, Filter;
      FilterMembers(QueueDueBy(now), rows);
      MapMembers(WalletOf, Filter(QueueDueBy(now), rows));
      var r :| r in rows && r.wallet == x && DeepDue(r, now) && InDeepQueue(r);
      assert QueueDueBy(now)(r);
    }
    hide PickDeep, Map, Filter;
    DistinctInside(picked, due);
  }
}
