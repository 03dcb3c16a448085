/** The scheduler on its mutable wallets: rescoring in place and the loop that clears the TopN. */
module RescoreSession {
  import opened Options
  import opened RescoreScheduler
  import opened Rotation
  import opened RescoreLaws

  class SimWallet {
    const wallet: string
    var stage: Stage
    var rank: Option<int>
    var inCopyPool: bool
    var lastScoredAt: Option<int>
    var nextDeepAnalyzeAt: int
    var lastDeepQueuedAt: Option<int>

    constructor (w: Row)
      ensures Snapshot() == w
    {
      wallet, stage, rank, inCopyPool := w.wallet, w.stage, w.rank, w.inCopyPool;
      lastScoredAt, nextDeepAnalyzeAt, lastDeepQueuedAt := w.lastScoredAt, w.nextDeepAnalyzeAt, w.lastDeepQueuedAt;
    }

    method MarkRescored(now: int)
      modifies this
      ensures Snapshot() == RescoredRow(old(Snapshot()), now)
    {
      lastScoredAt := Some(now);
      nextDeepAnalyzeAt := now;
      lastDeepQueuedAt := Some(now);
      if stage == QUALIFIED {
        if LastDigitEven(wallet) {
          stage := COPY_POOL;
          inCopyPool := true;
          rank := Some(999);
        } else {
          stage := SCORED;
        }
      }
    }

    function Snapshot(): Row
      reads this
    {
      Row(wallet, stage, rank, inCopyPool, lastScoredAt, nextDeepAnalyzeAt, lastDeepQueuedAt)
    }
  }

  /** The wallets as values. */
  function Rows(rows: seq<SimWallet>): (r: seq<Row>)
    reads rows
    ensures |r| == |rows| && forall i :: 0 <= i < |rows| ==> r[i] == rows[i].Snapshot()
  {
    if rows == [] then [] else [rows[0].Snapshot()] + Rows(rows[1..])
  }

  /** No object stands twice in the list. */
  ghost predicate Separate(rows: seq<SimWallet>) {
    forall i, j :: 0 <= i < j < |rows| ==> rows[i] != rows[j]
  }

  lemma {:induction false} RescoreFirst(rows: seq<Row>, wallet: string, i: nat, now: int)
    requires i <= |rows| && (forall j :: 0 <= j < i ==> rows[j].wallet != wallet)
    requires i < |rows| ==> rows[i].wallet == wallet
    ensures Rescore(rows, wallet, now) ==
            if i < |rows| then rows[i := RescoredRow(rows[i], now)] else rows
  {
    if i > 0 {
      RescoreFirst(rows[1..], wallet, i - 1, now);
      if i < |rows| {
        assert rows[i := RescoredRow(rows[i], now)] == [rows[0]] + rows[1..][i - 1 := RescoredRow(rows[i], now)];
      }
    }
  }

  /** Rescores the first wallet of that name, in place. */
  method RescoreWallet(rows: seq<SimWallet>, wallet: string, now: int)
    requires Separate(rows)
    modifies rows
    ensures Rows(rows) == Rescore(old(Rows(rows)), wallet, now)
  {
    var i := 0;
    while i < |rows| && rows[i].wallet != wallet
      invariant i <= |rows| && forall j :: 0 <= j < i ==> rows[j].wallet != wallet
    {
      i := i + 1;
    }
    RescoreFirst(Rows(rows), wallet, i, now);
    if i == |rows| {
      return;
    }
    hide RescoredRow, Rescore;
    ghost var before := Rows(rows);
    rows[i].MarkRescored(now);
    forall j | 0 <= j < |rows| && j != i ensures rows[j].Snapshot() == before[j] {
      assert rows[j] != rows[i];
    }
    assert Rows(rows) == before[i := RescoredRow(before[i], now)];
  }

  /** Rescores every wallet of a picked batch. */
  method RescorePicked(rows: seq<SimWallet>, wallets: seq<string>, now: int)
    requires Separate(rows)
    modifies rows
    ensures Rows(rows) == RescoreAll(old(Rows(rows)), wallets, now)
  {
    for n := 0 to |wallets|
      invariant RescoreAll(Rows(rows), wallets[n..], now) == RescoreAll(old(Rows(rows)), wallets, now)
    {
      assert wallets[n..][0] == wallets[n] && wallets[n..][1..] == wallets[n + 1..];
      RescoreWallet(rows, wallets[n], now);
    }
    assert wallets[|wallets|..] == [];
  }

  const MAX_ROUNDS := 200

  /** Picks and rescores until no TopN wallet is due, at most 200 times. The rounds used are
      `min(200, ceil(due / limit))`, and what is left is what 200 rounds cannot pay. */
  method ClearTopN(rows: seq<SimWallet>, limit: nat, start: Cursor, now: int) returns (cursor: Cursor, rounds: nat)
    requires Separate(rows) && limit >= 1
    requires DistinctWallets(Rows(rows)) && NoDueWalletCools(Rows(rows), now)
    modifies rows
    ensures cursor == start
    ensures rounds == Min(MAX_ROUNDS, CeilDiv(old(CountPriorityDue(Rows(rows), now)), limit))
    ensures CountPriorityDue(Rows(rows), now) == Max(0, old(CountPriorityDue(Rows(rows), now)) - rounds * limit)
    ensures Rows(rows) == Rounds(old(Rows(rows)), limit, start, rounds, now).rows
  {
    hide CountPriorityDue, PickRescoreSlots, RescoreAll, NoDueWalletCools, DistinctWallets, Rounds, CeilDiv, Rows;
    ghost var first := Rows(rows);
    cursor, rounds := start, 0;
    NoRoundYet(first, limit, start, now);
    while CountPriorityDue(Rows(rows), now) > 0 && rounds < MAX_ROUNDS
      invariant rounds <= MAX_ROUNDS && rounds <= CeilDiv(CountPriorityDue(first, now), limit)
      invariant cursor == start
      invariant Rows(rows) == Rounds(first, limit, start, rounds, now).rows
      decreases MAX_ROUNDS - rounds
    {
      DebtDrains(first, limit, start, rounds, now);
      RoundsSnoc(first, limit, start, rounds, now);
      RoundPaysExactly(Rows(rows), limit, cursor, now);
      var picked := PickRescoreSlots(Rows(rows), limit, cursor, now);
      RescorePicked(rows, picked.wallets, now);
      cursor := picked.cursor;
      rounds := rounds + 1;
    }
    DebtDrains(first, limit, start, rounds, now);
  }

  lemma NoRoundYet(rows: seq<Row>, limit: nat, cursor: Cursor, now: int)
    ensures Rounds(rows, limit, cursor, 0, now) == Progress(rows, cursor)
  {
  }

  lemma {:induction false} RoundsSnoc(rows: seq<Row>, limit: nat, cursor: Cursor, rounds: nat, now: int)
    ensures
      var before := Rounds(rows, limit, cursor, rounds, now);
      var p := PickRescoreSlots(before.rows, limit, before.cursor, now);
      Rounds(rows, limit, cursor, rounds + 1, now) == Progress(RescoreAll(before.rows, p.wallets, now), p.cursor)
    decreases rounds
  {
    hide PickRescoreSlots, RescoreAll;
    var p := PickRescoreSlots(rows, limit, cursor, now);
    if rounds > 0 {
      RoundsSnoc(RescoreAll(rows, p.wallets, now), limit, p.cursor, rounds - 1, now);
    } else {
      assert Rounds(RescoreAll(rows, p.wallets, now), limit, p.cursor, 0, now) ==
             Progress(RescoreAll(rows, p.wallets, now), p.cursor);
    }
  }
}
