/** Priority work and the background rotation in any interleaving with rescoring, at a fixed clock. */
module RescoreInterleavings {
  import opened Seqs
  import opened RescoreScheduler
  import opened Rotation
  import opened RescoreLaws

  /** A slot pick, the slot pick inside a deep batch, or the rescoring of any wallet. */
  datatype Event = Pick(limit: nat) | DeepPick(limit: nat, share: real) | Rescored(wallet: string)

  datatype Call = Call(limit: nat, wallets: seq<string>)

  datatype History = History(rows: seq<Row>, cursor: Cursor, background: seq<Call>)

  /** How many rescore slots a pick has. */
  function SlotLimit(rows: seq<Row>, cursor: Cursor, e: Event, now: int): nat
    requires !e.Rescored?
  {
    match e
    case Pick(limit) => limit
    case DeepPick(limit, share) => PickDeepBatch(rows, limit, cursor, share, now).refreshLimit
  }

  /** What happens, with the calls that the background channel answered. */
  function Run(rows: seq<Row>, cursor: Cursor, events: seq<Event>, now: int): History
    decreases |events|
  {
    if events == [] then History(rows, cursor, [])
    else if events[0].Rescored? then Run(Rescore(rows, events[0].wallet, now), cursor, events[1..], now)
    else
      var limit := SlotLimit(rows, cursor, events[0], now);
      var p := PickRescoreSlots(rows, limit, cursor, now);
      var rest := Run(rows, p.cursor, events[1..], now);
      if p.channel == Priority then rest
      else rest.(background := [Call(limit, p.wallets)] + rest.background)
  }

  /** The steps of a run in which only the background channel picks. */
  datatype Step = BackgroundPick(limit: nat) | Rescoring(wallet: string)

  function BackgroundOnly(rows: seq<Row>, cursor: Cursor, steps: seq<Step>, now: int): History
    decreases |steps|
  {
    if steps == [] then History(rows, cursor, [])
    else match steps[0]
      case Rescoring(wallet) => BackgroundOnly(Rescore(rows, wallet, now), cursor, steps[1..], now)
      case BackgroundPick(limit) =>
        var b := PickBackground(rows, limit, cursor, now);
        var rest := BackgroundOnly(rows, b.cursor, steps[1..], now);
        rest.(background := [Call(limit, b.wallets)] + rest.background)
  }

  /** What is left of a run when every pick that the priority channel answers is deleted, and every rescoring
      that is safe when it happens. */
  ghost function Kept(rows: seq<Row>, cursor: Cursor, events: seq<Event>, now: int): seq<Step>
    decreases |events|
  {
    if events == [] then []
    else if events[0].Rescored? then
      var wallet := events[0].wallet;
      var rest := Kept(Rescore(rows, wallet, now), cursor, events[1..], now);
      if SafeToRescore(rows, wallet, now) then rest else [Rescoring(wallet)] + rest
    else
      var limit := SlotLimit(rows, cursor, events[0], now);
      var p := PickRescoreSlots(rows, limit, cursor, now);
      var rest := Kept(rows, p.cursor, events[1..], now);
      if p.channel == Priority then rest else [BackgroundPick(limit)] + rest
  }

  // ------------------------------------------------------------ rows alike for the rotation

  /** All that the rotation and the QUALIFIED floor look at. */
  predicate SameStanding(a: Row, b: Row, now: int) {
    && a.wallet == b.wallet && a.stage == b.stage && a.rank == b.rank && a.inCopyPool == b.inCopyPool
    && (a.nextDeepAnalyzeAt <= now <==> b.nextDeepAnalyzeAt <= now)
  }

  ghost predicate Alike(rows: seq<Row>, rows': seq<Row>, now: int) {
    |rows| == |rows'| && forall i :: 0 <= i < |rows| ==> SameStanding(rows[i], rows'[i], now)
  }

  lemma {:induction false} AlikeRings(rows: seq<Row>, rows': seq<Row>, now: int)
    requires Alike(rows, rows', now)
    ensures Map(KeyOf, Filter(BackgroundBy(now), rows)) == Map(KeyOf, Filter(BackgroundBy(now), rows'))
  {
    if rows != [] {
      AlikeRings(rows[1..], rows'[1..], now);
      assert SameStanding(rows[0], rows'[0], now);
    }
  }

  lemma AlikePicks(rows: seq<Row>, rows': seq<Row>, limit: nat, cursor: Cursor, now: int)
    requires Alike(rows, rows', now)
    ensures PickBackground(rows, limit, cursor, now) == PickBackground(rows', limit, cursor, now)
  {
    hide PickBackground, PickKeys, Alike;
    AlikeRings(rows, rows', now);
    BackgroundByRing(rows, limit, cursor, now);
    BackgroundByRing(rows', limit, cursor, now);
  }

  lemma {:induction false} RescoringAlike(rows: seq<Row>, rows': seq<Row>, wallet: string, now: int)
    requires Alike(rows, rows', now)
    ensures Alike(Rescore(rows, wallet, now), Rescore(rows', wallet, now), now)
  {
    if rows != [] {
      assert SameStanding(rows[0], rows'[0], now);
      if rows[0].wallet != wallet {
        RescoringAlike(rows[1..], rows'[1..], wallet, now);
      } else {
        RescoredAlike(rows[0], rows'[0], now);
      }
      hide SameStanding, RescoredRow;
    }
  }

  lemma RescoredAlike(a: Row, b: Row, now: int)
    requires SameStanding(a, b, now)
    ensures SameStanding(RescoredRow(a, now), RescoredRow(b, now), now)
  {
    hide LastDigitEven;
  }

  /** A safe rescoring leaves the rows alike. */
  lemma {:induction false} SafeRescoringIsUnseen(rows: seq<Row>, wallet: string, now: int)
    requires SafeToRescore(rows, wallet, now)
    ensures Alike(rows, Rescore(rows, wallet, now), now)
  {
    if rows != [] {
      assert rows[0] in rows;
      assert forall w :: w in rows[1..] ==> w in rows;
      if rows[0].wallet != wallet {
        SafeRescoringIsUnseen(rows[1..], wallet, now);
      }
    }
  }

  lemma AlikeTransitive(a: seq<Row>, b: seq<Row>, c: seq<Row>, now: int)
    requires Alike(a, b, now) && Alike(a, c, now)
    ensures Alike(b, c, now)
  {
    forall i | 0 <= i < |b| ensures SameStanding(b[i], c[i], now) {
      assert SameStanding(a[i], b[i], now) && SameStanding(a[i], c[i], now);
    }
  }

  // ------------------------------------------------------------ the rotation is undisturbed

  /** Priority picks, and rescoring that is safe when it happens, never disturb the rotation: in any
      interleaving whatever, the background calls return exactly what they return when those are deleted. */
  lemma PriorityWorkIsInvisible(rows: seq<Row>, cursor: Cursor, events: seq<Event>, now: int)
    ensures
      var run := Run(rows, cursor, events, now);
      var alone := BackgroundOnly(rows, cursor, Kept(rows, cursor, events, now), now);
      run.background == alone.background && run.cursor == alone.cursor
  {
    hide Run, BackgroundOnly, Kept;
    InvisibleOnAlike(rows, rows, cursor, events, now);
  }

  lemma {:induction false} InvisibleOnAlike(rows: seq<Row>, rows': seq<Row>, cursor: Cursor, events: seq<Event>, now: int)
    requires Alike(rows, rows', now)
    ensures
      var run := Run(rows, cursor, events, now);
      var alone := BackgroundOnly(rows', cursor, Kept(rows, cursor, events, now), now);
      run.background == alone.background && run.cursor == alone.cursor
    decreases |events|
  {
    hide Alike, SafeToRescore, PickBackground, PickPriority, CountPriorityDue, SlotLimit, Rescore;
    if events != [] {
      var rest := events[1..];
      if events[0].Rescored? {
        var wallet := events[0].wallet;
        var next := Rescore(rows, wallet, now);
        if SafeToRescore(rows, wallet, now) {
          SafeRescoringIsUnseen(rows, wallet, now);
          AlikeTransitive(rows, next, rows', now);
          InvisibleOnAlike(next, rows', cursor, rest, now);
        } else {
          RescoringAlike(rows, rows', wallet, now);
          InvisibleOnAlike(next, Rescore(rows', wallet, now), cursor, rest, now);
          RescoringFirst(rows', cursor, wallet, Kept(next, cursor, rest, now), now);
        }
      } else {
        var limit := SlotLimit(rows, cursor, events[0], now);
        var p := PickRescoreSlots(rows, limit, cursor, now);
        InvisibleOnAlike(rows, rows', p.cursor, rest, now);
        if p.channel == Background {
          AlikePicks(rows, rows', limit, cursor, now);
          BackgroundFirst(rows', cursor, limit, Kept(rows, p.cursor, rest, now), now);
        }
      }
    }
  }

  lemma RescoringFirst(rows: seq<Row>, cursor: Cursor, wallet: string, rest: seq<Step>, now: int)
    ensures BackgroundOnly(rows, cursor, [Rescoring(wallet)] + rest, now) ==
            BackgroundOnly(Rescore(rows, wallet, now), cursor, rest, now)
  {
    hide Rescore;
    assert ([Rescoring(wallet)] + rest)[1..] == rest;
  }

  lemma BackgroundFirst(rows: seq<Row>, cursor: Cursor, limit: nat, rest: seq<Step>, now: int)
    ensures
      var b := PickBackground(rows, limit, cursor, now);
      var after := BackgroundOnly(rows, b.cursor, rest, now);
      BackgroundOnly(rows, cursor, [BackgroundPick(limit)] + rest, now) ==
      after.(background := [Call(limit, b.wallets)] + after.background)
  {
    hide PickBackground;
    assert ([BackgroundPick(limit)] + rest)[1..] == rest;
  }

  // ------------------------------------------------------------ rescoring what was handed out

  /** Every rescored wallet was handed out in a slot before, however long ago. */
  ghost predicate OnlyHandedOut(rows: seq<Row>, cursor: Cursor, events: seq<Event>, handed: set<string>, now: int)
    decreases |events|
  {
    if events == [] then true
    else if events[0].Rescored? then
      events[0].wallet in handed && OnlyHandedOut(Rescore(rows, events[0].wallet, now), cursor, events[1..], handed, now)
    else
      var p := PickRescoreSlots(rows, SlotLimit(rows, cursor, events[0], now), cursor, now);
      OnlyHandedOut(rows, p.cursor, events[1..], handed + (set x | x in p.wallets), now)
  }

  /** The background channel alone, on rows nobody rescores. */
  function Replay(rows: seq<Row>, cursor: Cursor, calls: seq<Call>, now: int): History
    decreases |calls|
  {
    if calls == [] then History(rows, cursor, [])
    else
      var b := PickBackground(rows, calls[0].limit, cursor, now);
      var rest := Replay(rows, b.cursor, calls[1..], now);
      rest.(background := [Call(calls[0].limit, b.wallets)] + rest.background)
  }

  /** When only handed-out wallets are rescored, whenever that happens, the background calls return exactly
      what they return on rows that nobody rescores. */
  lemma HandedOutWorkIsInvisible(rows: seq<Row>, cursor: Cursor, events: seq<Event>, now: int)
    requires DistinctWallets(rows) && OnlyHandedOut(rows, cursor, events, {}, now)
    ensures
      var run := Run(rows, cursor, events, now);
      var alone := Replay(rows, cursor, run.background, now);
      run.background == alone.background && run.cursor == alone.cursor
  {
    hide Run, Replay, OnlyHandedOut, BackgroundOnly, Kept;
    PriorityWorkIsInvisible(rows, cursor, events, now);
    OnlyPicksKept(rows, cursor, events, {}, now);
    PicksAreReplay(rows, cursor, Kept(rows, cursor, events, now), now);
  }

  /** No rescoring of a handed-out wallet is kept. */
  lemma {:induction false} OnlyPicksKept(rows: seq<Row>, cursor: Cursor, events: seq<Event>, handed: set<string>, now: int)
    requires DistinctWallets(rows) && forall x :: x in handed ==> SafeToRescore(rows, x, now)
    requires OnlyHandedOut(rows, cursor, events, handed, now)
    ensures forall step :: step in Kept(rows, cursor, events, now) ==> step.BackgroundPick?
    decreases |events|
  {
    hide SafeToRescore, PickRescoreSlots, SlotLimit, Rescore, DistinctWallets;
    if events != [] {
      if events[0].Rescored? {
        var wallet := events[0].wallet;
        RescoringKeepsWallets(rows, wallet, now);
        forall x | x in handed ensures SafeToRescore(Rescore(rows, wallet, now), x, now) {
          SafeStaysSafe(rows, wallet, x, now);
        }
        OnlyPicksKept(Rescore(rows, wallet, now), cursor, events[1..], handed, now);
      } else {
        var limit := SlotLimit(rows, cursor, events[0], now);
        var p := PickRescoreSlots(rows, limit, cursor, now);
        forall x | x in p.wallets ensures SafeToRescore(rows, x, now) {
          PickedAreSafe(rows, limit, cursor, x, now);
        }
        OnlyPicksKept(rows, p.cursor, events[1..], handed + (set x | x in p.wallets), now);
      }
    }
  }

  lemma {:induction false} RescoreMembers(rows: seq<Row>, wallet: string, now: int)
    ensures forall r :: r in Rescore(rows, wallet, now) ==>
              r in rows || exists w :: w in rows && w.wallet == wallet && r == RescoredRow(w, now)
    ensures forall r :: r in rows && r.wallet != wallet ==> r in Rescore(rows, wallet, now)
  {
    hide RescoredRow;
    if rows != [] {
      assert rows == [rows[0]] + rows[1..];
      RescoreMembers(rows[1..], wallet, now);
    }
  }

  /** No rescoring makes a safe wallet unsafe. */
  lemma SafeStaysSafe(rows: seq<Row>, wallet: string, other: string, now: int)
    requires SafeToRescore(rows, other, now)
    ensures SafeToRescore(Rescore(rows, wallet, now), other, now)
  {
    RescoreMembers(rows, wallet, now);
    hide Rescore, LastDigitEven;
    forall r | r in Rescore(rows, wallet, now) && r.wallet == other
      ensures r.stage != QUALIFIED && r.nextDeepAnalyzeAt <= now
    {
      if r !in rows {
        var w :| w in rows && w.wallet == wallet && r == RescoredRow(w, now);
      }
    }
  }

  /** Rescoring a safe wallet changes neither the rotation nor which wallets are safe. */
  lemma SafeRescoringKeepsRing(rows: seq<Row>, wallet: string, other: string, now: int)
    requires SafeToRescore(rows, wallet, now)
    ensures Ring(Rescore(rows, wallet, now), now) == Ring(rows, now)
    ensures SafeToRescore(Rescore(rows, wallet, now), other, now) <==> SafeToRescore(rows, other, now)
  {
    SafeRescoringIsUnseen(rows, wallet, now);
    AlikeRings(rows, Rescore(rows, wallet, now), now);
    hide Alike;
    RescoreMembers(rows, wallet, now);
    if SafeToRescore(rows, other, now) {
      SafeStaysSafe(rows, wallet, other, now);
    }
  }

  lemma {:induction false} RescoreKeepsNames(rows: seq<Row>, wallet: string, now: int)
    ensures forall i :: 0 <= i < |rows| ==> Rescore(rows, wallet, now)[i].wallet == rows[i].wallet
  {
    if rows != [] {
      RescoreKeepsNames(rows[1..], wallet, now);
    }
  }

  lemma RescoringKeepsWallets(rows: seq<Row>, wallet: string, now: int)
    requires DistinctWallets(rows)
    ensures DistinctWallets(Rescore(rows, wallet, now))
  {
    RescoreKeepsNames(rows, wallet, now);
  }

  lemma {:induction false} PicksAreReplay(rows: seq<Row>, cursor: Cursor, steps: seq<Step>, now: int)
    requires forall step :: step in steps ==> step.BackgroundPick?
    ensures
      var alone := BackgroundOnly(rows, cursor, steps, now);
      var replay := Replay(rows, cursor, alone.background, now);
      replay.background == alone.background && replay.cursor == alone.cursor
    decreases |steps|
  {
    hide PickBackground;
    if steps != [] {
      assert steps[0] in steps;
      var b := PickBackground(rows, steps[0].limit, cursor, now);
      PicksAreReplay(rows, b.cursor, steps[1..], now);
      var rest := BackgroundOnly(rows, b.cursor, steps[1..], now).background;
      assert ([Call(steps[0].limit, b.wallets)] + rest)[1..] == rest;
    }
  }

  // ------------------------------------------------------------ the closed loop

  function Rescorings(wallets: seq<string>): (r: seq<Event>)
    ensures |r| == |wallets|
  {
    if wallets == [] then [] else [Rescored(wallets[0])] + Rescorings(wallets[1..])
  }

  /** The loop that rescores what it picks, pick by pick. */
  function Loop(rows: seq<Row>, cursor: Cursor, limits: seq<nat>, now: int): seq<Event>
    decreases |limits|
  {
    if limits == [] then []
    else
      var p := PickRescoreSlots(rows, limits[0], cursor, now);
      [Pick(limits[0])] + (Rescorings(p.wallets) + Loop(RescoreAll(rows, p.wallets, now), p.cursor, limits[1..], now))
  }

  /** The rotation inside that loop runs as if nothing were ever rescored. */
  lemma LoopKeepsRotation(rows: seq<Row>, cursor: Cursor, limits: seq<nat>, now: int)
    requires DistinctWallets(rows)
    ensures
      var run := Run(rows, cursor, Loop(rows, cursor, limits, now), now);
      var alone := Replay(rows, cursor, run.background, now);
      run.background == alone.background && run.cursor == alone.cursor
  {
    hide Run, Replay, Loop, OnlyHandedOut;
    LoopHandsOut(rows, cursor, limits, {}, now);
    HandedOutWorkIsInvisible(rows, cursor, Loop(rows, cursor, limits, now), now);
  }

  lemma {:induction false} LoopHandsOut(rows: seq<Row>, cursor: Cursor, limits: seq<nat>, handed: set<string>, now: int)
    ensures OnlyHandedOut(rows, cursor, Loop(rows, cursor, limits, now), handed, now)
    decreases |limits|
  {
    hide PickRescoreSlots, RescoreAll;
    if limits != [] {
      var p := PickRescoreSlots(rows, limits[0], cursor, now);
      var handed' := handed + (set x | x in p.wallets);
      var rest := Loop(RescoreAll(rows, p.wallets, now), p.cursor, limits[1..], now);
      LoopHandsOut(RescoreAll(rows, p.wallets, now), p.cursor, limits[1..], handed', now);
      RescoringsHandedOut(rows, p.cursor, p.wallets, rest, handed', now);
      PickHandsOut(rows, cursor, limits[0], Rescorings(p.wallets) + rest, handed, now);
      hide OnlyHandedOut;
    }
  }

  lemma PickHandsOut(rows: seq<Row>, cursor: Cursor, limit: nat, rest: seq<Event>, handed: set<string>, now: int)
    requires
      var p := PickRescoreSlots(rows, limit, cursor, now);
      OnlyHandedOut(rows, p.cursor, rest, handed + (set x | x in p.wallets), now)
    ensures OnlyHandedOut(rows, cursor, [Pick(limit)] + rest, handed, now)
  {
    hide PickRescoreSlots;
    assert ([Pick(limit)] + rest)[1..] == rest;
  }

  lemma {:induction false} RescoringsHandedOut(rows: seq<Row>, cursor: Cursor, wallets: seq<string>, rest: seq<Event>,
                                               handed: set<string>, now: int)
    requires forall x :: x in wallets ==> x in handed
    requires OnlyHandedOut(RescoreAll(rows, wallets, now), cursor, rest, handed, now)
    ensures OnlyHandedOut(rows, cursor, Rescorings(wallets) + rest, handed, now)
    decreases |wallets|
  {
    hide Rescore, PickRescoreSlots, SlotLimit;
    if wallets == [] {
      assert Rescorings(wallets) + rest == rest;
    } else {
      var more := Rescorings(wallets[1..]) + rest;
      RescoringsHandedOut(Rescore(rows, wallets[0], now), cursor, wallets[1..], rest, handed, now);
      assert Rescorings(wallets) + rest == [Rescored(wallets[0])] + more;
      assert ([Rescored(wallets[0])] + more)[1..] == more;
    }
  }
}
