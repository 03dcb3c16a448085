/** The background rotation seen as a walk around a ring of keys. */
module Rotation {
  import opened Options
  import opened Seqs
  import opened StringOrder
  import opened RescoreScheduler

  /** All that the rotation looks at in an eligible wallet. */
  datatype Key = Key(rank: Option<int>, wallet: string)

  function KeyOf(w: Row): Key {
    Key(w.rank, w.wallet)
  }

  function AsRow(k: Key): Row {
    Row(k.wallet, COPY_POOL, k.rank, true, None, 0, None)
  }

  predicate KeyLe(a: Key, b: Key) {
    BgLe(AsRow(a), AsRow(b))
  }

  predicate KeyAfter(k: Key, cursor: Cursor) {
    AfterCursor(AsRow(k), cursor)
  }

  function KeyAfterBy(cursor: Cursor): Key -> bool {
    (k: Key) => KeyAfter(k, cursor)
  }

  function KeyWallet(k: Key): string {
    k.wallet
  }

  /** The eligible wallets in `CompareBg` order. */
  function Ring(rows: seq<Row>, now: int): seq<Key> {
    Sort(KeyLe, Map(KeyOf, Filter(BackgroundBy(now), rows)))
  }

  lemma CompareBgIsTotal()
    ensures TotalPreorder(BgLe) && TotalPreorder(KeyLe)
  {
    BeforeIsStrictTotalOrder();
  }

  ghost predicate BackgroundKey(k: Key) {
    k.rank.None? || k.rank.value > TOP_N
  }

  /** A ring: distinct wallets, sorted, every key outside the TopN. */
  ghost predicate IsRing(ring: seq<Key>) {
    && Sorted(KeyLe, ring)
    && Distinct(Map(KeyWallet, ring))
    && (forall k :: k in ring ==> BackgroundKey(k))
  }

  lemma RingIsRing(rows: seq<Row>, now: int)
    requires DistinctWallets(rows)
    ensures IsRing(Ring(rows, now))
  {
    var keys := Map(KeyOf, Filter(BackgroundBy(now), rows));
    FilterMembers(BackgroundBy(now), rows);
    CompareBgIsTotal();
    SortSorted(KeyLe, keys);
    SortMembers(KeyLe, keys);
    RingDistinct(rows, now);
    forall k | k in Ring(rows, now) ensures BackgroundKey(k) {
      var i :| 0 <= i < |keys| && keys[i] == k;
      var w := Filter(BackgroundBy(now), rows)[i];
      assert BackgroundBy(now)(w) && k == KeyOf(w);
    }
  }

  lemma RingDistinct(rows: seq<Row>, now: int)
    requires DistinctWallets(rows)
    ensures Distinct(Map(KeyWallet, Ring(rows, now)))
  {
    var eligible := Filter(BackgroundBy(now), rows);
    assert Distinct(Map(WalletOf, rows));
    FilterDistinct(BackgroundBy(now), WalletOf, rows);
    assert Map(WalletOf, eligible) == Map(KeyWallet, Map(KeyOf, eligible));
    MapPermutation(KeyWallet, Map(KeyOf, eligible), Ring(rows, now));
    DistinctPermutation(Map(WalletOf, eligible), Map(KeyWallet, Ring(rows, now)));
  }

  // ------------------------------------------------------------ the cursor on the ring

  /** The cursor predicate at the cursor of `v` holds of `w` exactly when the sort puts `v`
      before `w`. */
  lemma AfterCursorAgreesWithSort(v: Row, w: Row, now: int)
    requires BackgroundReady(v, now) && BackgroundReady(w, now)
    ensures AfterCursor(w, CursorAt(v)) <==> CompareBg(v, w) < 0
  {
    BeforeIsStrictTotalOrder();
  }

  /** A rank, or none, that comes before another: none comes first. */
  predicate RankBefore(a: Option<int>, b: Option<int>) {
    b.Some? && (a.None? || a.value < b.value)
  }

  /** Any cursor, also one that no wallet left behind: the null cursor has every eligible wallet after it, any other
      the wallets of a later rank, and of its own rank the later names. */
  lemma AfterCursorExactly(w: Row, cursor: Cursor, now: int)
    requires BackgroundReady(w, now)
    ensures AfterCursor(w, cursor) <==>
              || cursor == START
              || RankBefore(cursor.lastRank, w.rank)
              || (cursor.lastRank == w.rank && Before(cursor.lastWallet.GetOr(""), w.wallet))
  {
  }

  function PickKeys(ring: seq<Key>, limit: nat, cursor: Cursor): Batch {
    var ahead := Take(Filter(KeyAfterBy(cursor), ring), limit);
    var wrapped := |ahead| == 0 && cursor != START;
    var batch := if wrapped then Take(ring, limit) else ahead;
    if |batch| == 0 then Batch([], if wrapped then START else cursor)
    else Batch(Map(KeyWallet, batch), KeyCursor(batch[|batch| - 1]))
  }

  function KeyCursor(k: Key): Cursor {
    Cursor(k.rank, Some(k.wallet))
  }

  /** A background call depends on the rows only through the ring. */
  lemma BackgroundByRing(rows: seq<Row>, limit: nat, cursor: Cursor, now: int)
    ensures PickBackground(rows, limit, cursor, now) == PickKeys(Ring(rows, now), limit, cursor)
  {
    hide BgLe, KeyLe, Filter, Sort, Map, Take, Ring, BackgroundReady, AfterCursor, CursorAt, KeyCursor;
    var ready := Sort(BgLe, Filter(BackgroundBy(now), rows));
    var ahead := Sort(BgLe, Filter(BackgroundAfterBy(now, cursor), rows));
    ReadyIsRing(rows, now);
    AheadIsFilteredRing(rows, cursor, now);
    TakeKeys(ahead, limit);
    TakeKeys(ready, limit);
  }

  /** The order looks at a wallet only through its key. */
  lemma KeysKeepOrder(a: Row, b: Row)
    ensures BgLe(a, b) == KeyLe(KeyOf(a), KeyOf(b))
  {
    hide Compare;
  }

  lemma ReadyIsRing(rows: seq<Row>, now: int)
    ensures Map(KeyOf, Sort(BgLe, Filter(BackgroundBy(now), rows))) == Ring(rows, now)
  {
    hide BgLe, KeyLe, KeyOf, BackgroundReady, Filter, Sort, Map;
    forall a, b ensures BgLe(a, b) == KeyLe(KeyOf(a), KeyOf(b)) {
      KeysKeepOrder(a, b);
    }
    MapSort(KeyOf, BgLe, KeyLe, Filter(BackgroundBy(now), rows));
  }

  lemma AheadIsFilteredRing(rows: seq<Row>, cursor: Cursor, now: int)
    ensures Map(KeyOf, Sort(BgLe, Filter(BackgroundAfterBy(now, cursor), rows))) ==
            Filter(KeyAfterBy(cursor), Ring(rows, now))
  {
    hide BgLe, KeyLe, BackgroundReady, Ring;
    var ready := Filter(BackgroundBy(now), rows);
    FilterTwice(BackgroundBy(now), AfterBy(cursor), BackgroundAfterBy(now, cursor), rows);
    CompareBgIsTotal();
    FilterSort(AfterBy(cursor), BgLe, ready);
    AfterSeesKeys(Sort(BgLe, ready), cursor);
    ReadyIsRing(rows, now);
  }

  lemma AfterSeesKeys(s: seq<Row>, cursor: Cursor)
    ensures Map(KeyOf, Filter(AfterBy(cursor), s)) == Filter(KeyAfterBy(cursor), Map(KeyOf, s))
  {
    MapFilter(KeyOf, AfterBy(cursor), KeyAfterBy(cursor), s);
  }

  lemma TakeKeys(s: seq<Row>, limit: nat)
    ensures Map(KeyOf, Take(s, limit)) == Take(Map(KeyOf, s), limit)
    ensures Map(WalletOf, Take(s, limit)) == Map(KeyWallet, Take(Map(KeyOf, s), limit))
    ensures |Take(s, limit)| > 0 ==>
              CursorAt(Take(s, limit)[|Take(s, limit)| - 1]) ==
              KeyCursor(Take(Map(KeyOf, s), limit)[|Take(s, limit)| - 1])
  {
  }

  /** The cursor stands before position `k`: exactly the keys from `k` on are still ahead. */
  ghost predicate StandsAt(ring: seq<Key>, cursor: Cursor, k: nat) {
    && k <= |ring|
    && forall i {:trigger KeyAfter(ring[i], cursor)} ::
         0 <= i < |ring| ==> (KeyAfter(ring[i], cursor) <==> k <= i)
  }

  /** Every cursor, stale or invented, stands somewhere on every ring. */
  lemma EveryCursorStands(ring: seq<Key>, cursor: Cursor) returns (k: nat)
    requires IsRing(ring)
    ensures StandsAt(ring, cursor, k)
  {
    BeforeIsStrictTotalOrder();
    forall i, j | 0 <= i < j < |ring| && KeyAfter(ring[i], cursor) ensures KeyAfter(ring[j], cursor) {
      assert KeyLe(ring[i], ring[j]) && ring[j] in ring && BackgroundKey(ring[j]);
    }
    k := SwitchPoint(KeyAfterBy(cursor), ring);
  }

  /** After the key at `k` the cursor stands at `k + 1`. */
  lemma KeyCursorStands(ring: seq<Key>, k: nat)
    requires IsRing(ring) && k < |ring|
    ensures StandsAt(ring, KeyCursor(ring[k]), k + 1)
  {
    BeforeIsStrictTotalOrder();
    forall i | 0 <= i < |ring| ensures KeyAfter(ring[i], KeyCursor(ring[k])) <==> k + 1 <= i {
      assert ring[i] in ring && ring[k] in ring;
      assert BackgroundKey(ring[i]) && BackgroundKey(ring[k]);
      if i < k {
        assert KeyLe(ring[i], ring[k]) && ring[i].wallet != ring[k].wallet;
      } else if k < i {
        assert KeyLe(ring[k], ring[i]) && ring[i].wallet != ring[k].wallet;
      }
    }
  }

  lemma KeysAhead(ring: seq<Key>, cursor: Cursor, k: nat)
    requires StandsAt(ring, cursor, k)
    ensures Filter(KeyAfterBy(cursor), ring) == ring[k..]
  {
    FilterFrom(KeyAfterBy(cursor), ring, k);
  }

  lemma StartIsAhead(ring: seq<Key>)
    ensures StandsAt(ring, START, 0) && Filter(KeyAfterBy(START), ring) == ring
  {
    KeysAhead(ring, START, 0);
    assert ring[0..] == ring;
  }

  /** One call: the next `limit` keys, or from the start once nothing is ahead. */
  lemma PickAt(ring: seq<Key>, limit: nat, cursor: Cursor, k: nat)
    requires limit >= 1 && StandsAt(ring, cursor, k)
    ensures k < |ring| ==>
              var e := Min(k + limit, |ring|);
              PickKeys(ring, limit, cursor) == Batch(Map(KeyWallet, ring[k..e]), KeyCursor(ring[e - 1]))
    ensures k == |ring| ==> PickKeys(ring, limit, cursor) == PickKeys(ring, limit, START)
  {
    hide KeyAfter, StandsAt, Filter, Map;
    KeysAhead(ring, cursor, k);
    StartIsAhead(ring);
    if k < |ring| {
      var e := Min(k + limit, |ring|);
      assert Take(ring[k..], limit) == ring[k..e];
    }
  }

  // ------------------------------------------------------------ laps

  /** `ceil(n / d)`. */
  function CeilDiv(n: nat, d: nat): (q: nat)
    requires d >= 1
  {
    if n == 0 then 0 else 1 + CeilDiv(if n <= d then 0 else n - d, d)
  }

  lemma {:induction false} CeilDivBounds(n: nat, d: nat)
    requires d >= 1
    ensures n <= CeilDiv(n, d) * d < n + d
  {
    if n > d {
      CeilDivBounds(n - d, d);
    }
  }

  lemma {:induction false} CeilDivSplit(a: nat, b: nat, d: nat)
    requires d >= 1
    ensures CeilDiv(a, d) + CeilDiv(b, d) <= CeilDiv(a + b, d) + 1
  {
    if a > d {
      CeilDivSplit(a - d, b, d);
    } else if a > 0 {
      CeilDivGrows(b, a + b, d);
    }
  }

  lemma {:induction false} CeilDivGrows(a: nat, b: nat, d: nat)
    requires d >= 1 && a <= b
    ensures CeilDiv(a, d) <= CeilDiv(b, d)
  {
    if a > d {
      CeilDivGrows(a - d, b - d, d);
    }
  }

  /** The wallets a number of successive background calls emit, in order. */
  function Emit(rows: seq<Row>, limit: nat, cursor: Cursor, calls: nat, now: int): seq<string>
    decreases calls
  {
    if calls == 0 then []
    else
      var b := PickBackground(rows, limit, cursor, now);
      b.wallets + Emit(rows, limit, b.cursor, calls - 1, now)
  }

  function CursorAfter(rows: seq<Row>, limit: nat, cursor: Cursor, calls: nat, now: int): Cursor
    decreases calls
  {
    if calls == 0 then cursor
    else CursorAfter(rows, limit, PickBackground(rows, limit, cursor, now).cursor, calls - 1, now)
  }

  function EmitKeys(ring: seq<Key>, limit: nat, cursor: Cursor, calls: nat): seq<string>
    decreases calls
  {
    if calls == 0 then []
    else
      var b := PickKeys(ring, limit, cursor);
      b.wallets + EmitKeys(ring, limit, b.cursor, calls - 1)
  }

  function KeyCursorAfter(ring: seq<Key>, limit: nat, cursor: Cursor, calls: nat): Cursor
    decreases calls
  {
    if calls == 0 then cursor
    else KeyCursorAfter(ring, limit, PickKeys(ring, limit, cursor).cursor, calls - 1)
  }

  lemma {:induction false} EmitByRing(rows: seq<Row>, limit: nat, cursor: Cursor, calls: nat, now: int)
    ensures Emit(rows, limit, cursor, calls, now) == EmitKeys(Ring(rows, now), limit, cursor, calls)
    ensures CursorAfter(rows, limit, cursor, calls, now) == KeyCursorAfter(Ring(rows, now), limit, cursor, calls)
    decreases calls
  {
    hide PickBackground, PickKeys, Ring;
    if calls > 0 {
      BackgroundByRing(rows, limit, cursor, now);
      EmitByRing(rows, limit, PickBackground(rows, limit, cursor, now).cursor, calls - 1, now);
    }
  }

  /** From position `k` the rest of the lap comes out in order, each wallet once, and leaves the
      cursor at the end. */
  lemma {:induction false} LapFrom(ring: seq<Key>, limit: nat, cursor: Cursor, k: nat)
    requires IsRing(ring) && limit >= 1
    requires StandsAt(ring, cursor, k) && k < |ring|
    ensures EmitKeys(ring, limit, cursor, CeilDiv(|ring| - k, limit)) == Map(KeyWallet, ring[k..])
    ensures KeyCursorAfter(ring, limit, cursor, CeilDiv(|ring| - k, limit)) == KeyCursor(ring[|ring| - 1])
    decreases |ring| - k
  {
    hide IsRing, StandsAt, PickKeys, KeyAfter, EmitKeys, KeyCursorAfter, Map;
    PickAt(ring, limit, cursor, k);
    var e := Min(k + limit, |ring|);
    var b := PickKeys(ring, limit, cursor);
    assert CeilDiv(|ring| - k, limit) == 1 + CeilDiv(|ring| - e, limit);
    EmitOne(ring, limit, cursor, CeilDiv(|ring| - e, limit));
    if e == |ring| {
      NoEmit(ring, limit, b.cursor);
      assert ring[k..e] == ring[k..];
    } else {
      KeyCursorStands(ring, e - 1);
      LapFrom(ring, limit, b.cursor, e);
      MapSplit(ring, k, e);
    }
  }

  lemma EmitOne(ring: seq<Key>, limit: nat, cursor: Cursor, rest: nat)
    ensures
      var b := PickKeys(ring, limit, cursor);
      && EmitKeys(ring, limit, cursor, 1 + rest) == b.wallets + EmitKeys(ring, limit, b.cursor, rest)
      && KeyCursorAfter(ring, limit, cursor, 1 + rest) == KeyCursorAfter(ring, limit, b.cursor, rest)
  {
    hide PickKeys;
  }

  lemma NoEmit(ring: seq<Key>, limit: nat, cursor: Cursor)
    ensures EmitKeys(ring, limit, cursor, 0) == [] && KeyCursorAfter(ring, limit, cursor, 0) == cursor
  {
  }

  lemma MapSplit(ring: seq<Key>, k: nat, e: nat)
    requires k <= e <= |ring|
    ensures Map(KeyWallet, ring[k..e]) + Map(KeyWallet, ring[e..]) == Map(KeyWallet, ring[k..])
  {
  }

  lemma {:induction false} EmitSplit(ring: seq<Key>, limit: nat, cursor: Cursor, a: nat, b: nat)
    ensures EmitKeys(ring, limit, cursor, a + b) ==
            EmitKeys(ring, limit, cursor, a) + EmitKeys(ring, limit, KeyCursorAfter(ring, limit, cursor, a), b)
    decreases a
  {
    hide PickKeys, EmitKeys, KeyCursorAfter;
    if a == 0 {
      NoEmit(ring, limit, cursor);
    } else {
      var next := PickKeys(ring, limit, cursor);
      EmitSplit(ring, limit, next.cursor, a - 1, b);
      EmitOne(ring, limit, cursor, a - 1 + b);
      EmitOne(ring, limit, cursor, a - 1);
    }
  }

  /** From position `p`, `ceil((q - p) / limit)` calls already cover the ring up to `q`. */
  lemma {:induction false} Covers(ring: seq<Key>, limit: nat, cursor: Cursor, p: nat, q: nat, i: nat)
    requires IsRing(ring) && limit >= 1
    requires StandsAt(ring, cursor, p) && p <= i < q <= |ring|
    ensures ring[i].wallet in EmitKeys(ring, limit, cursor, CeilDiv(q - p, limit))
    decreases q - p
  {
    hide IsRing, StandsAt, PickKeys, KeyAfter;
    PickAt(ring, limit, cursor, p);
    var e := Min(p + limit, |ring|);
    var b := PickKeys(ring, limit, cursor);
    if i < e {
      assert Map(KeyWallet, ring[p..e])[i - p] == ring[i].wallet;
    } else {
      KeyCursorStands(ring, e - 1);
      Covers(ring, limit, b.cursor, e, q, i);
    }
  }

  /** A key still ahead of the cursor comes up before the lap ends. */
  lemma AheadIsFair(ring: seq<Key>, limit: nat, cursor: Cursor, k: nat, i: nat)
    requires IsRing(ring) && limit >= 1
    requires StandsAt(ring, cursor, k) && k <= i < |ring|
    ensures ring[i].wallet in EmitKeys(ring, limit, cursor, CeilDiv(|ring|, limit) + 1)
  {
    hide IsRing, StandsAt, KeyAfter, CeilDiv, EmitKeys;
    var n := |ring|;
    Covers(ring, limit, cursor, k, n, i);
    CeilDivGrows(n - k, n, limit);
    var a := CeilDiv(n - k, limit);
    EmitSplit(ring, limit, cursor, a, CeilDiv(n, limit) + 1 - a);
  }

  /** A key behind the cursor comes up after the wrap. */
  lemma BehindIsFair(ring: seq<Key>, limit: nat, cursor: Cursor, k: nat, i: nat)
    requires IsRing(ring) && limit >= 1
    requires StandsAt(ring, cursor, k) && i < k <= |ring|
    ensures ring[i].wallet in EmitKeys(ring, limit, cursor, CeilDiv(|ring|, limit) + 1)
  {
    hide IsRing, StandsAt, KeyAfter, CeilDiv, EmitKeys, PickKeys, KeyCursorAfter;
    var n, c := |ring|, CeilDiv(|ring|, limit);
    var a, b := CeilDiv(n - k, limit), CeilDiv(k, limit);
    CeilDivSplit(n - k, k, limit);
    CeilDivBounds(k, limit);
    var end := KeyCursorAfter(ring, limit, cursor, a);
    LapEndStands(ring, limit, cursor, k);
    assert b >= 1;
    AgainFromEnd(ring, limit, end, b);
    StartIsAhead(ring);
    Covers(ring, limit, START, 0, k, i);
    EmitSplit(ring, limit, cursor, a, b);
    EmitSplit(ring, limit, cursor, a + b, c + 1 - (a + b));
  }

  /** Once the rest of a lap is out, the cursor stands at the end. */
  lemma LapEndStands(ring: seq<Key>, limit: nat, cursor: Cursor, k: nat)
    requires IsRing(ring) && limit >= 1 && StandsAt(ring, cursor, k) && 0 < k <= |ring|
    ensures StandsAt(ring, KeyCursorAfter(ring, limit, cursor, CeilDiv(|ring| - k, limit)), |ring|)
  {
    hide IsRing, StandsAt, PickKeys, EmitKeys;
    if k < |ring| {
      LapFrom(ring, limit, cursor, k);
      KeyCursorStands(ring, |ring| - 1);
    } else {
      NoEmit(ring, limit, cursor);
    }
  }

  /** Within `ceil(n / limit) + 1` calls from any cursor, on a ring. */
  lemma RingIsFair(ring: seq<Key>, limit: nat, cursor: Cursor, i: nat)
    requires IsRing(ring) && limit >= 1 && i < |ring|
    ensures ring[i].wallet in EmitKeys(ring, limit, cursor, CeilDiv(|ring|, limit) + 1)
  {
    hide IsRing, EmitKeys, CeilDiv, KeyAfter;
    var k := EveryCursorStands(ring, cursor);
    if k <= i {
      AheadIsFair(ring, limit, cursor, k, i);
    } else {
      BehindIsFair(ring, limit, cursor, k, i);
    }
  }

  /** A whole lap from the start: `ceil(n / limit)` calls emit every eligible wallet exactly once in
      rotation order, and the calls after it repeat the lap from the start. */
  lemma LapIsComplete(rows: seq<Row>, limit: nat, more: nat, now: int)
    requires DistinctWallets(rows) && limit >= 1
    ensures
      var ring := Ring(rows, now);
      var calls := CeilDiv(|ring|, limit);
      var end := CursorAfter(rows, limit, START, calls, now);
      && Emit(rows, limit, START, calls, now) == Map(KeyWallet, ring)
      && Distinct(Map(KeyWallet, ring))
      && Emit(rows, limit, end, more, now) == Emit(rows, limit, START, more, now)
  {
    hide Ring, PickKeys, EmitKeys, StandsAt, CeilDiv;
    var ring := Ring(rows, now);
    RingIsRing(rows, now);
    var calls := CeilDiv(|ring|, limit);
    var end := CursorAfter(rows, limit, START, calls, now);
    EmitByRing(rows, limit, START, calls, now);
    EmitByRing(rows, limit, START, more, now);
    EmitByRing(rows, limit, end, more, now);
    StartIsAhead(ring);
    if |ring| == 0 {
      NoLap(ring, limit);
    } else {
      LapFrom(ring, limit, START, 0);
      assert ring[0..] == ring;
      KeyCursorStands(ring, |ring| - 1);
      AgainFromEnd(ring, limit, end, more);
    }
  }

  lemma NoLap(ring: seq<Key>, limit: nat)
    requires ring == [] && limit >= 1
    ensures CeilDiv(|ring|, limit) == 0 && EmitKeys(ring, limit, START, 0) == []
    ensures KeyCursorAfter(ring, limit, START, 0) == START && Map(KeyWallet, ring) == []
  {
  }

  lemma AgainFromEnd(ring: seq<Key>, limit: nat, end: Cursor, more: nat)
    requires limit >= 1 && StandsAt(ring, end, |ring|)
    ensures EmitKeys(ring, limit, end, more) == EmitKeys(ring, limit, START, more)
  {
    PickAt(ring, limit, end, |ring|);
  }

  /** Who takes part in the rotation: CopyPool wallets without a rank or ranked below the first hundred, not
      cooling. */
  predicate Rotates(w: Row, now: int) {
    w.inCopyPool && w.stage == COPY_POOL && !(w.rank.Some? && w.rank.value <= 100) && w.nextDeepAnalyzeAt <= now
  }

  lemma RotatesExactly(w: Row, now: int)
    ensures BackgroundReady(w, now) <==> Rotates(w, now)
  {
  }

  /** What a lap emits is exactly the wallets that take part. */
  lemma RingWallets(rows: seq<Row>, now: int, wallet: string)
    ensures wallet in Map(KeyWallet, Ring(rows, now)) <==>
            exists w :: w in rows && Rotates(w, now) && w.wallet == wallet
  {
    forall w ensures BackgroundReady(w, now) == Rotates(w, now) {
      RotatesExactly(w, now);
    }
    hide Rotates;
    RingMembers(rows, now, wallet);
  }

  /** Unranked wallets first, then by rank, then by address: the order in which a lap emits. */
  predicate EmittedBefore(a: Key, b: Key) {
    if a.rank.None? then b.rank.Some? || Before(a.wallet, b.wallet)
    else b.rank.Some? && (a.rank.value < b.rank.value || (a.rank == b.rank && Before(a.wallet, b.wallet)))
  }

  lemma LapOrder(rows: seq<Row>, now: int, i: nat, j: nat)
    requires DistinctWallets(rows) && i < j < |Ring(rows, now)|
    ensures EmittedBefore(Ring(rows, now)[i], Ring(rows, now)[j])
  {
    RingIsRing(rows, now);
    var ring := Ring(rows, now);
    hide Ring, KeyLe, EmittedBefore, Map;
    assert KeyLe(ring[i], ring[j]);
    assert Map(KeyWallet, ring)[i] != Map(KeyWallet, ring)[j];
    SortedIsEmittedBefore(ring[i], ring[j]);
  }

  lemma SortedIsEmittedBefore(a: Key, b: Key)
    requires KeyLe(a, b) && a.wallet != b.wallet
    ensures EmittedBefore(a, b)
  {
    hide Before;
  }

  lemma RingMembers(rows: seq<Row>, now: int, wallet: string)
    ensures wallet in Map(KeyWallet, Ring(rows, now)) <==>
            exists w :: w in rows && BackgroundReady(w, now) && w.wallet == wallet
  {
    hide Map, Sort, Filter, BackgroundReady, KeyLe;
    var ready := Filter(BackgroundBy(now), rows);
    FilterMembers(BackgroundBy(now), rows);
    SortMembers(KeyLe, Map(KeyOf, ready));
    var ring := Ring(rows, now);
    MapMembers(KeyOf, ready);
    MapMembers(KeyWallet, ring);
    if w :| w in rows && BackgroundReady(w, now) && w.wallet == wallet {
      assert BackgroundBy(now)(w) && w in ready;
      assert KeyOf(w) in ring;
    }
    if wallet in Map(KeyWallet, ring) {
      var k :| k in ring && KeyWallet(k) == wallet;
      var w :| w in ready && KeyOf(w) == k;
      assert w in rows && BackgroundBy(now)(w);
    }
  }

  /** Fairness from any cursor whatever: every eligible wallet comes up within
      `ceil(n / limit) + 1` calls. */
  lemma EveryWalletWithinOneLap(rows: seq<Row>, limit: nat, cursor: Cursor, w: Row, now: int)
    requires DistinctWallets(rows) && limit >= 1
    requires w in rows && Rotates(w, now)
    ensures w.wallet in Emit(rows, limit, cursor, CeilDiv(|Ring(rows, now)|, limit) + 1, now)
  {
    hide IsRing, Ring, Emit, EmitKeys, Rotates, CeilDiv, CursorAfter, KeyCursorAfter, PickKeys, PickBackground;
    RingIsRing(rows, now);
    var i := PlaceOnRing(rows, w, now);
    RingIsFair(Ring(rows, now), limit, cursor, i);
    EmitByRing(rows, limit, cursor, CeilDiv(|Ring(rows, now)|, limit) + 1, now);
  }

  lemma PlaceOnRing(rows: seq<Row>, w: Row, now: int) returns (i: nat)
    requires w in rows && Rotates(w, now)
    ensures i < |Ring(rows, now)| && Ring(rows, now)[i].wallet == w.wallet
  {
    hide Ring, Rotates;
    RingWallets(rows, now, w.wallet);
    i :| 0 <= i < |Ring(rows, now)| && Map(KeyWallet, Ring(rows, now))[i] == w.wallet;
  }
}
