/** Whole listings: following offset pages, and following `nextCursor` until it is null. */
module LedgerWalks {
  import opened Options
  import opened Seqs
  import opened StringOrder
  import opened Texts
  import opened WalletLedger
  import opened LedgerLaws

  // ------------------------------------------------------------ offset pages

  /** The pages a client reads at offsets `offset`, `offset + take`, ... while `hasMore` holds. */
  function OffsetWalk(filtered: seq<Row>, offset: nat, take: nat): seq<Row>
    requires take >= 1
    decreases if offset <= |filtered| then |filtered| - offset else 0
  {
    var reply := OffsetReply(filtered, false, offset, take);
    reply.items + if reply.hasMore then OffsetWalk(filtered, offset + take, take) else []
  }

  lemma OnePage(filtered: seq<Row>, offset: nat, take: nat)
    requires take >= 1 && offset <= |filtered|
    ensures
      var reply := OffsetReply(filtered, false, offset, take);
      && reply.items == (if offset + take < |filtered| then filtered[offset..offset + take] else filtered[offset..])
      && reply.total == |filtered|
      && (reply.hasMore <==> offset + take < |filtered|)
  {
  }

  /** Without truncation the pages concatenate to the filtered list, every reply knows the total, and
      `hasMore` is false exactly on the last page. */
  lemma {:induction false} OffsetPagesConcatenate(filtered: seq<Row>, offset: nat, take: nat)
    requires take >= 1 && offset <= |filtered|
    ensures OffsetWalk(filtered, offset, take) == filtered[offset..]
    ensures OffsetReply(filtered, false, offset, take).total == |filtered|
    ensures OffsetReply(filtered, false, offset, take).hasMore <==> offset + take < |filtered|
    decreases |filtered| - offset
  {
    hide OffsetReply;
    OnePage(filtered, offset, take);
    if offset + take < |filtered| {
      OffsetPagesConcatenate(filtered, offset + take, take);
      assert filtered[offset..] == filtered[offset..offset + take] + filtered[offset + take..];
    }
  }

  /** A client that pages by offset while `hasMore` holds comes to an end if and only if the ledger has fewer
      than 2000 rows. Exactly 2000 are reported truncated too, and then `hasMore` stays true at every offset,
      with empty pages past the end. */
  lemma OffsetPagingEndsExactly(t: seq<Row>, take: nat)
    requires IsLedger(t) && take >= 1
    ensures (exists offset :: !OffsetPageOf(t, offset, take).hasMore) <==> |t| < MAX_RAW_SCAN
    ensures |t| >= MAX_RAW_SCAN ==>
              forall offset :: offset >= |Visible(Window(t), 0, 0, BATCH_SIZE)| ==>
                OffsetPageOf(t, offset, take).items == [] && OffsetPageOf(t, offset, take).hasMore
  {
    hide IsLedger, Visible;
    if |t| < MAX_RAW_SCAN {
      assert !OffsetPageOf(t, |Visible(Window(t), 0, 0, BATCH_SIZE)|, take).hasMore;
    }
  }

  /** The listing that the offset pages of a ledger below the scan limit add up to: in listing order, each row
      at most once, every row of the all-markers filter in it; what it leaves out is an internal transfer or
      shares its transaction with a listed row. */
  lemma OffsetListingIsComplete(t: seq<Row>, take: nat, i: nat)
    requires IsLedger(t) && |t| < MAX_RAW_SCAN && take >= 1 && i < |t|
    ensures
      var listing := OffsetWalk(Visible(Window(t), 0, 0, BATCH_SIZE), 0, take);
      && IsLedger(listing)
      && (t[i] in OneShot(t) ==> t[i] in listing)
      && (t[i] !in listing ==> InternalTransfer(t[i]) || exists m :: m in listing && TxHash(m) == TxHash(t[i]))
  {
    hide IsLedger, Visible, OneShot, InternalTransfer, OffsetReply;
    var visible := Visible(t, 0, 0, BATCH_SIZE);
    assert Window(t) == t;
    OffsetPagesConcatenate(visible, 0, take);
    assert visible[0..] == visible;
    ShownInOrder(t, 0, 0, BATCH_SIZE);
    BatchingShowsAllKept(t, 0, BATCH_SIZE, i);
    NoTransactionIsErased(t, i);
  }

  /** A row below the first 2000 is on no offset page. */
  lemma NothingBeyondTheScan(t: seq<Row>, i: nat)
    requires IsLedger(t) && MAX_RAW_SCAN <= i < |t|
    ensures t[i] !in Visible(Window(t), 0, 0, BATCH_SIZE)
  {
    var w := Window(t);
    assert w == t[..MAX_RAW_SCAN] && w[0..] == w;
    ShownComeFromRest(w, 0, 0, BATCH_SIZE);
    hide Visible;
    NotInFront(t, MAX_RAW_SCAN, 0, i);
    assert t[..MAX_RAW_SCAN][0..] == w;
  }

  // ------------------------------------------------------------ one cursor page

  lemma PageFacts(t: seq<Row>, c: Cursor, take: nat)
    requires IsLedger(t) && take >= 1
    ensures
      var p := Position(t, Some(c));
      var w := PageWindow(t, p, take);
      && p <= |w| <= |t| && w == t[..|w|] && IsLedger(w)
      && IsLedger(PageVisible(t, c, take))
      && (forall r :: r in PageVisible(t, c, take) ==> r in w[p..])
      && (|w| < |t| ==> |w| == p + PAGE_FETCHES * FetchSize(take))
  {
    var p := Position(t, Some(c));
    var w := PageWindow(t, p, take);
    SliceIsLedger(t, 0, |w|);
    assert w == t[0..|w|];
    ShownInOrder(w, p, p, FetchSize(take));
    ShownComeFromRest(w, p, p, FetchSize(take));
  }

  /** The next cursor points at the last row of the page, further down the table. */
  lemma NextIsLastItem(t: seq<Row>, c: Cursor, take: nat) returns (k: nat)
    requires IsLedger(t) && take >= 1 && PageNext(t, c, take).Some?
    ensures
      var p := Position(t, Some(c));
      && |PageVisible(t, c, take)| >= take
      && p <= k < |PageWindow(t, p, take)| && k < |t| && t[k] == PageVisible(t, c, take)[take - 1]
      && Position(t, PageNext(t, c, take)) == k + 1
  {
    PageFacts(t, c, take);
    hide PageVisible, IsLedger, PageWindow;
    var p := Position(t, Some(c));
    var w := PageWindow(t, p, take);
    var last := PageVisible(t, c, take)[take - 1];
    assert last in w[p..];
    var j :| 0 <= j < |w[p..]| && w[p..][j] == last;
    k := p + j;
    assert t[k] == w[k] == w[p..][j];
    PositionOfRow(t, k);
  }

  lemma NextAdvances(t: seq<Row>, c: Cursor, take: nat)
    requires IsLedger(t) && take >= 1 && PageNext(t, c, take).Some?
    ensures Position(t, Some(c)) < Position(t, PageNext(t, c, take)) <= |t|
  {
    var k := NextIsLastItem(t, c, take);
  }

  lemma OrderIsIndex(t: seq<Row>, i: nat, k: nat)
    requires IsLedger(t) && i < |t| && k < |t|
    ensures Precedes(t[i], t[k]) <==> i < k
  {
    BeforeIsStrictTotalOrder();
    if i < k {
      assert Precedes(t[i], t[k]);
    } else if k < i {
      assert Precedes(t[k], t[i]);
    }
  }

  /** In a sorted list, being among the first `take` is being at or before the last of them. */
  lemma FrontOfLedger(t: seq<Row>, visible: seq<Row>, take: nat, k: nat, i: nat)
    requires IsLedger(t) && IsLedger(visible) && 1 <= take <= |visible|
    requires k < |t| && i < |t| && t[k] == visible[take - 1]
    ensures t[i] in visible[..take] <==> t[i] in visible && i <= k
  {
    OrderIsIndex(t, i, k);
    OrderIsIndex(t, k, i);
    if t[i] in visible {
      var j :| 0 <= j < |visible| && visible[j] == t[i];
      OrderIsIndex(visible, j, take - 1);
      OrderIsIndex(visible, take - 1, j);
      if j < take {
        assert visible[..take][j] == t[i];
      } else {
        forall m | 0 <= m < take ensures visible[..take][m] != t[i] {
          assert visible[m].id != visible[j].id;
        }
      }
    } else {
      forall m | 0 <= m < take ensures visible[..take][m] != t[i] {
        assert visible[m] in visible;
      }
    }
  }

  /** What a page lists of the rows in its window. */
  ghost predicate PageShows(t: seq<Row>, p: nat, take: nat, i: nat)
    requires i < |t|
  {
    var n := |PageWindow(t, p, take)|;
    p <= i < n && !Hides(t[p..BatchEnd(n, p, FetchSize(take), i)], t[i])
  }

  lemma PageVisibleExactly(t: seq<Row>, c: Cursor, take: nat, i: nat)
    requires IsLedger(t) && take >= 1 && Position(t, Some(c)) <= i < |t|
    ensures t[i] in PageVisible(t, c, take) <==> PageShows(t, Position(t, Some(c)), take, i)
  {
    var p := Position(t, Some(c));
    var w := PageWindow(t, p, take);
    PageFacts(t, c, take);
    if i < |w| {
      ShownExactly(w, p, p, FetchSize(take), i);
      var e := BatchEnd(|w|, p, FetchSize(take), i);
      assert w[p..e] == t[p..e] && w[i] == t[i];
    } else {
      NotInFront(t, |w|, p, i);
    }
  }

  lemma NotInFront(t: seq<Row>, n: nat, p: nat, i: nat)
    requires IsLedger(t) && p <= n <= i < |t|
    ensures t[i] !in t[..n][p..]
  {
    forall j | 0 <= j < n - p ensures t[..n][p..][j] != t[i] {
      assert t[..n][p..][j] == t[p + j] && t[p + j].id != t[i].id;
    }
  }

  // ------------------------------------------------------------ the cursor walk

  /** The rows a client reads by following `nextCursor` until it is null. */
  ghost function Walk(t: seq<Row>, c: Cursor, take: nat): seq<Row>
    requires IsLedger(t) && take >= 1
    decreases |t| - Position(t, Some(c))
  {
    if PageNext(t, c, take).None? then PageItems(t, c, take)
    else
      NextAdvances(t, c, take);
      PageItems(t, c, take) + Walk(t, PageNext(t, c, take).value, take)
  }

  /** How far down the table the walk reads. */
  ghost function WalkEnd(t: seq<Row>, c: Cursor, take: nat): nat
    requires IsLedger(t) && take >= 1
    decreases |t| - Position(t, Some(c))
  {
    if PageNext(t, c, take).None? then |PageWindow(t, Position(t, Some(c)), take)|
    else
      NextAdvances(t, c, take);
      WalkEnd(t, PageNext(t, c, take).value, take)
  }

  /** Where the page starts that decides about the row at index `i`. */
  ghost function PageStart(t: seq<Row>, c: Cursor, take: nat, i: nat): nat
    requires IsLedger(t) && take >= 1
    decreases |t| - Position(t, Some(c))
  {
    var next := PageNext(t, c, take);
    if next.None? || i < Position(t, next) then Position(t, Some(c))
    else
      NextAdvances(t, c, take);
      PageStart(t, next.value, take, i)
  }

  lemma {:induction false} WalkReadsOn(t: seq<Row>, c: Cursor, take: nat)
    requires IsLedger(t) && take >= 1
    ensures Position(t, Some(c)) <= WalkEnd(t, c, take) <= |t|
    decreases |t| - Position(t, Some(c))
  {
    PageFacts(t, c, take);
    hide PageNext, PageWindow, Position, IsLedger;
    if PageNext(t, c, take).Some? {
      NextAdvances(t, c, take);
      WalkReadsOn(t, PageNext(t, c, take).value, take);
    }
  }

  /** The walk lists rows below the cursor, in listing order, each at most once. */
  lemma {:induction false} WalkLosesNoOrder(t: seq<Row>, c: Cursor, take: nat)
    requires IsLedger(t) && take >= 1
    ensures IsLedger(Walk(t, c, take))
    ensures forall r :: r in Walk(t, c, take) ==> r in t[Position(t, Some(c))..]
    decreases |t| - Position(t, Some(c))
  {
    PageInOrder(t, c, take);
    hide PageNext, PageItems, PageVisible, PageWindow, Position, IsLedger;
    if PageNext(t, c, take).Some? {
      var n := PageNext(t, c, take).value;
      NextAdvances(t, c, take);
      WalkLosesNoOrder(t, n, take);
      SuffixInSuffix(t, Position(t, Some(c)), Position(t, Some(n)));
      ConcatIsLedger(t, Position(t, Some(n)), PageItems(t, c, take), Walk(t, n, take));
    }
  }

  lemma SuffixInSuffix(t: seq<Row>, a: nat, b: nat)
    requires a <= b <= |t|
    ensures forall r :: r in t[b..] ==> r in t[a..]
  {
    assert t[a..] == t[a..b] + t[b..];
  }

  lemma PageInOrder(t: seq<Row>, c: Cursor, take: nat)
    requires IsLedger(t) && take >= 1
    ensures
      var items := PageItems(t, c, take);
      && |items| <= take && IsLedger(items)
      && (forall r :: r in items ==> r in t[Position(t, Some(c))..])
      && (PageNext(t, c, take).Some? ==>
            forall r :: r in items ==> r in t[..Position(t, PageNext(t, c, take))])
  {
    hide PageNext, PageVisible, IsLedger;
    var visible, items := PageVisible(t, c, take), PageItems(t, c, take);
    PageFacts(t, c, take);
    SliceIsLedger(visible, 0, |items|);
    assert items == visible[0..|items|];
    VisibleLieBelow(t, c, take);
    forall r | r in items ensures r in visible {
    }
    if PageNext(t, c, take).Some? {
      ItemsLieAbove(t, c, take);
    }
  }

  lemma VisibleLieBelow(t: seq<Row>, c: Cursor, take: nat)
    requires IsLedger(t) && take >= 1
    ensures forall r :: r in PageVisible(t, c, take) ==> r in t[Position(t, Some(c))..]
  {
    PageFacts(t, c, take);
    hide PageVisible, PageWindow, Position, IsLedger;
    var p := Position(t, Some(c));
    var w := PageWindow(t, p, take);
    assert w[p..] == t[p..][..|w| - p];
  }

  lemma ItemsLieAbove(t: seq<Row>, c: Cursor, take: nat)
    requires IsLedger(t) && take >= 1 && PageNext(t, c, take).Some?
    ensures forall r :: r in PageItems(t, c, take) ==> r in t[..Position(t, PageNext(t, c, take))]
  {
    var k := NextIsLastItem(t, c, take);
    PageFacts(t, c, take);
    VisibleLieBelow(t, c, take);
    var visible := PageVisible(t, c, take);
    assert PageItems(t, c, take) == visible[..take];
    hide PageNext, PageVisible, PageItems, PageWindow, Position, IsLedger;
    forall r | r in visible[..take] ensures r in t[..k + 1] {
      assert r in visible;
      var j :| 0 <= j < |t[Position(t, Some(c))..]| && t[Position(t, Some(c))..][j] == r;
      var i := Position(t, Some(c)) + j;
      assert t[i] == r;
      FrontOfLedger(t, visible, take, k, i);
      assert t[..k + 1][i] == r;
    }
  }

  /** Exactly what a walk lists: the row at `i` comes up if and only if the walk reads that far and the
      markers between the start of its page and the end of its batch do not hide it. */
  lemma {:induction false} WalkShowsExactly(t: seq<Row>, c: Cursor, take: nat, i: nat)
    requires IsLedger(t) && take >= 1 && Position(t, Some(c)) <= i < |t|
    ensures t[i] in Walk(t, c, take) <==>
            i < WalkEnd(t, c, take) && PageShows(t, PageStart(t, c, take, i), take, i)
    decreases |t| - Position(t, Some(c))
  {
    PageVisibleExactly(t, c, take, i);
    if PageNext(t, c, take).None? {
      LastPageIsWhole(t, c, take);
    } else {
      var next := PageNext(t, c, take);
      var k := NextIsLastItem(t, c, take);
      PageFacts(t, c, take);
      FrontOfLedger(t, PageVisible(t, c, take), take, k, i);
      WalkReadsOn(t, next.value, take);
      WalkLosesNoOrder(t, next.value, take);
      hide PageNext, PageVisible, PageWindow, Position, IsLedger, PageShows;
      if i <= k {
        BelowIsNotIn(t, k + 1, i);
      } else {
        WalkShowsExactly(t, next.value, take, i);
      }
    }
  }

  lemma BelowIsNotIn(t: seq<Row>, n: nat, i: nat)
    requires IsLedger(t) && i < n <= |t|
    ensures t[i] !in t[n..]
  {
    forall j | 0 <= j < |t| - n ensures t[n..][j] != t[i] {
      assert t[n..][j] == t[n + j] && t[i].id != t[n + j].id;
    }
  }

  lemma LastPageIsWhole(t: seq<Row>, c: Cursor, take: nat)
    requires take >= 1 && PageNext(t, c, take).None?
    ensures PageItems(t, c, take) == PageVisible(t, c, take)
  {
  }

  /** A page that used up its ten fetches on fewer than `take` visible rows although rows remain. */
  ghost predicate PageStalls(t: seq<Row>, c: Cursor, take: nat) {
    && |t| > Position(t, Some(c)) + PAGE_FETCHES * FetchSize(take)
    && |PageVisible(t, c, take)| < take
  }

  /** The walk meets such a page. */
  ghost predicate WalkStalls(t: seq<Row>, c: Cursor, take: nat)
    requires IsLedger(t) && take >= 1
    decreases |t| - Position(t, Some(c))
  {
    if PageNext(t, c, take).None? then PageStalls(t, c, take)
    else
      NextAdvances(t, c, take);
      WalkStalls(t, PageNext(t, c, take).value, take)
  }

  /** The walk stops short of the end of the table exactly when it meets a page that stalls. */
  lemma {:induction false} WalkEndsEarlyExactly(t: seq<Row>, c: Cursor, take: nat)
    requires IsLedger(t) && take >= 1
    ensures WalkEnd(t, c, take) < |t| <==> WalkStalls(t, c, take)
    decreases |t| - Position(t, Some(c))
  {
    if PageNext(t, c, take).Some? {
      NextAdvances(t, c, take);
      WalkEndsEarlyExactly(t, PageNext(t, c, take).value, take);
    } else {
      PageFacts(t, c, take);
    }
  }

  /** The walk loses nothing: every row that the all-markers filter keeps comes up, unless it lies
      beyond a page that stalls; what lies beyond never comes up. */
  lemma WalkKeepsEveryKeptRow(t: seq<Row>, c: Cursor, take: nat, i: nat)
    requires IsLedger(t) && take >= 1 && Position(t, Some(c)) <= i < |t|
    ensures t[i] in OneShot(t) && !WalkStalls(t, c, take) ==> t[i] in Walk(t, c, take)
    ensures t[i] in OneShot(t) ==> (t[i] in Walk(t, c, take) <==> i < WalkEnd(t, c, take))
  {
    WalkShowsExactly(t, c, take, i);
    WalkEndsEarlyExactly(t, c, take);
    FilterMembers(KeepSeeing(t), t);
    if t[i] in OneShot(t) && i < WalkEnd(t, c, take) {
      PageOfRow(t, c, take, i);
      var q := PageStart(t, c, take, i);
      HidingIsMonotone(t[q..BatchEnd(|PageWindow(t, q, take)|, q, FetchSize(take), i)], t, t[i]);
    }
  }

  lemma {:induction false} PageOfRow(t: seq<Row>, c: Cursor, take: nat, i: nat)
    requires IsLedger(t) && take >= 1 && Position(t, Some(c)) <= i < WalkEnd(t, c, take)
    ensures
      var q := PageStart(t, c, take, i);
      q <= i < |PageWindow(t, q, take)| <= |t|
    decreases |t| - Position(t, Some(c))
  {
    PageFacts(t, c, take);
    if PageNext(t, c, take).Some? {
      var k := NextIsLastItem(t, c, take);
      if k < i {
        PageOfRow(t, PageNext(t, c, take).value, take, i);
      }
    }
  }

  /** The window of every page lies within what the walk reads. */
  lemma {:induction false} PageWithinWalk(t: seq<Row>, c: Cursor, take: nat, i: nat)
    requires IsLedger(t) && take >= 1 && Position(t, Some(c)) <= i < WalkEnd(t, c, take)
    ensures |PageWindow(t, PageStart(t, c, take, i), take)| <= WalkEnd(t, c, take)
    decreases |t| - Position(t, Some(c))
  {
    WindowWithinWalk(t, c, take);
    var next := PageNext(t, c, take);
    hide PageNext, PageWindow, Position, IsLedger;
    if next.Some? && i >= Position(t, next) {
      NextAdvances(t, c, take);
      PageWithinWalk(t, next.value, take, i);
    }
  }

  lemma {:induction false} WindowWithinWalk(t: seq<Row>, c: Cursor, take: nat)
    requires IsLedger(t) && take >= 1
    ensures |PageWindow(t, Position(t, Some(c)), take)| <= WalkEnd(t, c, take)
    decreases |t| - Position(t, Some(c))
  {
    hide PageNext, PageWindow, Position, IsLedger;
    if PageNext(t, c, take).Some? {
      var n := PageNext(t, c, take).value;
      NextAdvances(t, c, take);
      WindowWithinWalk(t, n, take);
      LaterWindow(t, Position(t, Some(c)), Position(t, Some(n)), take);
    }
  }

  lemma LaterWindow(t: seq<Row>, p: nat, q: nat, take: nat)
    requires p <= q
    ensures |PageWindow(t, p, take)| <= |PageWindow(t, q, take)|
  {
  }

  /** De-duplication erases no transaction on a walk either: a row that the walk reads and does not list is an
      internal transfer, or a row that it lists carries the same transaction. */
  lemma WalkErasesNoTransaction(t: seq<Row>, c: Cursor, take: nat, i: nat)
    requires IsLedger(t) && take >= 1 && Position(t, Some(c)) <= i < WalkEnd(t, c, take) && i < |t|
    ensures t[i] !in Walk(t, c, take) ==>
              InternalTransfer(t[i]) || exists m :: m in Walk(t, c, take) && TxHash(m) == TxHash(t[i])
  {
    hide IsLedger, Position, Walk, WalkEnd, PageStart, PageWindow, Hides, InternalTransfer, MarksBusiness, MarksCommission;
    PageOfRow(t, c, take, i);
    PageWithinWalk(t, c, take, i);
    WalkShowsExactly(t, c, take, i);
    PageStartsBelow(t, c, take, i);
    var q := PageStart(t, c, take, i);
    var e := BatchEnd(|PageWindow(t, q, take)|, q, FetchSize(take), i);
    var seen := t[q..e];
    HiddenExactly(seen, t[i]);
    if t[i] !in Walk(t, c, take) && !InternalTransfer(t[i]) {
      var m :| m in seen && DuplicateOf(t[i], m);
      var j :| 0 <= j < |seen| && seen[j] == m;
      assert t[q + j] == m;
      WalkShowsMarker(t, c, take, q + j);
    }
  }

  lemma {:induction false} PageStartsBelow(t: seq<Row>, c: Cursor, take: nat, i: nat)
    requires IsLedger(t) && take >= 1
    ensures Position(t, Some(c)) <= PageStart(t, c, take, i)
    decreases |t| - Position(t, Some(c))
  {
    var next := PageNext(t, c, take);
    hide PageNext, Position, IsLedger;
    if next.Some? && i >= Position(t, next) {
      NextAdvances(t, c, take);
      PageStartsBelow(t, next.value, take, i);
    }
  }

  lemma WalkShowsMarker(t: seq<Row>, c: Cursor, take: nat, j: nat)
    requires IsLedger(t) && take >= 1 && Position(t, Some(c)) <= j < WalkEnd(t, c, take) && j < |t|
    requires MarksCommission(t[j]) || MarksBusiness(t[j])
    ensures t[j] in Walk(t, c, take)
  {
    hide IsLedger, Position, Walk, WalkEnd, PageStart, PageWindow, Hides, MarksBusiness, MarksCommission;
    PageOfRow(t, c, take, j);
    WalkShowsExactly(t, c, take, j);
    var q := PageStart(t, c, take, j);
    MarkersAreNeverHidden(t[q..BatchEnd(|PageWindow(t, q, take)|, q, FetchSize(take), j)], t[j]);
  }

  // ------------------------------------------------------------ ledgers on which no walk stalls

  /** How many rows a page can read: ten full fetches. */
  function PageReach(take: nat): nat {
    PAGE_FETCHES * FetchSize(take)
  }

  /** The rows one page can read from position `p` that the all-markers filter keeps. */
  function KeptInReach(t: seq<Row>, p: nat, take: nat): seq<Row>
    requires p + PageReach(take) <= |t|
  {
    Filter(KeepSeeing(t), t[p..p + PageReach(take)])
  }

  /** Wherever a page would leave rows unread, the stretch that it reads holds a full page of rows that the
      all-markers filter keeps. */
  ghost predicate DenseEnough(t: seq<Row>, take: nat) {
    forall p: nat :: p < |t| - PageReach(take) ==> |KeptInReach(t, p, take)| >= take
  }

  /** On such a ledger no page stalls, whatever the cursor. */
  lemma DensePagesDoNotStall(t: seq<Row>, c: Cursor, take: nat)
    requires IsLedger(t) && take >= 1 && DenseEnough(t, take)
    ensures !PageStalls(t, c, take)
  {
    var p := Position(t, Some(c));
    hide IsLedger, Position, PageVisible, KeptInReach;
    if |t| > p + PageReach(take) {
      KeptInReachAreVisible(t, c, take);
    }
  }

  lemma KeptInReachAreVisible(t: seq<Row>, c: Cursor, take: nat)
    requires IsLedger(t) && take >= 1 && |t| > Position(t, Some(c)) + PageReach(take)
    ensures |KeptInReach(t, Position(t, Some(c)), take)| <= |PageVisible(t, c, take)|
  {
    hide IsLedger, Position, PageVisible, PageReach;
    var p := Position(t, Some(c));
    var kept := KeptInReach(t, p, take);
    KeptAreDistinct(t, p, take);
    FilterMembers(KeepSeeing(t), t[p..p + PageReach(take)]);
    hide Filter, KeepSeeing;
    forall r | r in kept ensures r in PageVisible(t, c, take) {
      assert r in t[p..p + PageReach(take)];
      var j :| 0 <= j < |t[p..p + PageReach(take)]| && t[p..p + PageReach(take)][j] == r;
      assert t[p + j] == r;
      KeptIsVisible(t, c, take, p + j);
    }
    hide KeptInReach;
    DistinctInside(kept, PageVisible(t, c, take));
  }

  lemma KeptAreDistinct(t: seq<Row>, p: nat, take: nat)
    requires IsLedger(t) && p + PageReach(take) <= |t|
    ensures Distinct(KeptInReach(t, p, take))
  {
    SliceIsLedger(t, p, p + PageReach(take));
    FilterIsLedger(t[p..p + PageReach(take)], KeepSeeing(t));
    hide Filter, PageReach;
  }

  lemma KeptIsVisible(t: seq<Row>, c: Cursor, take: nat, i: nat)
    requires IsLedger(t) && take >= 1
    requires Position(t, Some(c)) <= i < Position(t, Some(c)) + PageReach(take) <= |t|
    requires KeepSeeing(t)(t[i])
    ensures t[i] in PageVisible(t, c, take)
  {
    var p := Position(t, Some(c));
    assert |PageWindow(t, p, take)| == p + PageReach(take);
    hide IsLedger, Position, PageVisible, PageWindow, PageReach;
    PageVisibleExactly(t, c, take, i);
    HidingIsMonotone(t[p..BatchEnd(|PageWindow(t, p, take)|, p, FetchSize(take), i)], t, t[i]);
    assert !Hides(t, t[i]);
    hide Hides, KeepSeeing;
  }

  /** So a walk over a dense ledger never stalls, and lists every row that the all-markers filter keeps. */
  lemma {:induction false} DenseWalksAreComplete(t: seq<Row>, c: Cursor, take: nat, i: nat)
    requires IsLedger(t) && take >= 1 && DenseEnough(t, take)
    requires Position(t, Some(c)) <= i < |t|
    ensures !WalkStalls(t, c, take)
    ensures t[i] in OneShot(t) ==> t[i] in Walk(t, c, take)
  {
    hide IsLedger, Position, DenseEnough, PageStalls, OneShot, Walk, WalkStalls;
    DenseWalksDoNotStall(t, c, take);
    WalkKeepsEveryKeptRow(t, c, take, i);
  }

  lemma {:induction false} DenseWalksDoNotStall(t: seq<Row>, c: Cursor, take: nat)
    requires IsLedger(t) && take >= 1 && DenseEnough(t, take)
    ensures !WalkStalls(t, c, take)
    decreases |t| - Position(t, Some(c))
  {
    hide IsLedger, Position, DenseEnough, PageStalls, PageNext;
    if PageNext(t, c, take).None? {
      DensePagesDoNotStall(t, c, take);
    } else {
      NextAdvances(t, c, take);
      DenseWalksDoNotStall(t, PageNext(t, c, take).value, take);
    }
  }

  // ------------------------------------------------------------ two ledgers

  /** Redeems paid between the user's own collateral contracts: always hidden. */
  function InternalRow(i: nat): Row {
    Row(seq(i + 1, _ => 'r'), 0 - i, ONCHAIN_USDC, CREDIT, POLYMARKET_REDEEM,
        Some(Metadata(None, Some(COLLATERAL_ONRAMP), None)))
  }

  /** 260 of them above one ordinary row. */
  function StallingLedger(): (t: seq<Row>)
    ensures |t| == 261
  {
    seq(260, i requires 0 <= i < 260 => InternalRow(i)) + [Row("plain", -1000, GAS_POINTS, DEBIT, GAS_SPEND, None)]
  }

  lemma OnrampText()
    ensures
      var s := COLLATERAL_ONRAMP;
      |s| == 42 && s[0] == '0' && s[41] == 'e' && forall i :: 0 <= i < |s| ==> !('A' <= s[i] <= 'Z')
  {
  }

  lemma OnrampIsInternal(i: nat)
    ensures InternalTransfer(InternalRow(i))
  {
    OnrampText();
    OwnAddress(COLLATERAL_ONRAMP);
    SentFromOnramp(InternalRow(i), COLLATERAL_ONRAMP);
  }

  lemma SentFromOnramp(r: Row, s: string)
    requires r.rail == ONCHAIN_USDC && r.direction == CREDIT && r.category == POLYMARKET_REDEEM
    requires r.metadata == Some(Metadata(None, Some(s), None))
    requires NotBlank(s) && Lower(Trim(s)) == COLLATERAL_ONRAMP
    ensures InternalTransfer(r)
  {
    hide NotBlank, Lower, Trim, COLLATERAL_ONRAMP;
  }

  lemma OwnAddress(s: string)
    requires |s| > 0 && !IsSpace(s[0]) && !IsSpace(s[|s| - 1]) && forall i :: 0 <= i < |s| ==> !('A' <= s[i] <= 'Z')
    ensures NotBlank(s) && Lower(Trim(s)) == s
  {
    assert Trim(s) == s;
    LowerKeeps(s);
  }

  lemma StallingLedgerIsLedger()
    ensures IsLedger(StallingLedger())
  {
    BeforeIsStrictTotalOrder();
    var t := StallingLedger();
    forall i, j | 0 <= i < j < |t| ensures Precedes(t[i], t[j]) && t[i].id != t[j].id {
      if j < 260 {
        assert |t[i].id| == i + 1 && |t[j].id| == j + 1;
      } else {
        assert t[i].id[0] == 'r' && t[j].id[0] == 'p';
      }
    }
  }

  /** A page size of 1 and 260 hidden rows: the walk stalls, and the ordinary row below them, which every
      filter keeps, never comes up. */
  lemma StalledWalkLosesARow(c: Cursor)
    requires c.occurredAt > 0
    ensures
      var t := StallingLedger();
      && IsLedger(t)
      && WalkStalls(t, c, 1)
      && t[260] in OneShot(t)
      && t[260] !in Walk(t, c, 1)
  {
    var t := StallingLedger();
    StallingLedgerIsLedger();
    FilterAll(AfterBy(Some(c)), t);
    assert Position(t, Some(c)) == 0;
    var w := PageWindow(t, 0, 1);
    assert |w| == 260;
    NothingVisible(t, c);
    assert PageNext(t, c, 1).None?;
    HiddenExactly(t, t[260]);
    FilterMembers(KeepSeeing(t), t);
    assert t[260] in t;
    PlainRowIsKept(t);
    WalkKeepsEveryKeptRow(t, c, 1, 260);
  }

  lemma PlainRowIsKept(t: seq<Row>)
    requires t == StallingLedger()
    ensures !Hides(t, t[260])
  {
  }

  lemma NothingVisible(t: seq<Row>, c: Cursor)
    requires t == StallingLedger() && IsLedger(t) && Position(t, Some(c)) == 0
    ensures PageVisible(t, c, 1) == []
  {
    var visible := PageVisible(t, c, 1);
    PageFacts(t, c, 1);
    forall j | 0 <= j < 260 ensures t[j] !in visible {
      OnrampIsInternal(j);
      PageVisibleExactly(t, c, 1, j);
      HiddenExactly(t[0..BatchEnd(260, 0, FetchSize(1), j)], t[j]);
    }
    var w := PageWindow(t, 0, 1);
    forall r | r in w[0..] ensures r !in visible {
      var j :| 0 <= j < 260 && w[0..][j] == r;
      assert r == t[j];
    }
    if visible != [] {
      CommonMember(visible, w[0..]);
    }
  }

  lemma CommonMember(a: seq<Row>, b: seq<Row>)
    requires a != [] && forall r :: r in a ==> r in b
    ensures exists r :: r in b && r in a
  {
    assert a[0] in a;
  }

  function LeakingLedger(): (t: seq<Row>)
    ensures |t| == 3
  {
    [ Row("c", 3, ONCHAIN_USDC, DEBIT, POLYMARKET_DEPOSIT_EXTERNAL, Some(Metadata(Some("0xabc"), None, None))),
      Row("b", 2, ONCHAIN_USDC, CREDIT, POLYMARKET_FUNDER_CHAIN_DEPOSIT, Some(Metadata(Some("0xabc"), None, None))),
      Row("a", 1, GAS_POINTS, DEBIT, GAS_SPEND, None) ]
  }

  lemma LeakingLedgerIsLedger()
    ensures IsLedger(LeakingLedger())
  {
    hide MarksBusiness;
    assert Before("b", "c") && Before("a", "b");
  }

  lemma LeakIsDuplicate()
    ensures
      var t := LeakingLedger();
      && DuplicateOf(t[1], t[0]) && !InternalTransfer(t[1])
      && forall i :: 1 <= i < 3 ==> !DuplicateOf(t[1], t[i])
  {
    hide Lower, Trim;
    assert NotBlank("0xabc") by {
      assert "0xabc"[0] == '0';
    }
  }

  /** The first row marks the transaction that the second one repeats. */
  lemma LeakingLedgerFacts()
    ensures
      var t := LeakingLedger();
      && IsLedger(t)
      && DuplicateOf(t[1], t[0]) && !InternalTransfer(t[1])
      && (forall i :: 1 <= i < 3 ==> !DuplicateOf(t[1], t[i]))
      && !Hides(t, t[0]) && !Hides(t, t[2])
  {
    LeakingLedgerIsLedger();
    LeakIsDuplicate();
    hide IsLedger, DuplicateOf, InternalTransfer, IsInternalSender, NotBlank, CommissionTxs, BusinessTxs;
  }

  /** Marker sets that start empty on every request: with a page size of 1 the walk lists a duplicate
      that the offset scan hides, because its marker row closed the page before. */
  lemma WalkMayListADuplicate()
    ensures
      var t := LeakingLedger();
      && IsLedger(t)
      && t[1] in Walk(t, Cursor(9, "z"), 1)
      && t[1] !in Visible(Window(t), 0, 0, BATCH_SIZE)
  {
    hide LeakingLedger, IsLedger, Position, PageNext, PageItems, Visible, CursorOf, Walk, Hides, DuplicateOf,
         InternalTransfer, Window;
    var t := LeakingLedger();
    var c := Cursor(9, "z");
    LeakingLedgerFacts();
    LeakHidden();
    LeakStart(t, c);
    LeakOffset(t);
    LeakFirstPage(t, c);
    PositionOfRow(t, 0);
    LeakSecondPage(t);
    WalkNext(t, c, 1);
  }

  /** The rest of a walk is part of it. */
  lemma WalkNext(t: seq<Row>, c: Cursor, take: nat)
    requires IsLedger(t) && take >= 1 && PageNext(t, c, take).Some?
    ensures forall r :: r in Walk(t, PageNext(t, c, take).value, take) ==> r in Walk(t, c, take)
  {
    hide IsLedger, Position, PageNext, PageItems;
    NextAdvances(t, c, take);
  }

  lemma LeakStart(t: seq<Row>, c: Cursor)
    requires t == LeakingLedger() && c == Cursor(9, "z")
    ensures Position(t, Some(c)) == 0
  {
    FilterAll(AfterBy(Some(c)), t);
  }

  lemma LeakOffset(t: seq<Row>)
    requires t == LeakingLedger() && IsLedger(t)
    ensures t[1] !in Visible(Window(t), 0, 0, BATCH_SIZE)
  {
    LeakingLedgerFacts();
    assert Window(t) == t && t[0..3] == t;
    hide LeakingLedger, IsLedger, DuplicateOf, InternalTransfer, Visible;
    assert t[0] in t;
    ShownExactly(t, 0, 0, BATCH_SIZE, 1);
    HiddenExactly(t, t[1]);
  }

  /** The duplicate is hidden from a listing of the whole ledger, the rows around it are not. */
  lemma LeakHidden()
    ensures
      var t := LeakingLedger();
      Hides(t, t[1]) && !Hides(t, t[0]) && !Hides(t, t[2])
  {
    var t := LeakingLedger();
    LeakingLedgerFacts();
    hide LeakingLedger, DuplicateOf, InternalTransfer, IsLedger, Hides;
    assert t[0] in t;
    HiddenExactly(t, t[1]);
  }

  lemma ShownOfThree(t: seq<Row>, c: Cursor)
    requires |t| == 3 && Hides(t, t[1]) && !Hides(t, t[0]) && !Hides(t, t[2]) && Position(t, Some(c)) == 0
    ensures PageVisible(t, c, 1) == [t[0], t[2]]
  {
    hide CommissionTxs, BusinessTxs, ShouldHide, Position, Filter;
    assert PageWindow(t, 0, 1) == t && t[0..3] == t;
    FilterThree(KeepSeeing(t), t);
    assert Visible(t, 0, 3, 26) == [];
  }

  lemma LeakFirstPage(t: seq<Row>, c: Cursor)
    requires |t| == 3 && Hides(t, t[1]) && !Hides(t, t[0]) && !Hides(t, t[2]) && Position(t, Some(c)) == 0
    ensures PageNext(t, c, 1) == Some(CursorOf(t[0]))
  {
    ShownOfThree(t, c);
    hide Hides, PageVisible, Position, CursorOf;
  }

  lemma FilterThree(keep: Row -> bool, t: seq<Row>)
    requires |t| == 3 && keep(t[0]) && !keep(t[1]) && keep(t[2])
    ensures Filter(keep, t) == [t[0], t[2]]
  {
    assert t == [t[0]] + ([t[1]] + ([t[2]] + []));
    FilterUnfold(keep, t[0], [t[1]] + ([t[2]] + []));
    FilterUnfold(keep, t[1], [t[2]] + []);
    FilterUnfold(keep, t[2], []);
  }

  lemma LeakSecondPage(t: seq<Row>)
    requires t == LeakingLedger() && IsLedger(t) && Position(t, Some(CursorOf(t[0]))) == 1
    ensures t[1] in Walk(t, CursorOf(t[0]), 1)
  {
    var c := CursorOf(t[0]);
    LeakingLedgerFacts();
    assert PageWindow(t, 1, 1) == t;
    forall m | m in t[1..3] ensures !DuplicateOf(t[1], m) {
      assert t[1..3] == [t[1], t[2]];
    }
    HiddenExactly(t[1..3], t[1]);
    hide LeakingLedger, Hides, DuplicateOf, InternalTransfer, IsLedger, Position;
    WalkShowsExactly(t, c, 1, 1);
    SecondPageCoversRow(t, c);
    assert BatchEnd(3, 1, 26, 1) == 3;
  }

  lemma SecondPageCoversRow(t: seq<Row>, c: Cursor)
    requires IsLedger(t) && |t| == 3 && Position(t, Some(c)) == 1
    ensures WalkEnd(t, c, 1) > 1 && PageStart(t, c, 1, 1) == 1
  {
    PageFacts(t, c, 1);
    assert |PageWindow(t, 1, 1)| == 3;
    hide PageNext, Position, IsLedger, PageVisible, PageWindow;
    if PageNext(t, c, 1).Some? {
      var n := PageNext(t, c, 1).value;
      NextAdvances(t, c, 1);
      WalkReadsOn(t, n, 1);
    }
  }
}
