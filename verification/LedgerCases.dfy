/** Case by case: which rows are markers, which senders are internal, what a request covers, where batches end, when
    a further page exists, and what an offset page holds. Names, sizes and limits are written out. */
module LedgerCases {
  import opened Options
  import opened Seqs
  import opened StringOrder
  import opened Texts
  import opened WalletLedger
  import opened LedgerLaws
  import opened LedgerWalks

  // ------------------------------------------------------------ rows

  predicate Blank(c: char) {
    c in [' ', '\t', '\n', '\r']
  }

  /** A transaction hash is text that is not blank. */
  lemma TxHashExactly(r: Row, h: string)
    ensures TxHash(r) == Some(h) <==>
              && r.metadata.Some? && r.metadata.value.txHash == Some(h)
              && exists i :: 0 <= i < |h| && !Blank(h[i])
  {
  }

  /** The sender is `fromAddress`, or `from` when there is no such field. */
  lemma FromAddressExactly(r: Row, a: string)
    ensures FromAddress(r) == Some(a) <==>
              && r.metadata.Some?
              && (r.metadata.value.fromAddress == Some(a) ||
                  (r.metadata.value.fromAddress == None && r.metadata.value.sender == Some(a)))
              && exists i :: 0 <= i < |a| && !Blank(a[i])
  {
  }

  /** A row that marks its transaction: a commission credit, or a package purchase or external deposit or deposit
      return on chain. */
  lemma MarkersExactly(r: Row)
    ensures MarksCommission(r) <==>
              TxHash(r).Some? && r.rail == ONCHAIN_USDC && r.direction == CREDIT && r.category == COMMISSION_ONCHAIN_USDC
    ensures MarksBusiness(r) <==>
              && TxHash(r).Some? && r.rail == ONCHAIN_USDC
              && r.category in {PACKAGE_PURCHASE, POLYMARKET_DEPOSIT_RETURN, POLYMARKET_DEPOSIT_EXTERNAL}
  {
    hide TxHash;
  }

  /** Which credits duplicate a marker of their transaction. */
  lemma DuplicatesExactly(r: Row, m: Row)
    ensures DuplicateOf(r, m) <==>
              && TxHash(r).Some? && TxHash(r) == TxHash(m)
              && r.rail == ONCHAIN_USDC && r.direction == CREDIT && m.rail == ONCHAIN_USDC
              && (if m.category in {PACKAGE_PURCHASE, POLYMARKET_DEPOSIT_RETURN, POLYMARKET_DEPOSIT_EXTERNAL} then
                    r.category in {CHAIN_DEPOSIT, POLYMARKET_FUNDER_CHAIN_DEPOSIT, POLYMARKET_REDEEM}
                  else
                    r.category == CHAIN_DEPOSIT && m.category == COMMISSION_ONCHAIN_USDC && m.direction == CREDIT)
  {
    hide TxHash;
  }

  // ------------------------------------------------------------ internal senders

  /** Equal up to the case of letters, against lower-case text. */
  predicate SameLetters(s: string, low: string) {
    |s| == |low| && forall i :: 0 <= i < |s| ==>
      if 'A' <= s[i] <= 'Z' then s[i] as int + 32 == low[i] as int else s[i] == low[i]
  }

  predicate AllBlank(s: string) {
    forall i :: 0 <= i < |s| ==> Blank(s[i])
  }

  predicate Tight(s: string) {
    s == "" || (!Blank(s[0]) && !Blank(s[|s| - 1]))
  }

  /** `s` is `core` between blanks. */
  ghost predicate Surrounds(s: string, core: string) {
    exists a: nat, b: nat :: a <= b <= |s| && s[a..b] == core && AllBlank(s[..a]) && AllBlank(s[b..])
  }

  lemma {:induction false} LowerExactly(s: string, low: string)
    ensures Lower(s) == low <==> SameLetters(s, low)
  {
    if s != "" && low != "" {
      LowerExactly(s[1..], low[1..]);
      LowerHead(s[0], low[0]);
      assert low == [low[0]] + low[1..];
      assert forall i :: 0 < i < |s| ==> s[i] == s[1..][i - 1];
      assert forall i :: 0 < i < |low| ==> low[i] == low[1..][i - 1];
      assert forall i :: 0 <= i < |s[1..]| ==> s[1..][i] == s[i + 1];
      assert forall i :: 0 <= i < |low[1..]| ==> low[1..][i] == low[i + 1];
    }
  }

  lemma LowerHead(c: char, d: char)
    ensures LowerChar(c) == d <==> if 'A' <= c <= 'Z' then c as int + 32 == d as int else c == d
  {
  }

  /** Trimming takes the blanks off both ends and nothing else. */
  lemma {:induction false} TrimExactly(s: string)
    ensures Tight(Trim(s)) && Surrounds(s, Trim(s))
    decreases |s|
  {
    if s == "" {
      assert s[0..0] == Trim(s) && AllBlank(s[..0]) && AllBlank(s[0..]);
    } else if IsSpace(s[0]) {
      TrimExactly(s[1..]);
      BlankBefore(s, Trim(s));
    } else if IsSpace(s[|s| - 1]) {
      TrimExactly(s[..|s| - 1]);
      BlankAfter(s, Trim(s));
    } else {
      assert s[0..|s|] == s && AllBlank(s[..0]) && AllBlank(s[|s|..]);
    }
  }

  lemma BlankBefore(s: string, core: string)
    requires s != "" && Blank(s[0]) && Surrounds(s[1..], core)
    ensures Surrounds(s, core)
  {
    var a: nat, b: nat :| a <= b <= |s[1..]| && s[1..][a..b] == core && AllBlank(s[1..][..a]) && AllBlank(s[1..][b..]);
    assert s[a + 1..b + 1] == core;
    assert s[..a + 1] == [s[0]] + s[1..][..a] && s[b + 1..] == s[1..][b..];
  }

  lemma BlankAfter(s: string, core: string)
    requires s != "" && Blank(s[|s| - 1]) && Surrounds(s[..|s| - 1], core)
    ensures Surrounds(s, core)
  {
    var n := |s| - 1;
    var a: nat, b: nat :| a <= b <= n && s[..n][a..b] == core && AllBlank(s[..n][..a]) && AllBlank(s[..n][b..]);
    assert s[a..b] == core;
    assert s[..a] == s[..n][..a] && s[b..] == s[..n][b..] + [s[n]];
  }

  /** A sender is internal exactly when it is the collateral onramp or offramp, in any letter case and up to blanks
      around it. */
  lemma InternalSenderExactly(from: string)
    ensures IsInternalSender(Some(from)) <==>
              || SameLetters(Trim(from), "0x93070a847efef7f70739046a929d47a521f5b8ee")
              || SameLetters(Trim(from), "0x2957922eb93258b93368531d39facca3b4dc5854")
  {
    LowerExactly(Trim(from), COLLATERAL_ONRAMP);
    LowerExactly(Trim(from), COLLATERAL_OFFRAMP);
    if Trim(from) != "" {
      TrimmedIsNotBlank(from);
    }
    hide Lower, Trim, NotBlank;
  }

  lemma TrimmedIsNotBlank(s: string)
    requires Trim(s) != ""
    ensures NotBlank(s)
  {
    TrimExactly(s);
    var core := Trim(s);
    hide Trim;
    var a: nat, b: nat :| a <= b <= |s| && s[a..b] == core && AllBlank(s[..a]) && AllBlank(s[b..]);
    assert s[a] == core[0];
  }

  // ------------------------------------------------------------ requests, order and cursors

  /** What a request lists: without a rail everything but internal USDC, without a category everything but chain
      deposits and withdrawals, top-ups, custody credits, tier purchases, commissions and copy reserves. */
  lemma RequestExactly(r: Row, rail: Option<Rail>, category: Option<Category>)
    ensures MatchesBase(r, rail, category) <==>
              && (rail == None ==> r.rail != INTERNAL_USDC_E) && (rail.Some? ==> r.rail == rail.value)
              && (category.Some? ==> r.category == category.value)
              && (category == None ==>
                    r.category !in {CHAIN_DEPOSIT, CHAIN_WITHDRAW, PAYMENT_TOPUP, CUSTODY_CREDIT,
                                    AFFILIATE_TIER_ACTIVATION_PURCHASE, COMMISSION_GAS, COMMISSION_INTERNAL_USD,
                                    COMMISSION_ONCHAIN_USDC, COPY_RESERVE, COPY_RELEASE})
  {
  }

  /** Newest first, and of rows from the same moment the larger id first. */
  predicate ListedBefore(a: Row, b: Row) {
    if a.occurredAt == b.occurredAt then Before(b.id, a.id) else a.occurredAt > b.occurredAt
  }

  predicate NotAfter(a: Row, b: Row) {
    !ListedBefore(b, a)
  }

  /** A ledger is a table of distinct ids in that order. */
  lemma ListingOrderExactly(t: seq<Row>)
    ensures IsLedger(t) <==>
              forall i, j :: 0 <= i < j < |t| ==> t[i].id != t[j].id && ListedBefore(t[i], t[j])
  {
    forall a, b ensures Precedes(a, b) == ListedBefore(a, b) {
    }
    hide Precedes, ListedBefore;
  }

  /** Any rows with distinct ids can be listed, moments shared or not. */
  lemma EveryTableIsListed(rows: seq<Row>)
    requires forall i, j :: 0 <= i < j < |rows| ==> rows[i].id != rows[j].id
    ensures IsLedger(Sort(NotAfter, rows)) && multiset(Sort(NotAfter, rows)) == multiset(rows)
  {
    hide Sort, Map, Distinct;
    var t := Sort(NotAfter, rows);
    NotAfterIsTotal();
    SortSorted(NotAfter, rows);
    IdsStayDistinct(rows, t);
    forall i, j | 0 <= i < j < |t| ensures ListedBefore(t[i], t[j]) {
      BeforeTotal(t[i].id, t[j].id);
      assert NotAfter(t[i], t[j]);
    }
    ListingOrderExactly(t);
  }

  lemma NotAfterIsTotal()
    ensures TotalPreorder(NotAfter)
  {
    BeforeIsStrictTotalOrder();
  }

  function IdOf(r: Row): string {
    r.id
  }

  lemma IdsStayDistinct(rows: seq<Row>, t: seq<Row>)
    requires forall i, j :: 0 <= i < j < |rows| ==> rows[i].id != rows[j].id
    requires multiset(t) == multiset(rows)
    ensures forall i, j :: 0 <= i < j < |t| ==> t[i].id != t[j].id
  {
    hide Map;
    assert Distinct(Map(IdOf, rows));
    MapPermutation(IdOf, rows, t);
    DistinctPermutation(Map(IdOf, rows), Map(IdOf, t));
    forall i, j | 0 <= i < j < |t| ensures t[i].id != t[j].id {
      assert Map(IdOf, t)[i] != Map(IdOf, t)[j];
    }
  }

  /** A cursor selects what is older than it, and of its own moment the smaller ids. */
  lemma CursorSelects(r: Row, c: Cursor)
    ensures AfterCursor(r, Some(c)) <==>
              if r.occurredAt == c.occurredAt then Before(r.id, c.id) else r.occurredAt < c.occurredAt
    ensures AfterCursor(r, None)
  {
  }

  // ------------------------------------------------------------ batches and pages

  lemma {:induction false} BatchEndAt(n: nat, at: nat, size: nat, i: nat, k: nat)
    requires size >= 1 && at <= i < n && at + k * size <= i < at + (k + 1) * size
    ensures BatchEnd(n, at, size, i) == if at + (k + 1) * size < n then at + (k + 1) * size else n
    decreases k
  {
    if k > 0 {
      NextMultiple(k, size);
      BatchEndAt(n, at + size, size, i, k - 1);
    }
  }

  lemma NextMultiple(k: nat, size: nat)
    requires k > 0
    ensures (k - 1) * size + size == k * size && (k + 1) * size == k * size + size && k * size >= size
  {
    assert (k - 1) * size >= 0;
  }

  /** What the offset listing shows: batch `k` holds the rows 80 k to 80 k + 79, at most 2000 rows are read, and a
      row is shown if and only if the rows up to the end of its batch do not hide it. */
  lemma OffsetShowsExactly(t: seq<Row>, i: nat, k: nat)
    requires IsLedger(t) && i < |t| && 80 * k <= i < 80 * (k + 1)
    ensures t[i] in Visible(Window(t), 0, 0, BATCH_SIZE) <==>
              i < 2000 && !Hides(t[..(if 80 * (k + 1) < |t| then 80 * (k + 1) else |t|)], t[i])
  {
    hide IsLedger, Visible, Hides, BatchEnd;
    var w := Window(t);
    if i < 2000 {
      WindowIsLedger(t);
      ShownExactly(w, 0, 0, BATCH_SIZE, i);
      BatchEndAt(|w|, 0, BATCH_SIZE, i, k);
      assert w[0..BatchEnd(|w|, 0, BATCH_SIZE, i)] == t[..(if 80 * (k + 1) < |t| then 80 * (k + 1) else |t|)];
    } else {
      NothingBeyondTheScan(t, i);
    }
  }

  lemma WindowIsLedger(t: seq<Row>)
    requires IsLedger(t)
    ensures IsLedger(Window(t)) && |Window(t)| == (if |t| < 2000 then |t| else 2000) && Window(t) == t[..|Window(t)|]
  {
    SliceIsLedger(t, 0, |Window(t)|);
    hide IsLedger;
    assert Window(t) == t[0..|Window(t)|];
  }

  /** What a cursor page can show: fetch `k` of its ten holds `take + 25` rows, and a row is shown if and only if
      the rows from the page's start to the end of its fetch do not hide it. */
  lemma PageShowsExactly(t: seq<Row>, c: Cursor, take: nat, i: nat, k: nat)
    requires IsLedger(t) && take >= 1
    requires
      var p, size := Position(t, Some(c)), take + 25;
      p <= i < |t| && p + k * size <= i < p + (k + 1) * size
    ensures
      var p, size := Position(t, Some(c)), take + 25;
      t[i] in PageVisible(t, c, take) <==>
        k < 10 && !Hides(t[p..(if p + (k + 1) * size < |t| then p + (k + 1) * size else |t|)], t[i])
  {
    hide IsLedger, Position, Hides, PageVisible, PageWindow, BatchEnd;
    PageVisibleExactly(t, c, take, i);
    FetchEndAt(t, Position(t, Some(c)), take, i, k);
    hide FetchSize;
  }

  lemma FetchEndAt(t: seq<Row>, p: nat, take: nat, i: nat, k: nat)
    requires p <= i < |t| && p + k * (take + 25) <= i < p + (k + 1) * (take + 25)
    ensures i < |PageWindow(t, p, take)| <==> k < 10
    ensures k < 10 ==>
              BatchEnd(|PageWindow(t, p, take)|, p, FetchSize(take), i) ==
              if p + (k + 1) * (take + 25) < |t| then p + (k + 1) * (take + 25) else |t|
  {
    var size := take + 25;
    if k < 10 {
      assert (k + 1) * size <= 10 * size;
      BatchEndAt(|PageWindow(t, p, take)|, p, size, i, k);
    } else {
      assert k * size >= 10 * size;
    }
  }

  /** A further page exists if and only if this one is full and either a visible row is to spare, or ten full
      fetches were made, or the last item lies in a tenth fetch that is not full and has rows after it. */
  lemma PageNextExactly(t: seq<Row>, c: Cursor, take: nat)
    requires IsLedger(t) && take >= 1
    ensures
      var p, size, visible := Position(t, Some(c)), take + 25, PageVisible(t, c, take);
      && (PageNext(t, c, take).Some? <==>
            || |visible| > take
            || (|visible| == take &&
                (|t| >= p + 10 * size ||
                 exists i :: p + 9 * size <= i < |t| - 1 && t[i] == visible[take - 1])))
      && (PageNext(t, c, take).Some? ==>
            PageNext(t, c, take) == Some(Cursor(visible[take - 1].occurredAt, visible[take - 1].id)))
  {
    hide PageVisible, Position, IsLedger, PageWindow, IndexOfId;
    var visible := PageVisible(t, c, take);
    var tenth := Position(t, Some(c)) + 9 * (take + 25);
    PageFacts(t, c, take);
    if |visible| == take && tenth < |t| {
      VisibleIsRow(t, c, take);
      LastInTenth(t, tenth, visible[take - 1]);
    }
  }

  lemma VisibleIsRow(t: seq<Row>, c: Cursor, take: nat)
    requires IsLedger(t) && take >= 1 && |PageVisible(t, c, take)| == take
    ensures PageVisible(t, c, take)[take - 1] in t
  {
    PageFacts(t, c, take);
    VisibleLieBelow(t, c, take);
    hide PageVisible, Position;
    var last := PageVisible(t, c, take)[take - 1];
    assert last in PageVisible(t, c, take);
  }

  lemma LastInTenth(t: seq<Row>, tenth: nat, last: Row)
    requires IsLedger(t) && tenth < |t| && last in t
    ensures IndexOfId(t[tenth..], last.id) + 1 < |t| - tenth <==> exists i :: tenth <= i < |t| - 1 && t[i] == last
  {
    var k := IndexOfId(t[tenth..], last.id);
    var m :| 0 <= m < |t| && t[m] == last;
    if k < |t| - tenth {
      assert t[tenth + k].id == t[m].id;
      assert m == tenth + k;
    }
    if i :| tenth <= i < |t| - 1 && t[i] == last {
      assert t[tenth..][i - tenth].id == last.id;
    }
  }

  // ------------------------------------------------------------ offset pages

  /** The page at an offset, whether the scan was truncated or not: the visible rows from that offset on, `take` of
      them or what is left; more is announced below the last visible row and always when truncated. The total is
      the number of visible rows, but a truncated listing announces one more on a full page that ends with the
      last of them, and the asked offset itself beyond them. */
  lemma OffsetPageExactly(t: seq<Row>, offset: nat, take: nat)
    requires take >= 1
    ensures
      var visible, page := Visible(Window(t), 0, 0, BATCH_SIZE), OffsetPageOf(t, offset, take);
      var n := |visible|;
      && |page.items| == (if offset >= n then 0 else if n - offset < take then n - offset else take)
      && (forall k :: 0 <= k < |page.items| ==> page.items[k] == visible[offset + k])
      && (page.truncated <==> |t| >= 2000)
      && (page.hasMore <==> offset + take < n || |t| >= 2000)
      && page.total == if |t| < 2000 then n
                       else if offset > n then offset
                       else if offset + take == n then n + 1
                       else n
  {
    hide Visible;
  }

  /** The items of the first `pages` pages, one after the other. */
  function PagesUpTo(t: seq<Row>, take: nat, pages: nat): seq<Row> {
    if pages == 0 then [] else PagesUpTo(t, take, pages - 1) + OffsetPageOf(t, (pages - 1) * take, take).items
  }

  /** Pages at 0, take, 2 take, ... concatenate to the visible rows, on every ledger. */
  lemma {:induction false} OffsetPagesAddUp(t: seq<Row>, take: nat, pages: nat)
    requires take >= 1
    ensures
      var visible := Visible(Window(t), 0, 0, BATCH_SIZE);
      PagesUpTo(t, take, pages) == Take(visible, pages * take)
  {
    hide Visible;
    if pages == 0 {
      assert 0 * take == 0;
    } else {
      OffsetPagesAddUp(t, take, pages - 1);
      OffsetPageExactly(t, (pages - 1) * take, take);
      assert pages * take == (pages - 1) * take + take;
      hide OffsetPageOf;
      TakeMore(Visible(Window(t), 0, 0, BATCH_SIZE), (pages - 1) * take, take,
               OffsetPageOf(t, (pages - 1) * take, take).items);
    }
  }

  lemma TakeMore(s: seq<Row>, n: nat, more: nat, items: seq<Row>)
    requires |items| == if n >= |s| then 0 else if |s| - n < more then |s| - n else more
    requires forall k :: 0 <= k < |items| ==> items[k] == s[n + k]
    ensures Take(s, n) + items == Take(s, n + more)
  {
  }
}
