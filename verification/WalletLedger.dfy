/** The wallet ledger listing: keyset scans over (occurredAt desc, id desc) that hide on-chain rows
    duplicating a business row of the same transaction. The table is a fixed sorted sequence. */
module WalletLedger {
  import opened Options
  import opened Seqs
  import opened StringOrder
  import opened Texts

  datatype Rail = ONCHAIN_USDC | INTERNAL_USDC_E | GAS_POINTS

  datatype Direction = CREDIT | DEBIT | LOCK | UNLOCK

  datatype Category =
    | CHAIN_DEPOSIT | CHAIN_WITHDRAW | PAYMENT_TOPUP | CUSTODY_CREDIT | PACKAGE_PURCHASE | PACKAGE_FULFILL_GAS
    | AFFILIATE_TIER_ACTIVATION_PURCHASE | GAS_RECHARGE | SHARE_TO_X_GAS | GAS_SPEND | COMMISSION_GAS
    | COMMISSION_INTERNAL_USD | COMMISSION_ONCHAIN_USDC | COPY_RESERVE | COPY_RELEASE | POLYMARKET_DEPOSIT
    | POLYMARKET_DEPOSIT_RETURN | POLYMARKET_DEPOSIT_EXTERNAL | POLYMARKET_FUNDER_CHAIN_DEPOSIT | POLYMARKET_REDEEM

  /** The parts of the JSON metadata that the listing reads. */
  datatype Metadata = Metadata(txHash: Option<string>, fromAddress: Option<string>, sender: Option<string>)

  datatype Row = Row(
    id: string,
    occurredAt: int,
    rail: Rail,
    direction: Direction,
    category: Category,
    metadata: Option<Metadata>)

  datatype Cursor = Cursor(occurredAt: int, id: string)

  const BATCH_SIZE := 80
  const MAX_RAW_SCAN := 2000

  // ------------------------------------------------------------ metadata

  function Present(s: Option<string>): Option<string> {
    if s.Some? && NotBlank(s.value) then s else None
  }

  function TxHash(r: Row): Option<string> {
    if r.metadata.None? then None else Present(r.metadata.value.txHash)
  }

  function FromAddress(r: Row): Option<string> {
    if r.metadata.None? then None
    else if r.metadata.value.fromAddress.Some? then Present(r.metadata.value.fromAddress)
    else Present(r.metadata.value.sender)
  }

  const COLLATERAL_ONRAMP := "0x93070a847efef7f70739046a929d47a521f5b8ee"
  const COLLATERAL_OFFRAMP := "0x2957922eb93258b93368531d39facca3b4dc5854"

  predicate IsInternalSender(from: Option<string>) {
    from.Some? && NotBlank(from.value) &&
    (Lower(Trim(from.value)) == COLLATERAL_ONRAMP || Lower(Trim(from.value)) == COLLATERAL_OFFRAMP)
  }

  // ------------------------------------------------------------ de-duplication

  predicate MarksCommission(r: Row) {
    TxHash(r).Some? && r.rail == ONCHAIN_USDC && r.direction == CREDIT && r.category == COMMISSION_ONCHAIN_USDC
  }

  predicate MarksBusiness(r: Row) {
    && TxHash(r).Some? && r.rail == ONCHAIN_USDC
    && (r.category == PACKAGE_PURCHASE || r.category == POLYMARKET_DEPOSIT_RETURN ||
        r.category == POLYMARKET_DEPOSIT_EXTERNAL)
  }

  function CommissionTxs(rows: seq<Row>): set<string> {
    set r | r in rows && MarksCommission(r) :: TxHash(r).value
  }

  function BusinessTxs(rows: seq<Row>): set<string> {
    set r | r in rows && MarksBusiness(r) :: TxHash(r).value
  }

  /** Adds the transactions of the marker rows to both sets. */
  method NoteDedupMarkers(rows: seq<Row>, commission: set<string>, business: set<string>)
    returns (commission': set<string>, business': set<string>)
    ensures commission' == commission + CommissionTxs(rows)
    ensures business' == business + BusinessTxs(rows)
  {
    commission', business' := commission, business;
    for i := 0 to |rows|
      invariant commission' == commission + CommissionTxs(rows[..i])
      invariant business' == business + BusinessTxs(rows[..i])
    {
      assert rows[..i + 1] == rows[..i] + [rows[i]];
      MarkersSnoc(rows[..i], rows[i]);
      var tx := TxHash(rows[i]);
      if tx.Some? {
        if rows[i].rail == ONCHAIN_USDC && rows[i].direction == CREDIT && rows[i].category == COMMISSION_ONCHAIN_USDC {
          commission' := commission' + {tx.value};
        }
        if rows[i].rail == ONCHAIN_USDC &&
           (rows[i].category == PACKAGE_PURCHASE || rows[i].category == POLYMARKET_DEPOSIT_RETURN ||
            rows[i].category == POLYMARKET_DEPOSIT_EXTERNAL)
        {
          business' := business' + {tx.value};
        }
      }
    }
    assert rows[..|rows|] == rows;
  }

  lemma MarkersSnoc(rows: seq<Row>, r: Row)
    ensures CommissionTxs(rows + [r]) == CommissionTxs(rows) + if MarksCommission(r) then {TxHash(r).value} else {}
    ensures BusinessTxs(rows + [r]) == BusinessTxs(rows) + if MarksBusiness(r) then {TxHash(r).value} else {}
  {
    MarkersConcat(rows, [r]);
  }

  lemma MarkersConcat(a: seq<Row>, b: seq<Row>)
    ensures CommissionTxs(a + b) == CommissionTxs(a) + CommissionTxs(b)
    ensures BusinessTxs(a + b) == BusinessTxs(a) + BusinessTxs(b)
  {
    hide MarksCommission, MarksBusiness, TxHash;
    assert forall r :: r in a + b <==> r in a || r in b;
  }

  predicate ShouldHide(r: Row, commission: set<string>, business: set<string>) {
    var tx := TxHash(r);
    && r.rail == ONCHAIN_USDC
    && r.direction == CREDIT
    && ((r.category == CHAIN_DEPOSIT && tx.Some? && (tx.value in commission || tx.value in business)) ||
        ((r.category == POLYMARKET_FUNDER_CHAIN_DEPOSIT || r.category == POLYMARKET_REDEEM) &&
         (IsInternalSender(FromAddress(r)) || (tx.Some? && tx.value in business))))
  }

  function KeepWith(commission: set<string>, business: set<string>): Row -> bool {
    (r: Row) => !ShouldHide(r, commission, business)
  }

  /** Keeps what the markers among `seen` do not hide. */
  function KeepSeeing(seen: seq<Row>): Row -> bool {
    KeepWith(CommissionTxs(seen), BusinessTxs(seen))
  }

  // ------------------------------------------------------------ the table

  predicate InDepositScope(c: Category) {
    c == POLYMARKET_DEPOSIT || c == POLYMARKET_DEPOSIT_RETURN || c == POLYMARKET_DEPOSIT_EXTERNAL ||
    c == POLYMARKET_FUNDER_CHAIN_DEPOSIT || c == POLYMARKET_REDEEM || c == PACKAGE_PURCHASE ||
    c == PACKAGE_FULFILL_GAS || c == GAS_RECHARGE || c == SHARE_TO_X_GAS || c == GAS_SPEND
  }

  /** The `where` clause of a request: an optional rail and an optional category in scope. */
  predicate MatchesBase(r: Row, rail: Option<Rail>, category: Option<Category>) {
    && (if rail.Some? then r.rail == rail.value else r.rail != INTERNAL_USDC_E)
    && (if category.Some? then r.category == category.value else InDepositScope(r.category))
  }

  function BaseBy(rail: Option<Rail>, category: Option<Category>): Row -> bool {
    (r: Row) => MatchesBase(r, rail, category)
  }

  /** `a` is listed before `b`. */
  predicate Precedes(a: Row, b: Row) {
    a.occurredAt > b.occurredAt || (a.occurredAt == b.occurredAt && Before(b.id, a.id))
  }

  ghost predicate IsLedger(t: seq<Row>) {
    && (forall i, j :: 0 <= i < j < |t| ==> Precedes(t[i], t[j]))
    && (forall i, j :: 0 <= i < j < |t| ==> t[i].id != t[j].id)
  }

  predicate AfterCursor(r: Row, c: Option<Cursor>) {
    c.None? || r.occurredAt < c.value.occurredAt || (r.occurredAt == c.value.occurredAt && Before(r.id, c.value.id))
  }

  function AfterBy(c: Option<Cursor>): Row -> bool {
    (r: Row) => AfterCursor(r, c)
  }

  function CursorOf(r: Row): Cursor {
    Cursor(r.occurredAt, r.id)
  }

  /** `findMany` with the keyset condition, in listing order. */
  function FindMany(t: seq<Row>, c: Option<Cursor>, take: nat): seq<Row> {
    Take(Filter(AfterBy(c), t), take)
  }

  /** How many rows lie at or before the cursor. */
  function Position(t: seq<Row>, c: Option<Cursor>): (p: nat)
    ensures p <= |t|
  {
    |t| - |Filter(AfterBy(c), t)|
  }

  /** On a ledger every cursor, also one no row has, splits the rows at its position. */
  lemma RowsAfterCursor(t: seq<Row>, c: Option<Cursor>)
    requires IsLedger(t)
    ensures Filter(AfterBy(c), t) == t[Position(t, c)..]
    ensures forall i :: 0 <= i < |t| ==> (AfterCursor(t[i], c) <==> Position(t, c) <= i)
  {
    BeforeIsStrictTotalOrder();
    forall i, j | 0 <= i < j < |t| && AfterCursor(t[i], c) ensures AfterCursor(t[j], c) {
      assert Precedes(t[i], t[j]);
    }
    var k := SwitchPoint(AfterBy(c), t);
    FilterFrom(AfterBy(c), t, k);
  }

  lemma PositionOfRow(t: seq<Row>, k: nat)
    requires IsLedger(t) && k < |t|
    ensures Position(t, Some(CursorOf(t[k]))) == k + 1
  {
    BeforeIsStrictTotalOrder();
    var c := Some(CursorOf(t[k]));
    forall i | 0 <= i < |t| ensures AfterCursor(t[i], c) <==> k + 1 <= i {
      if i < k {
        assert Precedes(t[i], t[k]);
      } else if k < i {
        assert Precedes(t[k], t[i]);
      }
    }
    FilterFrom(AfterBy(c), t, k + 1);
  }

  lemma PositionOfStart(t: seq<Row>)
    ensures Position(t, None) == 0
  {
    FilterAll(AfterBy(None), t);
  }

  // ------------------------------------------------------------ batched filtering

  function Min(a: nat, b: nat): nat {
    if a < b then a else b
  }

  /** What a scan from `start` shows of the rows from `at` on, in batches of `size`: each batch is
      filtered knowing the markers of all rows from `start` to its own end. */
  function Visible(t: seq<Row>, start: nat, at: nat, size: nat): seq<Row>
    requires start <= at <= |t| && size >= 1
    decreases |t| - at
  {
    if at == |t| then []
    else
      var e := Min(at + size, |t|);
      Filter(KeepSeeing(t[start..e]), t[at..e]) + Visible(t, start, e, size)
  }

  predicate Within(filtered: seq<Row>, stop: Option<nat>) {
    stop.None? || |filtered| <= stop.value
  }

  /** What a scan from `start` lists of its visible rows: all, or one more than `stop`. */
  function Listed(visible: seq<Row>, stop: Option<nat>): seq<Row> {
    if stop.None? then visible else Take(visible, stop.value + 1)
  }

  /** Pushes the rows that are not hidden, stopping once more than `stop` are listed. */
  method PushVisible(rows: seq<Row>, commission: set<string>, business: set<string>,
                     listed: seq<Row>, stop: Option<nat>)
    returns (filtered: seq<Row>)
    requires Within(listed, stop)
    ensures filtered == Listed(listed + Filter(KeepWith(commission, business), rows), stop)
  {
    hide ShouldHide, Filter;
    ghost var keep := KeepWith(commission, business);
    NothingKept(keep, rows);
    filtered := listed;
    for i := 0 to |rows|
      invariant filtered == listed + Filter(keep, rows[..i])
      invariant Within(filtered, stop)
    {
      FilterSnoc(keep, rows, i);
      if !ShouldHide(rows[i], commission, business) {
        filtered := filtered + [rows[i]];
        if !Within(filtered, stop) {
          FilterSplit(keep, rows, i + 1);
          CutHere(filtered, Filter(keep, rows[i + 1..]), stop);
          assert listed + Filter(keep, rows) == filtered + Filter(keep, rows[i + 1..]);
          return;
        }
      }
    }
    assert rows[..|rows|] == rows;
    CutHere(filtered, [], stop);
  }

  lemma NothingKept(keep: Row -> bool, rows: seq<Row>)
    ensures Filter(keep, rows[..0]) == []
  {
  }

  lemma CutHere(listed: seq<Row>, rest: seq<Row>, stop: Option<nat>)
    requires Within(listed, stop) ==> rest == []
    requires !Within(listed, stop) ==> |listed| == stop.value + 1
    ensures Listed(listed + rest, stop) == listed
  {
  }

  lemma FilterSnoc(keep: Row -> bool, rows: seq<Row>, i: nat)
    requires i < |rows|
    ensures Filter(keep, rows[..i + 1]) == Filter(keep, rows[..i]) + if keep(rows[i]) then [rows[i]] else []
  {
    assert rows[..i + 1] == rows[..i] + [rows[i]];
    FilterConcat(keep, rows[..i], [rows[i]]);
  }

  lemma FilterSplit(keep: Row -> bool, rows: seq<Row>, i: nat)
    requires i <= |rows|
    ensures Filter(keep, rows) == Filter(keep, rows[..i]) + Filter(keep, rows[i..])
  {
    assert rows == rows[..i] + rows[i..];
    FilterConcat(keep, rows[..i], rows[i..]);
  }

  /** The rows one offset request may read. */
  function Window(t: seq<Row>): seq<Row> {
    Take(t, MAX_RAW_SCAN)
  }

  /** The batch at a position of a ledger. */
  lemma BatchAt(t: seq<Row>, c: Option<Cursor>, take: nat)
    requires IsLedger(t)
    ensures
      var p := Position(t, c);
      FindMany(t, c, take) == t[p..Min(p + take, |t|)]
  {
    RowsAfterCursor(t, c);
  }

  /** One batch of a scan, with the marker sets that it adds to. */
  lemma NextBatch(t: seq<Row>, start: nat, at: nat, size: nat, rows: seq<Row>)
    requires start <= at < |t| && size >= 1 && rows == t[at..Min(at + size, |t|)]
    ensures
      var e := at + |rows|;
      && start < e <= |t|
      && CommissionTxs(t[start..e]) == CommissionTxs(t[start..at]) + CommissionTxs(rows)
      && BusinessTxs(t[start..e]) == BusinessTxs(t[start..at]) + BusinessTxs(rows)
      && Visible(t, start, at, size) ==
         Filter(KeepWith(CommissionTxs(t[start..e]), BusinessTxs(t[start..e])), rows) + Visible(t, start, e, size)
  {
    hide CommissionTxs, BusinessTxs, Filter;
    assert t[start..at + |rows|] == t[start..at] + rows;
    MarkersConcat(t[start..at], rows);
  }

  /** The state of a scan that has read up to `at`: the marker sets, and the listed rows, which either
      still lack what is visible from `at` on or are already cut. */
  ghost predicate Scanned(t: seq<Row>, start: nat, at: nat, size: nat, stop: Option<nat>,
                          filtered: seq<Row>, commission: set<string>, business: set<string>)
    requires size >= 1
  {
    && start <= at <= |t|
    && commission == CommissionTxs(t[start..at])
    && business == BusinessTxs(t[start..at])
    && (if Within(filtered, stop) then filtered + Visible(t, start, at, size) == Visible(t, start, start, size)
        else filtered == Listed(Visible(t, start, start, size), stop))
  }

  lemma ScanStarts(t: seq<Row>, start: nat, size: nat, stop: Option<nat>)
    requires start <= |t| && size >= 1
    ensures Scanned(t, start, start, size, stop, [], {}, {})
  {
    hide Visible;
    assert t[start..start] == [];
    assert [] + Visible(t, start, start, size) == Visible(t, start, start, size);
  }

  /** A scan that has read everything lists what it should. */
  lemma ScanEnds(t: seq<Row>, start: nat, at: nat, size: nat, stop: Option<nat>,
                 filtered: seq<Row>, commission: set<string>, business: set<string>)
    requires size >= 1 && Scanned(t, start, at, size, stop, filtered, commission, business)
    requires at == |t| || !Within(filtered, stop)
    ensures filtered == Listed(Visible(t, start, start, size), stop)
    ensures Within(filtered, stop) <==> Within(Visible(t, start, start, size), stop)
  {
    if at == |t| {
      assert Visible(t, start, |t|, size) == [];
      assert filtered + [] == filtered;
    }
  }

  /** Notes the markers of a batch and lists its visible rows. */
  method AddBatch(ghost t: seq<Row>, ghost start: nat, ghost at: nat, ghost size: nat, rows: seq<Row>,
                  stop: Option<nat>, listed: seq<Row>, seenCommission: set<string>, seenBusiness: set<string>)
    returns (filtered: seq<Row>, commission: set<string>, business: set<string>)
    requires size >= 1 && Scanned(t, start, at, size, stop, listed, seenCommission, seenBusiness)
    requires Within(listed, stop) && at < |t| && rows == t[at..Min(at + size, |t|)]
    ensures at + |rows| <= |t|
    ensures Scanned(t, start, at + |rows|, size, stop, filtered, commission, business)
  {
    NextBatch(t, start, at, size, rows);
    hide CommissionTxs, BusinessTxs, Filter, Visible, Listed, Within;
    commission, business := NoteDedupMarkers(rows, seenCommission, seenBusiness);
    filtered := PushVisible(rows, commission, business, listed, stop);
    CutAndRest(listed, Filter(KeepWith(commission, business), rows), Visible(t, start, at + |rows|, size), stop);
  }

  /** Cutting the list now or after the rest is listed. */
  lemma CutAndRest(listed: seq<Row>, kept: seq<Row>, rest: seq<Row>, stop: Option<nat>)
    ensures
      var now := Listed(listed + kept, stop);
      if Within(now, stop) then now + rest == listed + (kept + rest)
      else now == Listed(listed + (kept + rest), stop)
  {
    assert listed + (kept + rest) == listed + kept + rest;
  }

  /** The offset scan: batches of 80 until a short batch, an early stop, or 2000 rows read. The bound
      of 50 rounds never ends it. */
  method FetchFilteredRows(t: seq<Row>, stop: Option<nat>) returns (filtered: seq<Row>, truncated: bool)
    requires IsLedger(t)
    ensures
      var visible := Visible(Window(t), 0, 0, BATCH_SIZE);
      && filtered == (if stop.None? || |visible| <= stop.value then visible else visible[..stop.value + 1])
      && (truncated <==> |t| >= 2000 && (stop.None? || |visible| <= stop.value))
  {
    hide IsLedger, Visible, Position, FindMany, Scanned, Listed, Within;
    ghost var w := Window(t);
    filtered, truncated := [], false;
    var commission, business: set<string> := {}, {};
    var cursor: Option<Cursor> := None;
    var rawScanned := 0;
    var guard := 0;
    PositionOfStart(t);
    ScanStarts(w, 0, BATCH_SIZE, stop);
    NothingListed(stop);
    while guard < 50
      invariant guard < 25 && rawScanned == guard * BATCH_SIZE
      invariant rawScanned <= |t| && Position(t, cursor) == rawScanned
      invariant Scanned(w, 0, rawScanned, BATCH_SIZE, stop, filtered, commission, business)
      invariant Within(filtered, stop) && !truncated
    {
      var rows := FindMany(t, cursor, BATCH_SIZE);
      BatchAt(t, cursor, BATCH_SIZE);
      ghost var at := rawScanned;
      rawScanned := rawScanned + |rows|;
      if |rows| == 0 {
        break;
      }
      BatchInWindow(t, at);
      filtered, commission, business :=
        AddBatch(w, 0, at, BATCH_SIZE, rows, stop, filtered, commission, business);
      cursor := Some(CursorOf(rows[|rows| - 1]));
      PositionOfRow(t, rawScanned - 1);
      if !Within(filtered, stop) {
        break;
      }
      if |rows| < BATCH_SIZE {
        break;
      }
      if rawScanned >= MAX_RAW_SCAN {
        truncated := true;
        break;
      }
      guard := guard + 1;
    }
    ScanEnds(w, 0, rawScanned, BATCH_SIZE, stop, filtered, commission, business);
    ListedExactly(Visible(w, 0, 0, BATCH_SIZE), stop);
  }

  lemma ListedExactly(visible: seq<Row>, stop: Option<nat>)
    ensures Within(visible, stop) <==> stop.None? || |visible| <= stop.value
    ensures Listed(visible, stop) == if stop.None? || |visible| <= stop.value then visible else visible[..stop.value + 1]
  {
  }

  lemma BatchInWindow(t: seq<Row>, at: nat)
    requires at <= |t| && at + BATCH_SIZE <= MAX_RAW_SCAN
    ensures
      var w := Window(t);
      at <= |w| && t[at..Min(at + BATCH_SIZE, |t|)] == w[at..Min(at + BATCH_SIZE, |w|)]
  {
  }

  lemma NothingListed(stop: Option<nat>)
    ensures Within([], stop)
  {
  }

  // ------------------------------------------------------------ offset pages

  datatype OffsetPage = OffsetPage(items: seq<Row>, total: nat, hasMore: bool, truncated: bool)

  /** The reply of the offset branch. */
  function OffsetReply(filtered: seq<Row>, truncated: bool, offset: nat, take: nat): OffsetPage {
    var items := if offset <= |filtered| then Take(filtered[offset..], take) else [];
    var seen := offset + |items| + if |items| == take then 1 else 0;
    var total := if truncated && seen > |filtered| then seen else |filtered|;
    OffsetPage(items, total, offset + |items| < |filtered| || truncated, truncated)
  }

  /** What a request at an offset answers. */
  function OffsetPageOf(t: seq<Row>, offset: nat, take: nat): OffsetPage {
    OffsetReply(Visible(Window(t), 0, 0, BATCH_SIZE), |t| >= MAX_RAW_SCAN, offset, take)
  }

  /** The offset branch: a scan without an early stop, and the page cut from it. */
  method OffsetBranch(t: seq<Row>, offset: nat, take: nat) returns (page: OffsetPage)
    requires IsLedger(t) && 1 <= take <= 50
    ensures page == OffsetPageOf(t, offset, take)
  {
    hide IsLedger, Visible;
    var filtered, truncated := FetchFilteredRows(t, None);
    var items := if offset <= |filtered| then Take(filtered[offset..], take) else [];
    var hasMore := offset + |items| < |filtered| || truncated;
    var seen := offset + |items| + if |items| == take then 1 else 0;
    var total := if truncated && seen > |filtered| then seen else |filtered|;
    page := OffsetPage(items, total, hasMore, truncated);
  }

  // ------------------------------------------------------------ cursor pages

  const PAGE_FETCHES := 10

  /** How many rows one fetch of a cursor page asks for. */
  function FetchSize(take: nat): nat {
    take + 25
  }

  /** The rows one cursor request from position `p` may read. */
  function PageWindow(t: seq<Row>, p: nat, take: nat): seq<Row> {
    Take(t, p + PAGE_FETCHES * FetchSize(take))
  }

  /** What a cursor request shows when it is not cut to `take` rows. Its marker sets start empty. */
  function PageVisible(t: seq<Row>, c: Cursor, take: nat): seq<Row> {
    var p := Position(t, Some(c));
    Visible(PageWindow(t, p, take), p, p, FetchSize(take))
  }

  function PageItems(t: seq<Row>, c: Cursor, take: nat): seq<Row> {
    Take(PageVisible(t, c, take), take)
  }

  /** The first position of an id; the number of rows if it is absent. */
  function IndexOfId(rows: seq<Row>, id: string): (i: nat)
    ensures i <= |rows|
    ensures i < |rows| ==> rows[i].id == id
    ensures forall j :: 0 <= j < i ==> rows[j].id != id
  {
    if rows == [] || rows[0].id == id then 0 else 1 + IndexOfId(rows[1..], id)
  }

  /** Where the next cursor request starts, if there is one. A full page without a visible row to spare
      goes on after ten full fetches, or when its last row is not the last row of a short tenth fetch. */
  function PageNext(t: seq<Row>, c: Cursor, take: nat): Option<Cursor>
    requires take >= 1
  {
    var p := Position(t, Some(c));
    var visible := PageVisible(t, c, take);
    if |visible| < take then None
    else
      var last := visible[take - 1];
      var tenth := p + (PAGE_FETCHES - 1) * FetchSize(take);
      if |visible| > take || |t| >= tenth + FetchSize(take) then Some(CursorOf(last))
      else if |t| <= tenth then None
      else if IndexOfId(t[tenth..], last.id) + 1 < |t| - tenth then Some(CursorOf(last))
      else None
  }

  /** Where the scan stands after a number of full fetches, or at the end of the table. */
  function FetchEnd(t: seq<Row>, p: nat, fetches: nat, size: nat): nat {
    Min(p + fetches * size, |t|)
  }

  lemma NextFetchEnd(t: seq<Row>, p: nat, fetches: nat, size: nat, take: nat)
    requires size == FetchSize(take) && fetches < PAGE_FETCHES && p <= |t|
    requires FetchEnd(t, p, fetches, size) < |t|
    ensures
      var w := PageWindow(t, p, take);
      var at := FetchEnd(t, p, fetches, size);
      && at == p + fetches * size && at < |w|
      && Min(at + size, |t|) == FetchEnd(t, p, fetches + 1, size) == Min(at + size, |w|)
      && w[at..Min(at + size, |w|)] == t[at..Min(at + size, |t|)]
  {
    assert size > 0;
    hide FetchSize;
    OneMoreFetch(fetches, size);
  }

  lemma OneMoreFetch(fetches: nat, size: nat)
    requires fetches < PAGE_FETCHES
    ensures (fetches + 1) * size == fetches * size + size <= PAGE_FETCHES * size
  {
    if fetches + 1 < PAGE_FETCHES {
      assert (fetches + 1) * size <= PAGE_FETCHES * size;
    }
  }

  /** The last fetch that returned rows, and whether it was full. */
  ghost predicate LastFetch(t: seq<Row>, p: nat, fetches: nat, size: nat, rows: seq<Row>, full: bool) {
    && fetches > 0
    && p + (fetches - 1) * size < |t|
    && rows == t[p + (fetches - 1) * size..Min(p + (fetches - 1) * size + size, |t|)]
    && full == (|rows| >= size)
  }

  lemma IsLastFetch(t: seq<Row>, p: nat, fetches: nat, size: nat, rows: seq<Row>)
    requires fetches > 0 && rows != []
    requires FetchEnd(t, p, fetches - 1, size) == p + (fetches - 1) * size
    requires
      var at := FetchEnd(t, p, fetches - 1, size);
      rows == t[at..Min(at + size, |t|)]
    ensures LastFetch(t, p, fetches, size, rows, |rows| >= size)
  {
  }

  /** The fetching loop of a cursor page. `fetches` counts the fetches that returned rows. */
  method PageScan(t: seq<Row>, decoded: Cursor, take: nat)
    returns (filtered: seq<Row>, hasMore: bool, lastFetched: seq<Row>, fetches: nat,
             commission: set<string>, business: set<string>)
    requires IsLedger(t) && 1 <= take <= 50
    ensures
      var p := Position(t, Some(decoded));
      var size := FetchSize(take);
      var w := PageWindow(t, p, take);
      && fetches <= PAGE_FETCHES
      && Scanned(w, p, FetchEnd(t, p, fetches, size), size, Some(take), filtered, commission, business)
      && (|filtered| <= take ==>
            if fetches < PAGE_FETCHES then
              |t| == FetchEnd(t, p, fetches, size) && !hasMore && lastFetched == []
            else LastFetch(t, p, fetches, size, lastFetched, hasMore))
  {
    hide LastFetch, IsLedger, Visible, Position, FindMany, FetchEnd, FetchSize, PageWindow, Scanned;
    ghost var p := Position(t, Some(decoded));
    var size := FetchSize(take);
    ghost var w := PageWindow(t, p, take);
    filtered, hasMore, lastFetched, fetches, commission, business := [], false, [], 0, {}, {};
    var cursor := Some(decoded);
    FirstFetch(t, p, take);
    ScanStarts(w, p, size, Some(take));
    while fetches < PAGE_FETCHES && |filtered| <= take
      invariant fetches <= PAGE_FETCHES
      invariant Position(t, cursor) == FetchEnd(t, p, fetches, size)
      invariant Scanned(w, p, FetchEnd(t, p, fetches, size), size, Some(take), filtered, commission, business)
      invariant fetches > 0 ==> LastFetch(t, p, fetches, size, lastFetched, hasMore)
      decreases PAGE_FETCHES - fetches
    {
      var rows := FindMany(t, cursor, size);
      ghost var at := FetchEnd(t, p, fetches, size);
      BatchAt(t, cursor, size);
      lastFetched := rows;
      if |rows| == 0 {
        hasMore := false;
        break;
      }
      NextFetchEnd(t, p, fetches, size, take);
      filtered, commission, business :=
        AddBatch(w, p, at, size, rows, Some(take), filtered, commission, business);
      cursor := Some(CursorOf(rows[|rows| - 1]));
      PositionOfRow(t, at + |rows| - 1);
      hasMore := |rows| >= size;
      fetches := fetches + 1;
      IsLastFetch(t, p, fetches, size, rows);
    }
  }

  lemma FirstFetch(t: seq<Row>, p: nat, take: nat)
    requires p <= |t|
    ensures FetchSize(take) >= 1
    ensures FetchEnd(t, p, 0, FetchSize(take)) == p <= |PageWindow(t, p, take)| <= |t|
    ensures Within([], Some(take))
  {
  }

  lemma WindowEnd(t: seq<Row>, p: nat, take: nat, fetches: nat)
    requires p <= |t| && fetches <= PAGE_FETCHES
    ensures fetches == PAGE_FETCHES ==> FetchEnd(t, p, fetches, FetchSize(take)) == |PageWindow(t, p, take)|
    ensures fetches < PAGE_FETCHES && |t| == FetchEnd(t, p, fetches, FetchSize(take)) ==>
              |t| <= p + (PAGE_FETCHES - 1) * FetchSize(take) && |t| == |PageWindow(t, p, take)|
  {
    if fetches < PAGE_FETCHES {
      assert fetches * FetchSize(take) <= (PAGE_FETCHES - 1) * FetchSize(take);
    }
  }

  lemma ScanReach(t: seq<Row>, start: nat, at: nat, size: nat, stop: Option<nat>,
                  filtered: seq<Row>, commission: set<string>, business: set<string>)
    requires size >= 1 && Scanned(t, start, at, size, stop, filtered, commission, business)
    ensures start <= at <= |t|
  {
  }

  lemma ListedIsTake(visible: seq<Row>, take: nat)
    ensures Listed(visible, Some(take)) == Take(visible, take + 1)
  {
  }

  /** What the fetching loop lists: the visible rows of the window, cut after `take + 1`. */
  lemma PageScanned(t: seq<Row>, c: Cursor, take: nat, fetches: nat,
                    filtered: seq<Row>, commission: set<string>, business: set<string>)
    requires fetches <= PAGE_FETCHES
    requires
      var p := Position(t, Some(c));
      Scanned(PageWindow(t, p, take), p, FetchEnd(t, p, fetches, FetchSize(take)), FetchSize(take), Some(take),
              filtered, commission, business)
    requires |filtered| <= take && fetches < PAGE_FETCHES ==>
               |t| == FetchEnd(t, Position(t, Some(c)), fetches, FetchSize(take))
    ensures filtered == Take(PageVisible(t, c, take), take + 1)
    ensures |filtered| <= take && fetches < PAGE_FETCHES ==>
              |t| <= Position(t, Some(c)) + (PAGE_FETCHES - 1) * FetchSize(take)
  {
    var p := Position(t, Some(c));
    var size := FetchSize(take);
    hide Visible, Position, Scanned, Listed, PageWindow;
    FirstFetch(t, p, take);
    WindowEnd(t, p, take, fetches);
    hide FetchEnd, FetchSize;
    ScanReach(PageWindow(t, p, take), p, FetchEnd(t, p, fetches, size), size, Some(take), filtered, commission, business);
    ListedIsTake(PageVisible(t, c, take), take);
    ScanEnds(PageWindow(t, p, take), p, FetchEnd(t, p, fetches, size), size, Some(take), filtered, commission, business);
  }

  lemma TenthFetch(t: seq<Row>, p: nat, size: nat, rows: seq<Row>, full: bool)
    requires LastFetch(t, p, PAGE_FETCHES, size, rows, full)
    ensures
      var tenth := p + (PAGE_FETCHES - 1) * size;
      tenth < |t| && (full <==> |t| >= tenth + size) && (!full ==> rows == t[tenth..])
  {
  }

  /** Whether rows of the last fetch come after the last item of a full page. */
  predicate RowsLeft(items: seq<Row>, take: nat, lastFetched: seq<Row>)
    requires take >= 1
  {
    |items| == take && IndexOfId(lastFetched, items[take - 1].id) + 1 < |lastFetched|
  }

  /** What the loop knows at its end decides where the next page starts. */
  lemma NextDecided(t: seq<Row>, c: Cursor, take: nat, filtered: seq<Row>, hasMore: bool, lastFetched: seq<Row>,
                    fetches: nat)
    requires take >= 1 && filtered == Take(PageVisible(t, c, take), take + 1)
    requires |filtered| == take ==>
               var p := Position(t, Some(c));
               if fetches < PAGE_FETCHES then
                 |t| <= p + (PAGE_FETCHES - 1) * FetchSize(take) && !hasMore && lastFetched == []
               else LastFetch(t, p, PAGE_FETCHES, FetchSize(take), lastFetched, hasMore)
    ensures
      var items := Take(filtered, take);
      PageNext(t, c, take) ==
      if |items| == take && (|filtered| > take || hasMore || RowsLeft(items, take, lastFetched))
      then Some(CursorOf(items[take - 1])) else None
  {
    assert FetchSize(take) > 0;
    hide PageVisible, Position, LastFetch, FetchSize, CursorOf, IndexOfId;
    var items, visible := Take(filtered, take), PageVisible(t, c, take);
    assert |filtered| >= take ==> |visible| >= take && items[take - 1] == visible[take - 1];
    if |filtered| == take && fetches >= PAGE_FETCHES {
      TenthFetch(t, Position(t, Some(c)), FetchSize(take), lastFetched, hasMore);
    }
  }

  /** The cursor branch: at most ten fetches, until more than `take` rows are visible or none is left. */
  method CursorPage(t: seq<Row>, decoded: Cursor, take: nat) returns (items: seq<Row>, nextCursor: Option<Cursor>)
    requires IsLedger(t) && 1 <= take <= 50
    ensures items == PageItems(t, decoded, take)
    ensures nextCursor == PageNext(t, decoded, take)
  {
    hide PageVisible, Position, IsLedger, Scanned, PageWindow, LastFetch, FetchSize, FetchEnd, PageNext;
    var filtered, hasMore, lastFetched, fetches, commission, business := PageScan(t, decoded, take);
    PageScanned(t, decoded, take, fetches, filtered, commission, business);
    NextDecided(t, decoded, take, filtered, hasMore, lastFetched, fetches);
    items := Take(filtered, take);
    var hasRemainder := false;
    if |items| == take {
      var lastIdx := IndexOfId(lastFetched, items[take - 1].id);
      hasRemainder := lastIdx < |lastFetched| && lastIdx + 1 < |lastFetched|;
    }
    var hasNextPage := |items| == take && (|filtered| > take || hasMore || hasRemainder);
    nextCursor := if hasNextPage then Some(CursorOf(items[take - 1])) else None;
  }
}
