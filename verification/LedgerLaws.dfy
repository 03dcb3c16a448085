/** Laws of the ledger listing: what batched de-duplication may show and hide, that it never erases a
    transaction, and that offset pages and cursor walks lose and repeat nothing. */
module LedgerLaws {
  import opened Options
  import opened Seqs
  import opened StringOrder
  import opened Texts
  import opened WalletLedger

  // ------------------------------------------------------------ hiding, marker by marker

  /** A transfer between the user's own collateral contracts: hidden whatever else is known. */
  predicate InternalTransfer(r: Row) {
    && r.rail == ONCHAIN_USDC && r.direction == CREDIT
    && (r.category == POLYMARKET_FUNDER_CHAIN_DEPOSIT || r.category == POLYMARKET_REDEEM)
    && IsInternalSender(FromAddress(r))
  }

  /** `r` repeats the transaction of the marker row `m`. */
  predicate DuplicateOf(r: Row, m: Row) {
    && r.rail == ONCHAIN_USDC && r.direction == CREDIT
    && TxHash(r).Some? && TxHash(r) == TxHash(m)
    && ((r.category == CHAIN_DEPOSIT && (MarksCommission(m) || MarksBusiness(m))) ||
        ((r.category == POLYMARKET_FUNDER_CHAIN_DEPOSIT || r.category == POLYMARKET_REDEEM) && MarksBusiness(m)))
  }

  ghost predicate DuplicatesAmong(r: Row, seen: seq<Row>) {
    exists m :: m in seen && DuplicateOf(r, m)
  }

  predicate Hides(seen: seq<Row>, r: Row) {
    !KeepSeeing(seen)(r)
  }

  /** A row is hidden exactly when it is an internal transfer or duplicates a marker row seen so far. */
  lemma HiddenExactly(seen: seq<Row>, r: Row)
    ensures Hides(seen, r) <==> InternalTransfer(r) || DuplicatesAmong(r, seen)
  {
    hide NotBlank, IsInternalSender, FromAddress;
    if Hides(seen, r) && !InternalTransfer(r) {
      var tx := TxHash(r).value;
      if tx in BusinessTxs(seen) {
        var m :| m in seen && MarksBusiness(m) && TxHash(m).value == tx;
        assert DuplicateOf(r, m);
      } else {
        var m :| m in seen && MarksCommission(m) && TxHash(m).value == tx;
        assert DuplicateOf(r, m);
      }
    }
    if m :| m in seen && DuplicateOf(r, m) {
      assert MarksBusiness(m) ==> TxHash(m).value in BusinessTxs(seen);
      assert MarksCommission(m) ==> TxHash(m).value in CommissionTxs(seen);
    }
  }

  /** Knowing more markers never shows a row again. */
  lemma HidingIsMonotone(seen: seq<Row>, more: seq<Row>, r: Row)
    requires forall m :: m in seen ==> m in more
    ensures Hides(seen, r) ==> Hides(more, r)
  {
    HiddenExactly(seen, r);
    HiddenExactly(more, r);
  }

  /** Marker rows are never hidden, whatever is known. */
  lemma MarkersAreNeverHidden(seen: seq<Row>, r: Row)
    requires MarksCommission(r) || MarksBusiness(r)
    ensures !Hides(seen, r)
  {
    hide NotBlank, IsInternalSender, FromAddress;
  }

  // ------------------------------------------------------------ what a batched scan shows

  /** The end of the batch that holds index `i` in a scan from `at`. */
  function BatchEnd(n: nat, at: nat, size: nat, i: nat): (e: nat)
    requires at <= i < n && size >= 1
    ensures i < e <= n
    decreases i - at
  {
    if i < at + size then Min(at + size, n) else BatchEnd(n, at + size, size, i)
  }

  /** A row is shown exactly when the markers from the start of the scan to the end of its own batch do
      not hide it. */
  lemma {:induction false} ShownExactly(t: seq<Row>, start: nat, at: nat, size: nat, i: nat)
    requires IsLedger(t) && start <= at <= i < |t| && size >= 1
    ensures t[i] in Visible(t, start, at, size) <==> !Hides(t[start..BatchEnd(|t|, at, size, i)], t[i])
    decreases |t| - at
  {
    var e := Min(at + size, |t|);
    var keep := KeepSeeing(t[start..e]);
    FilterMembers(keep, t[at..e]);
    ShownComeFromRest(t, start, e, size);
    hide Filter, KeepSeeing;
    if i < e {
      assert t[at..e][i - at] == t[i];
      assert t[i] !in Visible(t, start, e, size);
    } else {
      assert t[i] !in t[at..e];
      ShownExactly(t, start, e, size, i);
    }
  }

  lemma {:induction false} ShownComeFromRest(t: seq<Row>, start: nat, at: nat, size: nat)
    requires start <= at <= |t| && size >= 1
    ensures forall r :: r in Visible(t, start, at, size) ==> r in t[at..]
    decreases |t| - at
  {
    if at < |t| {
      var e := Min(at + size, |t|);
      ShownComeFromRest(t, start, e, size);
      FilterMembers(KeepSeeing(t[start..e]), t[at..e]);
      assert t[at..] == t[at..e] + t[e..];
    }
  }

  // ------------------------------------------------------------ order and completeness of a scan

  lemma SliceIsLedger(t: seq<Row>, a: nat, b: nat)
    requires IsLedger(t) && a <= b <= |t|
    ensures IsLedger(t[a..b])
  {
    forall i, j | 0 <= i < j < b - a ensures Precedes(t[a..b][i], t[a..b][j]) && t[a..b][i].id != t[a..b][j].id {
      assert t[a..b][i] == t[a + i] && t[a..b][j] == t[a + j];
    }
  }

  lemma {:induction false} FilterIsLedger(t: seq<Row>, keep: Row -> bool)
    requires IsLedger(t)
    ensures IsLedger(Filter(keep, t))
  {
    if t != [] {
      SliceIsLedger(t, 1, |t|);
      FilterIsLedger(t[1..], keep);
      FilterMembers(keep, t[1..]);
      var rest := Filter(keep, t[1..]);
      if keep(t[0]) {
        ConsIsLedger(t, rest);
      }
    }
  }

  lemma ConsIsLedger(t: seq<Row>, rest: seq<Row>)
    requires IsLedger(t) && t != [] && IsLedger(rest) && forall r :: r in rest ==> r in t[1..]
    ensures IsLedger([t[0]] + rest)
  {
    var all := [t[0]] + rest;
    forall i, j | 0 <= i < j < |all| ensures Precedes(all[i], all[j]) && all[i].id != all[j].id {
      assert all[j] == rest[j - 1];
      if i == 0 {
        assert rest[j - 1] in rest && rest[j - 1] in t[1..];
        var k :| 0 <= k < |t[1..]| && t[1..][k] == rest[j - 1];
        assert t[k + 1] == rest[j - 1];
      } else {
        assert all[i] == rest[i - 1];
      }
    }
  }

  lemma ConcatIsLedger(t: seq<Row>, e: nat, a: seq<Row>, b: seq<Row>)
    requires IsLedger(t) && e <= |t| && IsLedger(a) && IsLedger(b)
    requires (forall r :: r in a ==> r in t[..e]) && (forall r :: r in b ==> r in t[e..])
    ensures IsLedger(a + b)
  {
    var all := a + b;
    forall i, j | 0 <= i < j < |all| ensures Precedes(all[i], all[j]) && all[i].id != all[j].id {
      if i < |a| <= j {
        assert a[i] in t[..e] && b[j - |a|] in t[e..];
        var x :| 0 <= x < e && t[..e][x] == a[i];
        var y :| 0 <= y < |t| - e && t[e..][y] == b[j - |a|];
        assert t[x] == a[i] && t[e + y] == b[j - |a|];
      }
    }
  }

  /** A scan lists its rows in listing order, each at most once. */
  lemma {:induction false} ShownInOrder(t: seq<Row>, start: nat, at: nat, size: nat)
    requires IsLedger(t) && start <= at <= |t| && size >= 1
    ensures IsLedger(Visible(t, start, at, size))
    decreases |t| - at
  {
    if at < |t| {
      var e := Min(at + size, |t|);
      var keep := KeepSeeing(t[start..e]);
      ShownInOrder(t, start, e, size);
      SliceIsLedger(t, at, e);
      FilterIsLedger(t[at..e], keep);
      FilterMembers(keep, t[at..e]);
      ShownComeFromRest(t, start, e, size);
      hide IsLedger, Filter, KeepSeeing;
      forall r | r in t[at..e] ensures r in t[..e] {
        var k :| 0 <= k < e - at && t[at..e][k] == r;
        assert t[..e][at + k] == r;
      }
      ConcatIsLedger(t, e, Filter(keep, t[at..e]), Visible(t, start, e, size));
    }
  }

  /** What the filter that knows every marker of the table lists. */
  function OneShot(t: seq<Row>): seq<Row> {
    Filter(KeepSeeing(t), t)
  }

  /** Batching only ever shows more: every row the all-markers filter lists is shown. */
  lemma BatchingShowsAllKept(t: seq<Row>, start: nat, size: nat, i: nat)
    requires IsLedger(t) && start <= i < |t| && size >= 1
    ensures t[i] in OneShot(t) ==> t[i] in Visible(t, start, start, size)
  {
    var seen := t[start..BatchEnd(|t|, start, size, i)];
    ShownExactly(t, start, start, size, i);
    HidingIsMonotone(seen, t, t[i]);
    FilterMembers(KeepSeeing(t), t);
  }

  lemma {:induction false} SameMembersSameList(a: seq<Row>, b: seq<Row>)
    requires IsLedger(a) && IsLedger(b) && forall r :: r in a <==> r in b
    ensures a == b
  {
    EmptyTogether(a, b);
    if a != [] {
      FirstIsFirst(a, b);
      SliceIsLedger(a, 1, |a|);
      SliceIsLedger(b, 1, |b|);
      forall r ensures r in a[1..] <==> r in b[1..] {
        InTail(a, r);
        InTail(b, r);
      }
      SameMembersSameList(a[1..], b[1..]);
    }
  }

  lemma EmptyTogether(a: seq<Row>, b: seq<Row>)
    requires forall r :: r in a <==> r in b
    ensures a == [] <==> b == []
  {
    if a != [] {
      assert a[0] in b;
    }
    if b != [] {
      assert b[0] in a;
    }
  }

  lemma InTail(a: seq<Row>, r: Row)
    requires IsLedger(a) && a != []
    ensures r in a[1..] <==> r in a && r != a[0]
  {
    if r in a[1..] {
      var k :| 0 <= k < |a| - 1 && a[1..][k] == r;
      assert a[k + 1] == r;
    }
    if r in a && r != a[0] {
      var k :| 0 <= k < |a| && a[k] == r;
      assert a[1..][k - 1] == r;
    }
  }

  lemma FirstIsFirst(a: seq<Row>, b: seq<Row>)
    requires IsLedger(a) && IsLedger(b) && a != [] && b != [] && forall r :: r in a <==> r in b
    ensures a[0] == b[0]
  {
    assert a[0] in b && b[0] in a;
    var x :| 0 <= x < |b| && b[x] == a[0];
    var y :| 0 <= y < |a| && a[y] == b[0];
    HeadPrecedes(b, x);
    HeadPrecedes(a, y);
    PrecedesAsymmetric(a[0], b[0]);
  }

  lemma HeadPrecedes(t: seq<Row>, i: nat)
    requires IsLedger(t) && i < |t|
    ensures t[i] == t[0] || Precedes(t[0], t[i])
  {
    if i > 0 {
      assert Precedes(t[0], t[i]);
    }
  }

  lemma PrecedesAsymmetric(a: Row, b: Row)
    ensures !(Precedes(a, b) && Precedes(b, a))
  {
    BeforeIsStrictTotalOrder();
  }

  /** The batched scan lists exactly what the all-markers filter lists if and only if every duplicate of
      a marker row has a marker of its transaction in its own or an earlier batch. */
  lemma BatchedEqualsOneShotExactly(t: seq<Row>, size: nat)
    requires IsLedger(t) && size >= 1
    ensures
      Visible(t, 0, 0, size) == OneShot(t) <==>
      forall i :: 0 <= i < |t| && DuplicatesAmong(t[i], t) ==>
        InternalTransfer(t[i]) || DuplicatesAmong(t[i], t[0..BatchEnd(|t|, 0, size, i)])
  {
    var shown, oneShot := Visible(t, 0, 0, size), OneShot(t);
    forall i | 0 <= i < |t|
      ensures (t[i] in shown <==> t[i] in oneShot) <==>
              (DuplicatesAmong(t[i], t) ==>
                 InternalTransfer(t[i]) || DuplicatesAmong(t[i], t[0..BatchEnd(|t|, 0, size, i)]))
    {
      ShownExactly(t, 0, 0, size, i);
      HiddenExactly(t[0..BatchEnd(|t|, 0, size, i)], t[i]);
      HiddenExactly(t, t[i]);
      HidingIsMonotone(t[0..BatchEnd(|t|, 0, size, i)], t, t[i]);
      FilterMembers(KeepSeeing(t), t);
    }
    ShownInOrder(t, 0, 0, size);
    FilterIsLedger(t, KeepSeeing(t));
    ShownComeFromRest(t, 0, 0, size);
    FilterMembers(KeepSeeing(t), t);
    hide Visible, Filter, IsLedger, KeepSeeing, DuplicatesAmong, InternalTransfer, BatchEnd;
    if forall i :: 0 <= i < |t| ==> (t[i] in shown <==> t[i] in oneShot) {
      forall r ensures r in shown <==> r in oneShot {
        if r in t {
          var i :| 0 <= i < |t| && t[i] == r;
          assert t[i] in shown <==> t[i] in oneShot;
        } else {
          assert t[0..] == t;
        }
      }
      SameMembersSameList(shown, oneShot);
    }
  }

  /** De-duplication never erases a transaction: a row the offset scan reads and does not list is an
      internal transfer, or a listed row carries the same transaction. */
  lemma NoTransactionIsErased(t: seq<Row>, i: nat)
    requires IsLedger(t) && i < |Window(t)|
    ensures
      var shown := Visible(Window(t), 0, 0, BATCH_SIZE);
      t[i] !in shown ==> InternalTransfer(t[i]) || exists m :: m in shown && TxHash(m) == TxHash(t[i])
  {
    var w := Window(t);
    SliceIsLedger(t, 0, |w|);
    assert w == t[0..|w|] && w[i] == t[i];
    var seen := w[0..BatchEnd(|w|, 0, BATCH_SIZE, i)];
    ShownExactly(w, 0, 0, BATCH_SIZE, i);
    HiddenExactly(seen, w[i]);
    hide Visible, InternalTransfer, IsLedger, BatchEnd, Hides;
    if t[i] !in Visible(w, 0, 0, BATCH_SIZE) && !InternalTransfer(t[i]) {
      var m :| m in seen && DuplicateOf(t[i], m);
      MarkerIsShown(w, m);
    }
  }

  lemma MarkerIsShown(w: seq<Row>, m: Row)
    requires IsLedger(w) && m in w && (MarksCommission(m) || MarksBusiness(m))
    ensures m in Visible(w, 0, 0, BATCH_SIZE)
  {
    var k :| 0 <= k < |w| && w[k] == m;
    ShownExactly(w, 0, 0, BATCH_SIZE, k);
    MarkersAreNeverHidden(w[0..BatchEnd(|w|, 0, BATCH_SIZE, k)], m);
  }

  /** A request for one category filters the business rows out of the table, so it hides internal
      transfers and nothing else: de-duplication is off. */
  lemma CategoryRequestHidesOnlyInternal(all: seq<Row>, rail: Option<Rail>, category: Category, i: nat)
    requires IsLedger(all) && InDepositScope(category)
    requires i < |Window(Filter(BaseBy(rail, Some(category)), all))|
    ensures
      var w := Window(Filter(BaseBy(rail, Some(category)), all));
      w[i] in Visible(w, 0, 0, BATCH_SIZE) <==> !InternalTransfer(w[i])
  {
    var base := BaseBy(rail, Some(category));
    var t := Filter(base, all);
    var w := Window(t);
    FilterIsLedger(all, base);
    FilterMembers(base, all);
    SliceIsLedger(t, 0, |w|);
    assert w == t[0..|w|];
    hide Visible, InternalTransfer, IsLedger, Filter, DuplicateOf, MatchesBase;
    forall r, m | r in w && m in w ensures !DuplicateOf(r, m) {
      assert r in t && m in t && base(r) && base(m);
      SameCategoryIsNoDuplicate(r, m, rail, category);
    }
    NoDuplicatesShown(w, i);
  }

  lemma SameCategoryIsNoDuplicate(r: Row, m: Row, rail: Option<Rail>, category: Category)
    requires MatchesBase(r, rail, Some(category)) && MatchesBase(m, rail, Some(category))
    ensures !DuplicateOf(r, m)
  {
    hide TxHash;
  }

  lemma NoDuplicatesShown(w: seq<Row>, i: nat)
    requires IsLedger(w) && i < |w|
    requires forall r, m :: r in w && m in w ==> !DuplicateOf(r, m)
    ensures w[i] in Visible(w, 0, 0, BATCH_SIZE) <==> !InternalTransfer(w[i])
  {
    var seen := w[0..BatchEnd(|w|, 0, BATCH_SIZE, i)];
    ShownExactly(w, 0, 0, BATCH_SIZE, i);
    HiddenExactly(seen, w[i]);
    hide Visible, InternalTransfer, IsLedger, BatchEnd, Hides, DuplicateOf;
    forall m | m in seen ensures m in w {
    }
  }
}
