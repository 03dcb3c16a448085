/** The rank flush is a true ranking of the pool. */
module RankFlush {
  import opened Options
  import opened Seqs
  import opened PipelineRules

  predicate StrictlyHigher(a: Entry, b: Entry) {
    a.score > b.score || (a.score == b.score && a.index <= b.index)
  }

  ghost predicate IncreasingIndices(s: seq<Entry>) {
    forall p, q :: 0 <= p < q < |s| ==> s[p].index < s[q].index
  }

  /** The entries are the board rows, in row order. */
  lemma EntriesAreBoardRows(rows: seq<Row>, from: nat)
    requires from <= |rows|
    ensures forall e :: e in Entries(rows, from) <==>
              from <= e.index < |rows| && OnBoard(rows[e.index]) && rows[e.index].score == Some(e.score)
    ensures IncreasingIndices(Entries(rows, from))
  {
    hide Entries, OnBoard, IncreasingIndices;
    forall e ensures e in Entries(rows, from) <==>
                       from <= e.index < |rows| && OnBoard(rows[e.index]) && rows[e.index].score == Some(e.score) {
      EntryIsBoardRow(rows, from, e);
    }
    EntriesIncrease(rows, from);
  }

  lemma {:induction false} EntryIsBoardRow(rows: seq<Row>, from: nat, e: Entry)
    requires from <= |rows|
    ensures e in Entries(rows, from) <==>
              from <= e.index < |rows| && OnBoard(rows[e.index]) && rows[e.index].score == Some(e.score)
    decreases |rows| - from
  {
    if from < |rows| {
      EntryIsBoardRow(rows, from + 1, e);
    }
  }

  lemma {:induction false} EntriesIncrease(rows: seq<Row>, from: nat)
    requires from <= |rows|
    ensures IncreasingIndices(Entries(rows, from))
    decreases |rows| - from
  {
    if from < |rows| {
      EntriesIncrease(rows, from + 1);
      if OnBoard(rows[from]) {
        var first, rest := Entry(from, rows[from].score.value), Entries(rows, from + 1);
        assert Entries(rows, from) == [first] + rest;
        hide Entries, IncreasingIndices, OnBoard;
        forall e | e in rest ensures first.index < e.index {
          EntryIsBoardRow(rows, from + 1, e);
        }
        ConsIncreases(first, rest);
      }
    }
  }

  lemma ConsIncreases(first: Entry, rest: seq<Entry>)
    requires IncreasingIndices(rest) && forall e :: e in rest ==> first.index < e.index
    ensures IncreasingIndices([first] + rest)
  {
    var all := [first] + rest;
    forall p, q | 0 <= p < q < |all| ensures all[p].index < all[q].index {
      assert all[q] == rest[q - 1] && rest[q - 1] in rest;
      assert p > 0 ==> all[p] == rest[p - 1];
    }
  }

  /** A stable sort by score is the sort that breaks ties by row order. */
  lemma {:induction false} TiesKeepRowOrder(s: seq<Entry>)
    requires IncreasingIndices(s)
    ensures Sort(HigherFirst, s) == Sort(StrictlyHigher, s)
  {
    if s != [] {
      var rest := s[1..];
      assert forall p :: 0 <= p < |rest| ==> rest[p] == s[p + 1];
      TiesKeepRowOrder(rest);
      SortMembers(HigherFirst, rest);
      InsertAgrees(s[0], Sort(HigherFirst, rest));
    }
  }

  lemma {:induction false} InsertAgrees(x: Entry, s: seq<Entry>)
    requires forall y :: y in s ==> x.index < y.index
    ensures Insert(HigherFirst, x, s) == Insert(StrictlyHigher, x, s)
  {
    if s != [] {
      InsertAgrees(x, s[1..]);
    }
  }

  ghost predicate DistinctIndices(board: seq<Entry>) {
    forall p, q :: 0 <= p < q < |board| ==> board[p].index != board[q].index
  }

  function IndexOfEntry(e: Entry): nat {
    e.index
  }

  /** The board: exactly the board rows, each once, best score first and row order among equals. */
  lemma BoardIsSorted(rows: seq<Row>)
    ensures forall e :: e in Board(rows) <==>
              0 <= e.index < |rows| && OnBoard(rows[e.index]) && rows[e.index].score == Some(e.score)
    ensures Sorted(StrictlyHigher, Board(rows)) && DistinctIndices(Board(rows))
  {
    hide Entries, OnBoard, Sort, StrictlyHigher, DistinctIndices;
    var entries := Entries(rows, 0);
    EntriesAreBoardRows(rows, 0);
    TiesKeepRowOrder(entries);
    SortMembers(HigherFirst, entries);
    StrictlyHigherIsTotal();
    SortSorted(StrictlyHigher, entries);
    BoardIsDistinct(entries, Board(rows));
  }

  lemma StrictlyHigherIsTotal()
    ensures TotalPreorder(StrictlyHigher)
  {
  }

  lemma BoardIsDistinct(entries: seq<Entry>, board: seq<Entry>)
    requires IncreasingIndices(entries) && multiset(board) == multiset(entries)
    ensures DistinctIndices(board)
  {
    hide Map;
    assert Distinct(Map(IndexOfEntry, entries));
    MapPermutation(IndexOfEntry, entries, board);
    DistinctPermutation(Map(IndexOfEntry, entries), Map(IndexOfEntry, board));
    forall p, q | 0 <= p < q < |board| ensures board[p].index != board[q].index {
      assert Map(IndexOfEntry, board)[p] != Map(IndexOfEntry, board)[q];
    }
  }

  lemma {:induction false} PlaceOfIsPosition(board: seq<Entry>, index: nat)
    ensures PlaceOf(board, index).None? <==> forall p :: 0 <= p < |board| ==> board[p].index != index
    ensures PlaceOf(board, index).Some? ==>
              PlaceOf(board, index).value < |board| && board[PlaceOf(board, index).value].index == index
  {
    if board != [] {
      PlaceOfIsPosition(board[1..], index);
      assert forall p :: 0 < p < |board| ==> board[p] == board[1..][p - 1];
      assert forall p :: 0 <= p < |board[1..]| ==> board[1..][p] == board[p + 1];
    }
  }

  /** The number of rows that the flush keeps on the board. */
  function BoardSize(rows: seq<Row>): nat {
    |Filter(OnBoard, rows)|
  }

  lemma {:induction false} EntryCount(rows: seq<Row>, from: nat)
    requires from <= |rows|
    ensures |Entries(rows, from)| == |Filter(OnBoard, rows[from..])|
    decreases |rows| - from
  {
    if from < |rows| {
      EntryCount(rows, from + 1);
      assert rows[from..][0] == rows[from] && rows[from..][1..] == rows[from + 1..];
    } else {
      assert rows[from..] == [];
    }
  }

  lemma BoardLength(rows: seq<Row>)
    ensures |Board(Map(PurgedRow, rows))| == BoardSize(rows)
  {
    EntryCount(Map(PurgedRow, rows), 0);
    assert Map(PurgedRow, rows)[0..] == Map(PurgedRow, rows);
    MapFilter(PurgedRow, OnBoard, OnBoard, rows);
  }

  /** What a rank says after a flush: the row's place on the board. */
  lemma RankIsPlace(rows: seq<Row>, i: nat)
    requires i < |rows|
    ensures
      var board := Board(Map(PurgedRow, rows));
      var r := FlushRows(rows)[i];
      && (r.rank.Some? <==> OnBoard(rows[i]))
      && (r.rank.Some? ==> 1 <= r.rank.value <= |board| && board[r.rank.value - 1].index == i)
      && r == PurgedRow(rows[i]).(rank := r.rank)
  {
    var purged := Map(PurgedRow, rows);
    var board := Board(purged);
    BoardIsSorted(purged);
    PlaceOfIsPosition(board, i);
    hide Board, PlaceOf, Map;
    assert OnBoard(purged[i]) <==> OnBoard(rows[i]);
    if OnBoard(rows[i]) {
      assert Entry(i, rows[i].score.value) in board;
    }
    if p :| 0 <= p < |board| && board[p].index == i {
      assert board[p] in board;
    }
  }

  /** A higher score, or an equal score on an earlier row. */
  predicate ScoresBefore(rows: seq<Row>, i: nat, j: nat)
    requires i < |rows| && j < |rows| && OnBoard(rows[i]) && OnBoard(rows[j])
  {
    rows[i].score.value > rows[j].score.value || (rows[i].score.value == rows[j].score.value && i < j)
  }

  /** Some row has this rank. */
  ghost predicate Holds(rows: seq<Row>, rank: int) {
    exists i :: 0 <= i < |rows| && rows[i].rank == Some(rank)
  }

  /** After a flush the pool is exactly the ranked rows, all above the exit line; the ranks are
      exactly 1 to the size of the board, and a smaller rank means a higher score, or an equal score
      and an earlier row. */
  lemma FlushIsTrueRanking(rows: seq<Row>)
    ensures
      var after := FlushRows(rows);
      && (forall i :: 0 <= i < |rows| ==>
            && (after[i].inCopyPool <==> after[i].rank.Some?)
            && (after[i].inCopyPool ==> after[i].score.Some? && after[i].score.value > EXIT)
            && (after[i].rank.Some? ==> 1 <= after[i].rank.value <= BoardSize(rows)))
      && (forall p :: 1 <= p <= BoardSize(rows) ==> Holds(after, p))
      && (forall i, j :: 0 <= i < |rows| && 0 <= j < |rows| && i != j && OnBoard(rows[i]) && OnBoard(rows[j]) ==>
            && after[i].rank.Some? && after[j].rank.Some? && after[i].rank != after[j].rank
            && (after[i].rank.value < after[j].rank.value <==> ScoresBefore(rows, i, j)))
  {
    hide FlushRows, Board, BoardSize, OnBoard, ScoresBefore, Holds;
    var after := FlushRows(rows);
    forall i | 0 <= i < |rows|
      ensures (after[i].inCopyPool <==> after[i].rank.Some?)
      ensures after[i].inCopyPool ==> after[i].score.Some? && after[i].score.value > EXIT
      ensures after[i].rank.Some? ==> 1 <= after[i].rank.value <= BoardSize(rows)
    {
      RankedIsPooled(rows, i);
    }
    EveryRankIsTaken(rows);
    AllRanksFollowScores(rows);
  }

  lemma EveryRankIsTaken(rows: seq<Row>)
    ensures forall p :: 1 <= p <= BoardSize(rows) ==> Holds(FlushRows(rows), p)
  {
    hide FlushRows, Board, BoardSize, Holds;
    BoardLength(rows);
    forall p | 1 <= p <= BoardSize(rows) ensures Holds(FlushRows(rows), p) {
      RankTaken(rows, p);
    }
  }

  lemma AllRanksFollowScores(rows: seq<Row>)
    ensures
      var after := FlushRows(rows);
      forall i, j :: 0 <= i < |rows| && 0 <= j < |rows| && i != j && OnBoard(rows[i]) && OnBoard(rows[j]) ==>
        && after[i].rank.Some? && after[j].rank.Some? && after[i].rank != after[j].rank
        && (after[i].rank.value < after[j].rank.value <==> ScoresBefore(rows, i, j))
  {
    hide FlushRows, OnBoard, ScoresBefore;
    var after := FlushRows(rows);
    forall i, j | 0 <= i < |rows| && 0 <= j < |rows| && i != j && OnBoard(rows[i]) && OnBoard(rows[j])
      ensures after[i].rank.Some? && after[j].rank.Some? && after[i].rank != after[j].rank
      ensures after[i].rank.value < after[j].rank.value <==> ScoresBefore(rows, i, j)
    {
      RanksFollowScores(rows, i, j);
    }
  }

  lemma RankedIsPooled(rows: seq<Row>, i: nat)
    requires i < |rows|
    ensures
      var r := FlushRows(rows)[i];
      && (r.inCopyPool <==> r.rank.Some?)
      && (r.inCopyPool ==> r.score.Some? && r.score.value > EXIT)
      && (r.rank.Some? ==> 1 <= r.rank.value <= BoardSize(rows))
  {
    RankIsPlace(rows, i);
    BoardLength(rows);
    hide FlushRows, Board, BoardSize;
  }

  lemma RankTaken(rows: seq<Row>, p: nat)
    requires 1 <= p <= |Board(Map(PurgedRow, rows))|
    ensures Holds(FlushRows(rows), p)
  {
    var board := Board(Map(PurgedRow, rows));
    BoardIsSorted(Map(PurgedRow, rows));
    var i := board[p - 1].index;
    assert board[p - 1] in board;
    RankIsPlace(rows, i);
    hide FlushRows, Board;
    var rank := FlushRows(rows)[i].rank.value;
    assert board[rank - 1].index == i;
    assert rank == p;
  }

  /** A ranked row's entry stands at its rank. */
  lemma EntryAtRank(rows: seq<Row>, i: nat)
    requires i < |rows| && OnBoard(rows[i])
    ensures
      var board, rank := Board(Map(PurgedRow, rows)), FlushRows(rows)[i].rank;
      && rank.Some? && 1 <= rank.value <= |board|
      && board[rank.value - 1].index == i && Some(board[rank.value - 1].score) == rows[i].score
  {
    RankIsPlace(rows, i);
    BoardIsSorted(Map(PurgedRow, rows));
    PurgeKeepsScore(rows[i]);
    hide FlushRows, Board, OnBoard, PurgedRow, Map;
    var board := Board(Map(PurgedRow, rows));
    assert board[FlushRows(rows)[i].rank.value - 1] in board;
  }

  lemma RanksFollowScores(rows: seq<Row>, i: nat, j: nat)
    requires i < |rows| && j < |rows| && i != j && OnBoard(rows[i]) && OnBoard(rows[j])
    ensures
      var ri, rj := FlushRows(rows)[i].rank, FlushRows(rows)[j].rank;
      && ri.Some? && rj.Some? && ri != rj
      && (ri.value < rj.value <==> ScoresBefore(rows, i, j))
  {
    EntryAtRank(rows, i);
    EntryAtRank(rows, j);
    BoardIsSorted(Map(PurgedRow, rows));
    hide FlushRows, Board, PurgedRow, Map, OnBoard, DistinctIndices, Sorted;
    BoardOrder(Board(Map(PurgedRow, rows)), FlushRows(rows)[i].rank.value - 1, FlushRows(rows)[j].rank.value - 1);
  }

  lemma PurgeKeepsScore(r: Row)
    ensures PurgedRow(r).score == r.score
  {
  }

  /** On a sorted board an earlier place is a higher score, or an equal score on an earlier row. */
  lemma BoardOrder(board: seq<Entry>, p: nat, q: nat)
    requires Sorted(StrictlyHigher, board) && p < |board| && q < |board|
    requires board[p].index != board[q].index
    ensures p < q <==>
              board[p].score > board[q].score ||
              (board[p].score == board[q].score && board[p].index < board[q].index)
  {
    if p < q {
      assert StrictlyHigher(board[p], board[q]);
    } else if q < p {
      assert StrictlyHigher(board[q], board[p]);
    }
  }

  predicate InPool(r: Row) {
    r.inCopyPool
  }

  /** Right after a flush the cached board lists exactly the pool, as many rows as were above the exit line. */
  lemma CachedBoardIsThePool(rows: seq<Row>)
    ensures CachedBoard(FlushRows(rows)) == Filter(InPool, FlushRows(rows))
    ensures |CachedBoard(FlushRows(rows))| == BoardSize(rows)
  {
    hide FlushRows, Filter, OnBoard, BelowFloor, PurgedRow, Map, Board;
    var after := FlushRows(rows);
    forall i | 0 <= i < |rows|
      ensures OnCachedBoard(after[i]) == InPool(after[i]) && OnCachedBoard(after[i]) == OnBoard(rows[i])
    {
      RankedIsPooled(rows, i);
      RankIsPlace(rows, i);
    }
    FilterSame(OnCachedBoard, InPool, after);
    SameCount(OnCachedBoard, OnBoard, after, rows);
  }

  lemma {:induction false} SameCount(p: Row -> bool, q: Row -> bool, a: seq<Row>, b: seq<Row>)
    requires |a| == |b| && forall i :: 0 <= i < |a| ==> p(a[i]) == q(b[i])
    ensures |Filter(p, a)| == |Filter(q, b)|
  {
    if a != [] {
      SameCount(p, q, a[1..], b[1..]);
    }
  }

  /** How many rows the purge pass takes out. */
  function PurgeCount(rows: seq<Row>): nat {
    |Filter(BelowFloor, rows)|
  }

  /** A second flush purges nothing and changes nothing. */
  lemma FlushIsIdempotent(rows: seq<Row>)
    ensures FlushRows(FlushRows(rows)) == FlushRows(rows)
    ensures PurgeCount(FlushRows(rows)) == 0
  {
    var after := FlushRows(rows);
    forall i | 0 <= i < |rows| ensures !BelowFloor(after[i]) {
      RankIsPlace(rows, i);
    }
    FilterMembers(BelowFloor, after);
    if PurgeCount(after) > 0 {
      assert Filter(BelowFloor, after)[0] in after;
    }
    var purged := Map(PurgedRow, rows);
    assert Map(PurgedRow, after) == after;
    SameBoard(purged, after, 0);
  }

  lemma {:induction false} SameBoard(a: seq<Row>, b: seq<Row>, from: nat)
    requires |a| == |b| && from <= |a|
    requires forall i :: 0 <= i < |a| ==> OnBoard(a[i]) == OnBoard(b[i]) && a[i].score == b[i].score
    ensures Entries(a, from) == Entries(b, from)
    decreases |a| - from
  {
    hide OnBoard;
    if from < |a| {
      SameBoard(a, b, from + 1);
    }
  }
}
