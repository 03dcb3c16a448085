/** Optional values: the source's `T | null`. */
module Options {
  datatype Option<+T> = None | Some(value: T) {
    function GetOr(default: T): T {
      if Some? then value else default
    }
  }
}

/** The array operations the source uses: `filter`, `map`, `slice(0, n)`, a stable `sort`
    and de-duplication through a `Set`. */
module Seqs {

  function Filter<T>(keep: T -> bool, s: seq<T>): (r: seq<T>)
    ensures |r| <= |s|
  {
    if s == [] then [] else
    var rest := Filter(keep, s[1..]);
    if keep(s[0]) then [s[0]] + rest else rest
  }

  lemma {:induction false} FilterMembers<T(!new)>(keep: T -> bool, s: seq<T>)
    ensures forall x :: x in Filter(keep, s) <==> x in s && keep(x)
  {
    if s != [] {
      FilterMembers(keep, s[1..]);
      assert s == [s[0]] + s[1..];
    }
  }

  function Map<T, U>(f: T -> U, s: seq<T>): (r: seq<U>)
    ensures |r| == |s|
    ensures forall i :: 0 <= i < |s| ==> r[i] == f(s[i])
  {
    if s == [] then [] else [f(s[0])] + Map(f, s[1..])
  }

  lemma MapMembers<T(!new), U(!new)>(f: T -> U, s: seq<T>)
    ensures forall y :: y in Map(f, s) <==> exists x :: x in s && f(x) == y
  {
    hide Map;
    forall x | x in s ensures f(x) in Map(f, s) {
      var i :| 0 <= i < |s| && s[i] == x;
      assert Map(f, s)[i] == f(x);
    }
    forall y | y in Map(f, s) ensures exists x :: x in s && f(x) == y {
      var i :| 0 <= i < |s| && Map(f, s)[i] == y;
      assert s[i] in s;
    }
  }

  /** `s.slice(0, n)` for a non-negative `n`. */
  function Take<T>(s: seq<T>, n: nat): (r: seq<T>)
    ensures r <= s && |r| == if n <= |s| then n else |s|
  {
    if n <= |s| then s[..n] else s
  }

  ghost predicate Distinct<T>(s: seq<T>) {
    forall i, j :: 0 <= i < j < |s| ==> s[i] != s[j]
  }

  /** `[...new Set(s)]`: first occurrences, in order. */
  function Dedup<T(==,!new)>(s: seq<T>): (r: seq<T>)
    ensures forall x :: x in r <==> x in s
    ensures |r| <= |s|
    ensures Distinct(r)
  {
    if s == [] then [] else
    var front := Dedup(s[..|s| - 1]);
    assert s == s[..|s| - 1] + [s[|s| - 1]];
    if s[|s| - 1] in front then front else front + [s[|s| - 1]]
  }

  lemma {:induction false} DedupDistinct<T(!new)>(s: seq<T>)
    requires Distinct(s)
    ensures Dedup(s) == s
  {
    if s != [] {
      DedupDistinct(s[..|s| - 1]);
      assert s == s[..|s| - 1] + [s[|s| - 1]];
    }
  }

  /** De-duplication never touches a distinct front part. */
  lemma {:induction false} DedupKeepsFront<T(!new)>(front: seq<T>, rest: seq<T>)
    requires Distinct(front)
    ensures front <= Dedup(front + rest)
    decreases |rest|
  {
    if rest == [] {
      assert front + rest == front;
      DedupDistinct(front);
    } else {
      DedupKeepsFront(front, rest[..|rest| - 1]);
      var all := front + rest;
      assert all[..|all| - 1] == front + rest[..|rest| - 1];
    }
  }

  lemma {:induction false} FilterConcat<T(!new)>(keep: T -> bool, a: seq<T>, b: seq<T>)
    ensures Filter(keep, a + b) == Filter(keep, a) + Filter(keep, b)
    decreases |a|
  {
    if a == [] {
      assert a + b == b;
    } else {
      var x, rest := a[0], a[1..];
      FilterConcat(keep, rest, b);
      calc {
        Filter(keep, a + b);
        { assert a + b == [x] + (rest + b); }
        Filter(keep, [x] + (rest + b));
        { FilterUnfold(keep, x, rest + b); }
        (if keep(x) then [x] else []) + (Filter(keep, rest) + Filter(keep, b));
        (if keep(x) then [x] else []) + Filter(keep, rest) + Filter(keep, b);
        { FilterUnfold(keep, x, rest); assert a == [x] + rest; }
        Filter(keep, a) + Filter(keep, b);
      }
    }
  }

  lemma FilterUnfold<T(!new)>(keep: T -> bool, x: T, s: seq<T>)
    ensures Filter(keep, [x] + s) == (if keep(x) then [x] else []) + Filter(keep, s)
  {
    assert ([x] + s)[1..] == s;
  }

  /** Replacing one element changes the count by the difference at that element. */
  lemma {:induction false} FilterUpdateCount<T(!new)>(keep: T -> bool, s: seq<T>, i: nat, x: T)
    requires i < |s|
    ensures |Filter(keep, s[i := x])| ==
            |Filter(keep, s)| - (if keep(s[i]) then 1 else 0) + (if keep(x) then 1 else 0)
  {
    if i == 0 {
      assert s[i := x][1..] == s[1..];
    } else {
      assert s[i := x][1..] == s[1..][i - 1 := x];
      FilterUpdateCount(keep, s[1..], i - 1, x);
    }
  }

  /** Cutting a filtered list keeps a front part of what passed. */
  lemma {:induction false} FilterFront<T(!new)>(keep: T -> bool, s: seq<T>, n: nat, i: nat, j: nat)
    requires Distinct(s) && i < j < |s| && keep(s[i]) && s[j] in Take(Filter(keep, s), n)
    ensures s[i] in Take(Filter(keep, s), n)
  {
    var rest := Filter(keep, s[1..]);
    if i == 0 {
      assert Filter(keep, s) == [s[0]] + rest;
      assert Take(Filter(keep, s), n)[0] == s[0];
    } else {
      var kept := if keep(s[0]) then n - 1 else n;
      if keep(s[0]) {
        assert Take([s[0]] + rest, n) == [s[0]] + Take(rest, n - 1);
        assert s[0] != s[j];
      }
      FilterFront(keep, s[1..], kept, i - 1, j - 1);
    }
  }

  /** De-duplicating two distinct lists drops from the second what the first has. */
  lemma {:induction false} DedupAppend<T(!new)>(front: seq<T>, rest: seq<T>)
    requires Distinct(front) && Distinct(rest)
    ensures Dedup(front + rest) == front + Filter((x: T) => x !in front, rest)
    decreases |rest|
  {
    hide Dedup, Filter, Distinct;
    var unseen := (x: T) => x !in front;
    if rest == [] {
      assert front + rest == front;
      DedupDistinct(front);
      FilterNothing(unseen, rest);
    } else {
      var n := |rest| - 1;
      var start, last := rest[..n], rest[n];
      DistinctWithoutLast(rest);
      DedupAppend(front, start);
      DedupLast(front + start, last);
      FilterLast(unseen, start, last);
      assert rest == start + [last];
      assert front + rest == (front + start) + [last];
      assert last in front + start <==> last in front;
    }
  }

  lemma DistinctWithoutLast<T>(s: seq<T>)
    requires Distinct(s) && s != []
    ensures Distinct(s[..|s| - 1]) && s[|s| - 1] !in s[..|s| - 1]
  {
  }

  lemma DedupLast<T(!new)>(s: seq<T>, x: T)
    ensures Dedup(s + [x]) == if x in s then Dedup(s) else Dedup(s) + [x]
  {
    assert (s + [x])[..|s|] == s;
  }

  lemma FilterLast<T(!new)>(keep: T -> bool, s: seq<T>, x: T)
    ensures Filter(keep, s + [x]) == Filter(keep, s) + if keep(x) then [x] else []
  {
    FilterConcat(keep, s, [x]);
    assert [x][1..] == [];
  }

  lemma {:induction false} FilterSame<T(!new)>(p: T -> bool, q: T -> bool, s: seq<T>)
    requires forall x :: x in s ==> p(x) == q(x)
    ensures Filter(p, s) == Filter(q, s)
  {
    if s != [] {
      FilterSame(p, q, s[1..]);
    }
  }

  lemma {:induction false} FilterTwice<T(!new)>(p: T -> bool, q: T -> bool, both: T -> bool, s: seq<T>)
    requires forall x :: x in s ==> both(x) == (p(x) && q(x))
    ensures Filter(q, Filter(p, s)) == Filter(both, s)
  {
    if s != [] {
      FilterTwice(p, q, both, s[1..]);
    }
  }

  lemma {:induction false} FilterAll<T(!new)>(p: T -> bool, s: seq<T>)
    requires forall x :: x in s ==> p(x)
    ensures Filter(p, s) == s
  {
    if s != [] {
      FilterAll(p, s[1..]);
    }
  }

  lemma FilterNothing<T(!new)>(p: T -> bool, s: seq<T>)
    requires forall x :: x in s ==> !p(x)
    ensures Filter(p, s) == []
  {
    FilterMembers(p, s);
    if Filter(p, s) != [] {
      assert Filter(p, s)[0] in Filter(p, s);
    }
  }

  /** Two disjoint distinct parts, told apart by a predicate. */
  lemma JoinDistinct<T(!new)>(p: T -> bool, front: seq<T>, back: seq<T>)
    requires Distinct(front) && Distinct(back)
    requires (forall x :: x in front ==> !p(x)) && (forall x :: x in back ==> p(x))
    ensures Distinct(front + back) && Filter(p, front + back) == back
  {
    FilterConcat(p, front, back);
    FilterAll(p, back);
    FilterNothing(p, front);
    var all := front + back;
    forall i, j | 0 <= i < j < |all| ensures all[i] != all[j] {
      if i < |front| <= j {
        assert all[i] in front && all[j] in back;
      }
    }
  }

  /** Distinctness of a projection survives filtering. */
  lemma {:induction false} FilterDistinct<T(!new), U>(p: T -> bool, f: T -> U, s: seq<T>)
    requires Distinct(Map(f, s))
    ensures Distinct(Map(f, Filter(p, s)))
  {
    if s != [] {
      assert Map(f, s)[1..] == Map(f, s[1..]);
      FilterDistinct(p, f, s[1..]);
      var rest := Filter(p, s[1..]);
      FilterMembers(p, s[1..]);
      forall y | y in rest ensures f(y) != f(s[0]) {
        var j :| 0 <= j < |s[1..]| && s[1..][j] == y;
        assert Map(f, s)[j + 1] == f(y) && Map(f, s)[0] == f(s[0]);
      }
    }
  }

  // ---------------------------------------------------------------- sorting

  /** Whether `le` can drive a stable sort: reflexive by totality, and transitive. */
  ghost predicate TotalPreorder<T(!new)>(le: (T, T) -> bool) {
    && (forall a, b :: le(a, b) || le(b, a))
    && (forall a, b, c :: le(a, b) && le(b, c) ==> le(a, c))
  }

  ghost predicate Sorted<T>(le: (T, T) -> bool, s: seq<T>) {
    forall i, j :: 0 <= i < j < |s| ==> le(s[i], s[j])
  }

  function Insert<T>(le: (T, T) -> bool, x: T, s: seq<T>): (r: seq<T>)
    ensures multiset(r) == multiset(s) + multiset{x}
    ensures |r| == |s| + 1
  {
    if s == [] || le(x, s[0]) then [x] + s
    else
      assert s == [s[0]] + s[1..];
      [s[0]] + Insert(le, x, s[1..])
  }

  /** A stable sort: equal elements keep their order. */
  function Sort<T>(le: (T, T) -> bool, s: seq<T>): (r: seq<T>)
    ensures multiset(r) == multiset(s)
    ensures |r| == |s|
  {
    if s == [] then []
    else
      assert s == [s[0]] + s[1..];
      Insert(le, s[0], Sort(le, s[1..]))
  }

  lemma SortMembers<T(!new)>(le: (T, T) -> bool, s: seq<T>)
    ensures forall x :: x in Sort(le, s) <==> x in s
  {
    forall x ensures x in Sort(le, s) <==> x in s {
      assert x in Sort(le, s) <==> x in multiset(Sort(le, s));
      assert x in s <==> x in multiset(s);
    }
  }

  lemma {:induction false} InsertSorted<T(!new)>(le: (T, T) -> bool, x: T, s: seq<T>)
    requires TotalPreorder(le) && Sorted(le, s)
    ensures Sorted(le, Insert(le, x, s))
  {
    if s == [] || le(x, s[0]) {
    } else {
      InsertSorted(le, x, s[1..]);
      var rest := Insert(le, x, s[1..]);
      forall y | y in rest ensures le(s[0], y) {
        assert y in multiset(rest);
        assert y == x || y in s[1..];
      }
    }
  }

  lemma {:induction false} SortSorted<T(!new)>(le: (T, T) -> bool, s: seq<T>)
    requires TotalPreorder(le)
    ensures Sorted(le, Sort(le, s))
  {
    if s != [] {
      SortSorted(le, s[1..]);
      InsertSorted(le, s[0], Sort(le, s[1..]));
    }
  }

  /** Cutting a sorted list: what is left out comes no earlier than what is kept. */
  lemma FrontOfSort<T(!new)>(le: (T, T) -> bool, s: seq<T>, n: nat)
    requires TotalPreorder(le)
    ensures Sorted(le, Take(Sort(le, s), n))
    ensures forall x, y :: x in Take(Sort(le, s), n) && y in s && y !in Take(Sort(le, s), n) ==> le(x, y)
  {
    SortSorted(le, s);
    SortMembers(le, s);
    hide Sort, TotalPreorder, Take;
    CutSorted(le, Sort(le, s), n);
  }

  lemma CutSorted<T(!new)>(le: (T, T) -> bool, sorted: seq<T>, n: nat)
    requires Sorted(le, sorted)
    ensures Sorted(le, Take(sorted, n))
    ensures forall x, y :: x in Take(sorted, n) && y in sorted && y !in Take(sorted, n) ==> le(x, y)
  {
    var front := Take(sorted, n);
    var rest := sorted[|front|..];
    assert sorted == front + rest;
    forall x, y | x in front && y in rest ensures le(x, y) {
      var i :| 0 <= i < |front| && front[i] == x;
      var j :| 0 <= j < |rest| && rest[j] == y;
      assert sorted[i] == x && sorted[|front| + j] == y;
    }
  }

  /** Distinct members of a list are no more than its elements. */
  lemma {:induction false} DistinctInside<T(!new)>(a: seq<T>, b: seq<T>)
    requires Distinct(a) && forall x :: x in a ==> x in b
    ensures |a| <= |b|
    decreases |a|
  {
    if a != [] {
      assert a[0] in b;
      var j :| 0 <= j < |b| && b[j] == a[0];
      var rest := b[..j] + b[j + 1..];
      forall x | x in a[1..] ensures x in rest {
        var k :| 0 <= k < |a[1..]| && a[1..][k] == x;
        assert a[k + 1] == x && x in b;
        var m :| 0 <= m < |b| && b[m] == x;
        assert m != j;
        assert x == if m < j then rest[m] else rest[m - 1];
      }
      DistinctInside(a[1..], rest);
    }
  }

  lemma {:induction false} FilterInsert<T(!new)>(keep: T -> bool, le: (T, T) -> bool, x: T, s: seq<T>)
    requires TotalPreorder(le) && Sorted(le, s)
    ensures Filter(keep, Insert(le, x, s)) ==
            if keep(x) then Insert(le, x, Filter(keep, s)) else Filter(keep, s)
  {
    if s == [] {
    } else if le(x, s[0]) {
      var kept := Filter(keep, s);
      assert ([x] + s)[1..] == s;
      FilterMembers(keep, s);
      if kept != [] {
        assert kept[0] in s;
      }
    } else {
      FilterInsert(keep, le, x, s[1..]);
      assert ([s[0]] + Insert(le, x, s[1..]))[1..] == Insert(le, x, s[1..]);
      var rest := Filter(keep, s[1..]);
      assert ([s[0]] + rest)[1..] == rest;
    }
  }

  /** Filtering before or after a stable sort gives the same list. */
  lemma {:induction false} FilterSort<T(!new)>(keep: T -> bool, le: (T, T) -> bool, s: seq<T>)
    requires TotalPreorder(le)
    ensures Sort(le, Filter(keep, s)) == Filter(keep, Sort(le, s))
  {
    if s != [] {
      FilterSort(keep, le, s[1..]);
      SortSorted(le, s[1..]);
      FilterInsert(keep, le, s[0], Sort(le, s[1..]));
      var rest := Filter(keep, s[1..]);
      assert ([s[0]] + rest)[1..] == rest;
    }
  }

  lemma {:induction false} MapInsert<T(!new), U>(f: T -> U, le: (T, T) -> bool, le': (U, U) -> bool, x: T, s: seq<T>)
    requires forall y :: y in s ==> le(x, y) == le'(f(x), f(y))
    ensures Map(f, Insert(le, x, s)) == Insert(le', f(x), Map(f, s))
  {
    if s == [] {
    } else if le(x, s[0]) {
      assert ([x] + s)[1..] == s;
    } else {
      MapInsert(f, le, le', x, s[1..]);
      assert ([s[0]] + Insert(le, x, s[1..]))[1..] == Insert(le, x, s[1..]);
    }
  }

  /** Sorting commutes with a projection the order only looks through. */
  lemma {:induction false} MapSort<T(!new), U>(f: T -> U, le: (T, T) -> bool, le': (U, U) -> bool, s: seq<T>)
    requires forall x, y :: x in s && y in s ==> le(x, y) == le'(f(x), f(y))
    ensures Map(f, Sort(le, s)) == Sort(le', Map(f, s))
  {
    if s != [] {
      MapSort(f, le, le', s[1..]);
      SortMembers(le, s[1..]);
      MapInsert(f, le, le', s[0], Sort(le, s[1..]));
      assert Map(f, s)[1..] == Map(f, s[1..]);
    }
  }

  /** A filter that keeps exactly the indices from `k` on keeps that suffix. */
  lemma {:induction false} FilterFrom<T(!new)>(keep: T -> bool, s: seq<T>, k: nat)
    requires k <= |s| && forall i :: 0 <= i < |s| ==> (keep(s[i]) <==> k <= i)
    ensures Filter(keep, s) == s[k..]
  {
    if s != [] {
      forall i | 0 <= i < |s[1..]| ensures keep(s[1..][i]) <==> (if k == 0 then 0 else k - 1) <= i {
        assert s[1..][i] == s[i + 1];
      }
      FilterFrom(keep, s[1..], if k == 0 then 0 else k - 1);
      assert keep(s[0]) <==> k <= 0;
    }
  }

  /** An upward closed predicate switches once along a list. */
  lemma {:induction false} SwitchPoint<T>(keep: T -> bool, s: seq<T>) returns (k: nat)
    requires forall i, j :: 0 <= i < j < |s| && keep(s[i]) ==> keep(s[j])
    ensures k <= |s| && forall i :: 0 <= i < |s| ==> (keep(s[i]) <==> k <= i)
  {
    k := 0;
    while k < |s| && !keep(s[k])
      invariant k <= |s| && forall i :: 0 <= i < k ==> !keep(s[i])
    {
      k := k + 1;
    }
    forall i | k <= i < |s| ensures keep(s[i]) {
      assert i == k || keep(s[i]);
    }
  }

  lemma {:induction false} MapFilter<T(!new), U>(f: T -> U, p: T -> bool, q: U -> bool, s: seq<T>)
    requires forall x :: x in s ==> p(x) == q(f(x))
    ensures Map(f, Filter(p, s)) == Filter(q, Map(f, s))
  {
    if s != [] {
      MapFilter(f, p, q, s[1..]);
      assert Map(f, s)[1..] == Map(f, s[1..]);
    }
  }

  lemma {:induction false} MapPermutation<T, U>(f: T -> U, a: seq<T>, b: seq<T>)
    requires multiset(a) == multiset(b)
    ensures multiset(Map(f, a)) == multiset(Map(f, b))
    decreases |a|
  {
    hide Map;
    if a == [] {
      EmptyPermutation(b);
    } else {
      var j := FindInPermutation(a, b);
      MapRest(f, a, 0);
      assert a[..0] + a[1..] == a[1..];
      MapRest(f, b, j);
      MapPermutation(f, a[1..], b[..j] + b[j + 1..]);
    }
  }

  lemma EmptyPermutation<T>(b: seq<T>)
    requires multiset(b) == multiset{}
    ensures b == []
  {
    assert |b| == |multiset(b)|;
  }

  /** The first element of a list in a permutation of it; the rests are permutations too. */
  lemma FindInPermutation<T>(a: seq<T>, b: seq<T>) returns (j: nat)
    requires multiset(a) == multiset(b) && a != []
    ensures j < |b| && b[j] == a[0] && multiset(a[1..]) == multiset(b[..j] + b[j + 1..])
  {
    InPermutation(a, b, a[0]);
    j :| 0 <= j < |b| && b[j] == a[0];
    WithoutFirst(a);
    RemoveAt(b, j);
  }

  lemma InPermutation<T>(a: seq<T>, b: seq<T>, x: T)
    requires multiset(a) == multiset(b) && x in a
    ensures x in b
  {
    assert x in multiset(b);
  }

  lemma WithoutFirst<T>(a: seq<T>)
    requires a != []
    ensures multiset(a[1..]) == multiset(a) - multiset{a[0]}
  {
    assert a == [a[0]] + a[1..];
  }

  /** What taking one element out of a list takes out of its projections. */
  lemma MapRest<T, U>(f: T -> U, s: seq<T>, j: nat)
    requires j < |s|
    ensures multiset(Map(f, s)) == multiset(Map(f, s[..j] + s[j + 1..])) + multiset{f(s[j])}
  {
    hide Map;
    MapRemove(f, s, j);
    RemoveAt(Map(f, s), j);
    assert Map(f, s)[j] in multiset(Map(f, s));
  }

  lemma MapConcat<T, U>(f: T -> U, a: seq<T>, b: seq<T>)
    ensures Map(f, a + b) == Map(f, a) + Map(f, b)
  {
    hide Map;
  }

  lemma MapTake<T, U>(f: T -> U, s: seq<T>, j: nat)
    requires j <= |s|
    ensures Map(f, s[..j]) == Map(f, s)[..j] && Map(f, s[j..]) == Map(f, s)[j..]
  {
    hide Map;
  }

  /** A front part of a list with distinct projections has distinct projections. */
  lemma MapTakeDistinct<T, U>(f: T -> U, s: seq<T>, n: nat)
    requires Distinct(Map(f, s))
    ensures Distinct(Map(f, Take(s, n)))
  {
    hide Map;
    var front := Take(s, n);
    forall i, j | 0 <= i < j < |front| ensures Map(f, front)[i] != Map(f, front)[j] {
      assert Map(f, s)[i] == Map(f, front)[i] && Map(f, s)[j] == Map(f, front)[j];
    }
  }

  /** In a list with distinct projections the projection tells the elements apart. */
  lemma MapDistinctMember<T(!new), U>(f: T -> U, s: seq<T>, a: T, b: T)
    requires Distinct(Map(f, s)) && a in s && b in s && f(a) == f(b)
    ensures a == b
  {
    hide Map;
    var i :| 0 <= i < |s| && s[i] == a;
    var j :| 0 <= j < |s| && s[j] == b;
    assert Map(f, s)[i] == Map(f, s)[j];
  }

  lemma MapRemove<T, U>(f: T -> U, s: seq<T>, j: nat)
    requires j < |s|
    ensures Map(f, s[..j] + s[j + 1..]) == Map(f, s)[..j] + Map(f, s)[j + 1..]
  {
    hide Map;
    MapConcat(f, s[..j], s[j + 1..]);
    MapTake(f, s, j);
    MapTake(f, s, j + 1);
  }

  lemma RemoveAt<T>(s: seq<T>, j: nat)
    requires j < |s|
    ensures multiset(s[..j] + s[j + 1..]) == multiset(s) - multiset{s[j]}
  {
    assert s == s[..j] + [s[j]] + s[j + 1..];
  }

  lemma {:induction false} DistinctPermutation<T(!new)>(a: seq<T>, b: seq<T>)
    requires multiset(a) == multiset(b) && Distinct(a)
    ensures Distinct(b)
  {
    forall i, j | 0 <= i < j < |b| ensures b[i] != b[j] {
      if b[i] == b[j] {
        assert b == b[..i] + [b[i]] + b[i + 1..j] + [b[j]] + b[j + 1..];
        assert multiset(b)[b[i]] >= 2;
        DistinctOnce(a, b[i]);
      }
    }
  }

  lemma {:induction false} DistinctOnce<T(!new)>(a: seq<T>, x: T)
    requires Distinct(a)
    ensures multiset(a)[x] <= 1
  {
    if a != [] {
      assert a == [a[0]] + a[1..];
      DistinctOnce(a[1..], x);
      if a[0] == x {
        assert x !in a[1..];
      }
    }
  }

  /** The indices whose elements satisfy `p`, in order. */
  function Indices<T>(p: T -> bool, s: seq<T>): (r: seq<nat>)
    ensures forall k :: 0 <= k < |r| ==> r[k] < |s|
  {
    if s == [] then []
    else
      var n := |s| - 1;
      Indices(p, s[..n]) + if p(s[n]) then [n] else []
  }

  lemma IndicesNext<T(!new)>(p: T -> bool, s: seq<T>, i: nat)
    requires i < |s|
    ensures Indices(p, s[..i + 1]) == Indices(p, s[..i]) + if p(s[i]) then [i] else []
  {
    assert s[..i + 1][..i] == s[..i];
  }

  lemma {:induction false} IndicesExactly<T(!new)>(p: T -> bool, s: seq<T>)
    ensures forall i: nat :: i in Indices(p, s) <==> i < |s| && p(s[i])
    ensures Distinct(Indices(p, s))
  {
    if s != [] {
      IndicesExactly(p, s[..|s| - 1]);
    }
  }

  lemma {:induction false} IndicesSame<T(!new)>(p: T -> bool, q: T -> bool, s: seq<T>, t: seq<T>)
    requires |s| == |t| && forall i :: 0 <= i < |s| ==> p(s[i]) == q(t[i])
    ensures Indices(p, s) == Indices(q, t)
  {
    if s != [] {
      IndicesSame(p, q, s[..|s| - 1], t[..|t| - 1]);
    }
  }
}
