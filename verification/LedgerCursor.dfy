/** The text form of a ledger cursor: timestamp, two underscores, id. */
module LedgerCursor {
  import opened Options
  import opened WalletLedger

  /** `toISOString` and `new Date(text)` of the platform, which are not part of this model. */
  datatype DateText = DateText(format: int -> string, parse: string -> Option<int>)

  /** What the codec needs of them: timestamps round-trip, are not empty and have no underscore, and a
      timestamp followed by an underscore is not a date. */
  ghost predicate Lawful(d: DateText) {
    && (forall t :: d.format(t) != "" && '_' !in d.format(t) && d.parse(d.format(t)) == Some(t))
    && (forall t, s :: d.parse(d.format(t) + "_" + s) == None)
  }

  function Encode(d: DateText, c: Cursor): string {
    d.format(c.occurredAt) + "__" + c.id
  }

  predicate DoubleAt(s: string, i: nat) {
    i + 1 < |s| && s[i] == '_' && s[i + 1] == '_'
  }

  /** `lastIndexOf("__")`. */
  function LastDouble(s: string, below: nat): (i: int)
    ensures -1 <= i < below
    ensures i >= 0 ==> DoubleAt(s, i)
    ensures forall j: nat :: i < j < below ==> !DoubleAt(s, j)
  {
    if below == 0 then -1
    else if DoubleAt(s, below - 1) then below - 1
    else LastDouble(s, below - 1)
  }

  function Decode(d: DateText, raw: string): Option<Cursor> {
    var idx := LastDouble(raw, |raw|);
    if idx <= 0 then None
    else
      var occurredAt := d.parse(raw[..idx]);
      var id := raw[idx + 2..];
      if id == "" || occurredAt.None? then None else Some(Cursor(occurredAt.value, id))
  }

  predicate Separator(s: string, k: nat) {
    k + 2 <= |s| && s[k..k + 2] == "__"
  }

  lemma SeparatorExactly(s: string, k: nat)
    ensures DoubleAt(s, k) <==> Separator(s, k)
  {
    if k + 2 <= |s| {
      assert s[k..k + 2] == [s[k], s[k + 1]];
      assert s[k..k + 2] == "__" ==> s[k..k + 2][0] == '_' && s[k..k + 2][1] == '_';
    }
  }

  /** The last double underscore stands at `k`. */
  ghost predicate LastSeparator(s: string, k: nat) {
    Separator(s, k) && forall j: nat :: j > k ==> !Separator(s, j)
  }

  lemma LastSeparatorExactly(s: string, k: nat)
    ensures LastDouble(s, |s|) == k <==> LastSeparator(s, k)
  {
    forall j: nat ensures DoubleAt(s, j) == Separator(s, j) && (Separator(s, j) ==> j < |s|) {
      SeparatorExactly(s, j);
    }
    hide LastDouble, DoubleAt, Separator;
  }

  /** What text is read as which cursor: it is split at its last double underscore, a date before it and an id that is
      not empty after it. */
  lemma DecodeExactly(d: DateText, raw: string, c: Cursor)
    ensures Decode(d, raw) == Some(c) <==>
              exists k: nat ::
                && k > 0 && LastSeparator(raw, k)
                && d.parse(raw[..k]) == Some(c.occurredAt) && raw[k + 2..] == c.id && c.id != ""
  {
    hide LastDouble, LastSeparator, DoubleAt, Separator;
    var idx := LastDouble(raw, |raw|);
    if idx >= 0 {
      LastSeparatorExactly(raw, idx);
    }
    forall k: nat | LastSeparator(raw, k) ensures k == idx {
      LastSeparatorExactly(raw, k);
    }
  }

  /** Ids the text form can carry. */
  ghost predicate PlainId(id: string) {
    id != "" && id[0] != '_' && forall i: nat :: !DoubleAt(id, i)
  }

  /** Decoding an encoded cursor gives the cursor back exactly when its id is plain, and otherwise it is
      rejected: it never becomes a different position. */
  lemma CursorRoundTrip(d: DateText, c: Cursor)
    requires Lawful(d)
    ensures Decode(d, Encode(d, c)) == if PlainId(c.id) then Some(c) else None
  {
    hide PlainId, LastDouble;
    var f := d.format(c.occurredAt);
    var raw := Encode(d, c);
    var n := |f|;
    var idx := LastDouble(raw, |raw|);
    assert DoubleAt(raw, n);
    assert c.id == "" ==> !PlainId(c.id) by {
      PlainIsNotEmpty(c.id);
    }
    DoublesOfEncoded(f, c.id, raw);
    if idx == n {
      assert raw[..n] == f && raw[n + 2..] == c.id;
    } else {
      assert raw[..idx] == f + "_" + raw[n + 1..idx];
      assert d.parse(f + "_" + raw[n + 1..idx]).None?;
    }
  }

  lemma PlainIsNotEmpty(id: string)
    ensures PlainId(id) ==> id != ""
  {
  }

  /** Past the separator, doubles come only from an id that is not plain. */
  lemma DoublesOfEncoded(f: string, id: string, raw: string)
    requires raw == f + "__" + id
    ensures forall j: nat :: j > |f| && DoubleAt(raw, j) ==> id != "" && !PlainId(id)
    ensures id != "" && !PlainId(id) ==> exists j: nat :: j > |f| && DoubleAt(raw, j)
  {
    var n := |f|;
    forall j: nat | j > n && DoubleAt(raw, j) ensures id != "" && !PlainId(id) {
      if j > n + 1 {
        assert DoubleAt(id, j - n - 2);
      }
    }
    if id != "" && !PlainId(id) {
      if id[0] == '_' {
        assert DoubleAt(raw, n + 1);
      } else {
        var i: nat :| DoubleAt(id, i);
        assert DoubleAt(raw, n + 2 + i);
      }
    }
  }

  function Strokes(t: int): string {
    if t >= 0 then seq(t + 1, _ => 'p') else seq(-t, _ => 'm')
  }

  function CountStrokes(s: string): Option<int> {
    if s != "" && (forall i :: 0 <= i < |s| ==> s[i] == 'p') then Some(|s| - 1)
    else if s != "" && (forall i :: 0 <= i < |s| ==> s[i] == 'm') then Some(-|s|)
    else None
  }

  lemma StrokesRoundTrip(t: int)
    ensures Strokes(t) != "" && '_' !in Strokes(t) && CountStrokes(Strokes(t)) == Some(t)
  {
    assert Strokes(t)[0] == if t >= 0 then 'p' else 'm';
  }

  /** Functions with these properties exist. */
  lemma LawfulIsPossible()
    ensures Lawful(DateText(Strokes, CountStrokes))
  {
    var d := DateText(Strokes, CountStrokes);
    forall t ensures d.format(t) != "" && '_' !in d.format(t) && d.parse(d.format(t)) == Some(t) {
      StrokesRoundTrip(t);
    }
    forall t, s ensures d.parse(d.format(t) + "_" + s) == None {
      var text := Strokes(t) + "_" + s;
      assert text[|Strokes(t)|] == '_';
    }
  }
}
