/** The order both `>` and `localeCompare` give on lower-case hexadecimal text: character by
    character, a proper prefix first. */
module StringOrder {

  predicate Before(s: string, t: string) {
    t != [] && (s == [] || s[0] < t[0] || (s[0] == t[0] && Before(s[1..], t[1..])))
  }

  function Compare(s: string, t: string): int {
    if Before(s, t) then -1 else if s == t then 0 else 1
  }

  lemma {:induction false} BeforeTotal(s: string, t: string)
    ensures Before(s, t) || s == t || Before(t, s)
  {
    if s != [] && t != [] && s[0] == t[0] {
      BeforeTotal(s[1..], t[1..]);
      if s[1..] == t[1..] {
        assert s == [s[0]] + s[1..] && t == [t[0]] + t[1..];
      }
    }
  }

  lemma {:induction false} BeforeAsymmetric(s: string, t: string)
    requires Before(s, t)
    ensures !Before(t, s) && s != t
  {
    if s != [] && s[0] == t[0] {
      BeforeAsymmetric(s[1..], t[1..]);
    }
  }

  lemma {:induction false} BeforeTransitive(s: string, t: string, u: string)
    requires Before(s, t) && Before(t, u)
    ensures Before(s, u)
  {
    if s != [] && s[0] == t[0] == u[0] {
      BeforeTransitive(s[1..], t[1..], u[1..]);
    }
  }

  /** `s` comes before `t` at the first place where they differ: there it ends, or has the smaller character. */
  lemma {:induction false} BeforeExactly(s: string, t: string)
    ensures Before(s, t) <==>
              exists k: nat :: k <= |s| && k < |t| && s[..k] == t[..k] && (k < |s| ==> s[k] < t[k])
  {
    if s != "" && t != "" && s[0] == t[0] {
      BeforeExactly(s[1..], t[1..]);
      if k: nat :| k <= |s| - 1 && k < |t| - 1 && s[1..][..k] == t[1..][..k] && (k < |s| - 1 ==> s[1..][k] < t[1..][k]) {
        assert s[..k + 1] == [s[0]] + s[1..][..k] && t[..k + 1] == [t[0]] + t[1..][..k];
      }
      if k: nat :| k <= |s| && k < |t| && s[..k] == t[..k] && (k < |s| ==> s[k] < t[k]) {
        assert s[1..][..k - 1] == s[..k][1..] && t[1..][..k - 1] == t[..k][1..];
        assert k < |s| ==> s[1..][k - 1] < t[1..][k - 1];
      }
    } else if t != "" {
      assert s[..0] == t[..0];
      if k: nat :| k <= |s| && k < |t| && s[..k] == t[..k] && (k < |s| ==> s[k] < t[k]) {
        if k > 0 {
          SameHead(s, t, k);
        }
      }
    }
  }

  lemma SameHead(s: string, t: string, k: nat)
    requires 0 < k <= |s| && k <= |t| && s[..k] == t[..k]
    ensures s[0] == t[0]
  {
    assert s[..k][0] == t[..k][0];
  }

  /** The three facts at once, for callers that sort. */
  lemma BeforeIsStrictTotalOrder()
    ensures forall s, t :: Before(s, t) || s == t || Before(t, s)
    ensures forall s, t :: Before(s, t) ==> !Before(t, s) && s != t
    ensures forall s, t, u :: Before(s, t) && Before(t, u) ==> Before(s, u)
  {
    forall s, t ensures Before(s, t) || s == t || Before(t, s) {
      BeforeTotal(s, t);
    }
    forall s, t | Before(s, t) ensures !Before(t, s) && s != t {
      BeforeAsymmetric(s, t);
    }
    forall s, t, u | Before(s, t) && Before(t, u) ensures Before(s, u) {
      BeforeTransitive(s, t, u);
    }
  }
}
