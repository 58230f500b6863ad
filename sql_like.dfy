/** SQLite's LIKE operator as the store's search uses it: `%` matches any
    run of characters, `_` exactly one, and every other pattern character
    matches itself up to ASCII case (SQLite's default, which folds only
    'A'..'Z'). No ESCAPE clause is used, so there are no escapes. */
module SqlLike {

  function Lower(c: char): (l: char) {
    if 'A' <= c <= 'Z' then (c as int + 32) as char else c
  }

  predicate Like(p: string, t: string)
    decreases |p| + |t|
  {
    if |p| == 0 then |t| == 0
    else if p[0] == '%' then Like(p[1..], t) || (|t| > 0 && Like(p, t[1..]))
    else |t| > 0 && (p[0] == '_' || Lower(p[0]) == Lower(t[0])) && Like(p[1..], t[1..])
  }

  /** The pattern `f"%{query}%"` the store builds for a search. */
  function Pattern(query: string): (p: string) {
    "%" + query + "%"
  }

  predicate NoWildcards(q: string) {
    forall k :: 0 <= k < |q| ==> q[k] != '%' && q[k] != '_'
  }

  /** `q` is a prefix of `t` when ASCII case is ignored. */
  predicate PrefixFolded(q: string, t: string) {
    |q| <= |t| && forall k :: 0 <= k < |q| ==> Lower(q[k]) == Lower(t[k])
  }

  /** `q` occurs in `t` when ASCII case is ignored. */
  predicate ContainsFolded(t: string, q: string) {
    exists i :: 0 <= i <= |t| && PrefixFolded(q, t[i..])
  }

  lemma {:induction false} PercentMatchesAll(t: string)
    ensures Like("%", t)
  {
    if |t| > 0 {
      PercentMatchesAll(t[1..]);
    }
  }

  lemma {:induction false} LiteralThenPercent(q: string, t: string)
    requires NoWildcards(q)
    ensures Like(q + "%", t) <==> PrefixFolded(q, t)
  {
    if |q| == 0 {
      assert q + "%" == "%";
      PercentMatchesAll(t);
    } else {
      var p := q + "%";
      assert p[0] == q[0] && p[1..] == q[1..] + "%";
      if |t| > 0 {
        LiteralThenPercent(q[1..], t[1..]);
        if PrefixFolded(q[1..], t[1..]) && Lower(q[0]) == Lower(t[0]) {
          forall k | 0 <= k < |q| ensures Lower(q[k]) == Lower(t[k]) {
            if k > 0 { assert q[1..][k - 1] == q[k] && t[1..][k - 1] == t[k]; }
          }
        }
        if PrefixFolded(q, t) {
          forall k | 0 <= k < |q[1..]| ensures Lower(q[1..][k]) == Lower(t[1..][k]) {
            assert q[1..][k] == q[k + 1] && t[1..][k] == t[k + 1];
          }
        }
      }
    }
  }

  lemma {:induction false} LeadingPercent(p: string, t: string)
    ensures Like("%" + p, t) <==> exists i :: 0 <= i <= |t| && Like(p, t[i..])
  {
    var pp := "%" + p;
    assert pp[0] == '%' && pp[1..] == p;
    assert t[0..] == t;
    if |t| > 0 {
      LeadingPercent(p, t[1..]);
      if Like(pp, t[1..]) {
        var i :| 0 <= i <= |t[1..]| && Like(p, t[1..][i..]);
        assert t[1..][i..] == t[i + 1..];
      }
      if exists i :: 0 <= i <= |t| && Like(p, t[i..]) {
        var i :| 0 <= i <= |t| && Like(p, t[i..]);
        if i > 0 {
          assert t[1..][i - 1..] == t[i..];
        }
      }
    }
  }

  /** For a query free of `%` and `_`, the store's LIKE test is an ASCII
      case-insensitive substring test. */
  lemma PatternIsContains(q: string, t: string)
    requires NoWildcards(q)
    ensures Like(Pattern(q), t) <==> ContainsFolded(t, q)
  {
    assert Pattern(q) == "%" + (q + "%");
    LeadingPercent(q + "%", t);
    forall i | 0 <= i <= |t| ensures Like(q + "%", t[i..]) <==> PrefixFolded(q, t[i..]) {
      LiteralThenPercent(q, t[i..]);
    }
  }
}
