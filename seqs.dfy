/** Sequence operations behind the store's queries: WHERE (Filter),
    ORDER BY ... DESC (SortDesc) and LIMIT (a prefix), and the key
    constraints the tables keep (Distinct, AllBelow). */
module Seqs {

  /** The rows of `s` that satisfy `keep`, in table order. */
  function Filter<T(!new)>(s: seq<T>, keep: T -> bool): (r: seq<T>)
    ensures |r| <= |s|
    ensures forall x :: x in r <==> x in s && keep(x)
  {
    if s == [] then []
    else
      assert s == [s[0]] + s[1..];
      if keep(s[0]) then [s[0]] + Filter(s[1..], keep) else Filter(s[1..], keep)
  }

  /** Filter keeps every copy of a kept row and drops every copy of the rest. */
  lemma {:induction false} FilterMultiset<T(!new)>(s: seq<T>, keep: T -> bool)
    ensures forall x :: multiset(Filter(s, keep))[x] == if keep(x) then multiset(s)[x] else 0
  {
    if s != [] {
      assert s == [s[0]] + s[1..];
      FilterMultiset(s[1..], keep);
    }
  }

  /** No two rows of `s` share a key (a PRIMARY KEY or UNIQUE constraint). */
  ghost predicate Distinct<T, K>(s: seq<T>, key: T -> K) {
    forall i, j :: 0 <= i < j < |s| ==> key(s[i]) != key(s[j])
  }

  /** Every key in `s` is below `bound` (an AUTOINCREMENT counter). */
  ghost predicate AllBelow<T>(s: seq<T>, key: T -> int, bound: int) {
    forall x :: x in s ==> key(x) < bound
  }

  /** `s` is ordered by `key`, largest first (ties allowed). */
  ghost predicate NonIncreasing<T>(s: seq<T>, key: T -> int) {
    forall i, j :: 0 <= i < j < |s| ==> key(s[i]) >= key(s[j])
  }

  lemma {:induction false} FilterKeepsDistinct<T(!new), K>(s: seq<T>, keep: T -> bool, key: T -> K)
    requires Distinct(s, key)
    ensures Distinct(Filter(s, keep), key)
  {
    if s != [] {
      var rest := Filter(s[1..], keep);
      assert Distinct(s[1..], key);
      FilterKeepsDistinct(s[1..], keep, key);
      if keep(s[0]) {
        var r := [s[0]] + rest;
        forall i, j | 0 <= i < j < |r| ensures key(r[i]) != key(r[j]) {
          if i == 0 {
            assert r[j] in s[1..];
            var k :| 0 <= k < |s[1..]| && s[1..][k] == r[j];
            assert s[k + 1] == r[j];
          } else {
            assert r[i] == rest[i - 1] && r[j] == rest[j - 1];
          }
        }
      }
    }
  }

  /** A new row whose key is above every existing key keeps the keys distinct. */
  lemma AppendKeepsDistinct<T>(s: seq<T>, x: T, key: T -> int, bound: int)
    requires Distinct(s, key) && AllBelow(s, key, bound) && bound <= key(x)
    ensures Distinct(s + [x], key)
  {
  }

  /** Inserts `x` into a sequence ordered largest first, before the first
      element whose key does not exceed its own. */
  function InsertDesc<T>(x: T, s: seq<T>, key: T -> int): (r: seq<T>)
    ensures |r| == |s| + 1
    ensures multiset(r) == multiset(s) + multiset{x}
    ensures r[0] == x || (|s| > 0 && r[0] == s[0])
  {
    if s == [] || key(x) >= key(s[0]) then
      [x] + s
    else
      assert s == [s[0]] + s[1..];
      [s[0]] + InsertDesc(x, s[1..], key)
  }

  lemma {:induction false} InsertDescOrdered<T>(x: T, s: seq<T>, key: T -> int)
    requires NonIncreasing(s, key)
    ensures NonIncreasing(InsertDesc(x, s, key), key)
  {
    var r := InsertDesc(x, s, key);
    if s == [] || key(x) >= key(s[0]) {
      forall i, j | 0 <= i < j < |r| ensures key(r[i]) >= key(r[j]) {
        if i == 0 {
          assert r[j] == s[j - 1];
          if j > 1 { assert key(s[0]) >= key(s[j - 1]); }
        } else {
          assert r[i] == s[i - 1] && r[j] == s[j - 1];
        }
      }
    } else {
      var rest := InsertDesc(x, s[1..], key);
      assert NonIncreasing(s[1..], key);
      InsertDescOrdered(x, s[1..], key);
      assert r == [s[0]] + rest;
      forall i, j | 0 <= i < j < |r| ensures key(r[i]) >= key(r[j]) {
        if i == 0 {
          assert r[j] == rest[j - 1];
          assert key(s[0]) >= key(rest[0]) by {
            if rest[0] != x { assert rest[0] == s[1]; }
          }
          if j > 1 { assert key(rest[0]) >= key(rest[j - 1]); }
        } else {
          assert r[i] == rest[i - 1] && r[j] == rest[j - 1];
        }
      }
    }
  }

  /** A stable ordering of `s` by `key`, largest first. SQL leaves the order of
      ties open; no property below depends on how they are broken. */
  function SortDesc<T>(s: seq<T>, key: T -> int): (r: seq<T>)
    ensures |r| == |s|
    ensures multiset(r) == multiset(s)
    ensures NonIncreasing(r, key)
  {
    if s == [] then []
    else
      assert s == [s[0]] + s[1..];
      InsertDescOrdered(s[0], SortDesc(s[1..], key), key);
      InsertDesc(s[0], SortDesc(s[1..], key), key)
  }

  function Min(a: int, b: int): (m: int) { if a <= b then a else b }

  /** In a sequence ordered largest first, whatever lies beyond the first `n`
      positions has a key at most that of anything within them. */
  lemma PrefixDominates<T>(s: seq<T>, n: nat, key: T -> int)
    requires NonIncreasing(s, key) && n <= |s|
    ensures forall x, y :: x in s && x !in s[..n] && y in s[..n] ==> key(x) <= key(y)
  {
  }

  /** What LIMIT keeps is part of what it is applied to. */
  lemma PrefixFacts<T>(s: seq<T>, n: nat)
    requires n <= |s|
    ensures multiset(s[..n]) <= multiset(s)
    ensures forall x :: x in s[..n] ==> x in s
    ensures n == |s| ==> s[..n] == s
  {
    assert s == s[..n] + s[n..];
  }

  lemma SameElements<T>(a: seq<T>, b: seq<T>)
    requires multiset(a) == multiset(b)
    ensures forall x :: x in a <==> x in b
  {
    forall x ensures x in a <==> x in b {
      assert x in a <==> x in multiset(a);
      assert x in b <==> x in multiset(b);
    }
  }

  lemma {:induction false} FilterKeepsAll<T(!new)>(s: seq<T>, keep: T -> bool)
    requires forall x :: x in s ==> keep(x)
    ensures Filter(s, keep) == s
  {
    if s != [] {
      assert s == [s[0]] + s[1..];
      FilterKeepsAll(s[1..], keep);
    }
  }

  /** Deleting by a key that one row holds, in a table whose keys are distinct,
      removes exactly one row. */
  lemma {:induction false} FilterOutOneKey<T(!new)>(s: seq<T>, keep: T -> bool, key: T -> int, k: int)
    requires Distinct(s, key)
    requires forall x :: x in s ==> (keep(x) <==> key(x) != k)
    requires exists x :: x in s && key(x) == k
    ensures |Filter(s, keep)| == |s| - 1
  {
    assert s == [s[0]] + s[1..];
    assert Distinct(s[1..], key);
    if key(s[0]) == k {
      forall x | x in s[1..] ensures keep(x) {
        var j :| 0 <= j < |s[1..]| && s[1..][j] == x;
        assert s[j + 1] == x;
      }
      FilterKeepsAll(s[1..], keep);
    } else {
      FilterOutOneKey(s[1..], keep, key, k);
    }
  }
}
