/** Sequences as bounded queues, and as sets without repetition. */
module Sequences {
  function Least(a: nat, b: nat): nat {
    if a < b then a else b
  }

  /** The last `max` elements. */
  function Newest<T>(s: seq<T>, max: nat): seq<T> {
    if |s| > max then s[|s| - max..] else s
  }

  /** Cutting a queue early and cutting it at the end come to the same. */
  lemma NewestTwice<T>(a: seq<T>, b: seq<T>, max: nat)
    ensures Newest(Newest(a, max) + b, max) == Newest(a + b, max)
  {
  }

  /** Those that are to be kept, in order. */
  function Kept<T>(keep: T -> bool, s: seq<T>): seq<T> {
    if s == [] then [] else (if keep(s[0]) then [s[0]] else []) + Kept(keep, s[1..])
  }

  lemma KeptCons<T>(keep: T -> bool, x: T, s: seq<T>)
    ensures Kept(keep, []) == []
    ensures Kept(keep, [x] + s) == if keep(x) then [x] + Kept(keep, s) else Kept(keep, s)
  {
    assert ([x] + s)[1..] == s;
  }

  lemma {:induction false} KeptAppend<T>(keep: T -> bool, s: seq<T>, t: seq<T>)
    ensures Kept(keep, s + t) == Kept(keep, s) + Kept(keep, t)
  {
    hide Kept;
    if s == [] {
      assert s + t == t;
      assert Kept(keep, s) == [] by { NothingKept(keep, s); }
    } else {
      var x, rest := s[0], s[1..];
      assert s == [x] + rest && s + t == [x] + (rest + t);
      KeptCons(keep, x, rest);
      KeptCons(keep, x, rest + t);
      KeptAppend(keep, rest, t);
    }
  }

  lemma NothingKept<T>(keep: T -> bool, s: seq<T>)
    requires s == []
    ensures Kept(keep, s) == []
  {
  }

  predicate Distinct<T(==)>(s: seq<T>) {
    forall i, j | 0 <= i < j < |s| :: s[i] != s[j]
  }

  /** A sequence that says each element once has as many elements as its set. */
  lemma {:induction false} DistinctIsSet<T>(s: set<T>, r: seq<T>)
    requires forall x :: x in r <==> x in s
    requires Distinct(r)
    ensures multiset(r) == multiset(s)
    decreases |r|
  {
    if r == [] {
      assert s == {};
    } else {
      var x, rest := r[0], r[1..];
      assert r == [x] + rest;
      forall y ensures y in rest <==> y in s - {x} {
        if y in rest {
          var k :| 0 <= k < |rest| && rest[k] == y;
          assert r[k + 1] == y && r[0] != r[k + 1];
        }
        if y in s - {x} {
          assert y in r;
        }
      }
      assert Distinct(rest) by {
        assert forall i | 0 <= i < |rest| :: rest[i] == r[i + 1];
      }
      DistinctIsSet(s - {x}, rest);
      assert s == s - {x} + {x};
    }
  }

  lemma SubsetSize<T>(a: set<T>, b: set<T>)
    requires a <= b
    ensures |a| <= |b| && (|a| == |b| ==> a == b)
  {
    assert b == a + (b - a);
  }

  function Below(n: nat): (r: set<nat>)
    ensures |r| == n && forall i: nat :: i in r <==> i < n
  {
    if n == 0 then {} else Below(n - 1) + {n - 1}
  }

  /** Distinct numbers below n are at most n, and when they are n they are all of them. */
  lemma DistinctBelow(s: seq<nat>, n: nat)
    requires Distinct(s) && forall i | 0 <= i < |s| :: s[i] < n
    ensures |s| <= n
    ensures |s| == n ==> multiset(s) == multiset(Below(n)) && forall i: nat | i < n :: i in s
  {
    var t := set x | x in s;
    DistinctIsSet(t, s);
    assert |multiset(s)| == |s| && |multiset(t)| == |t|;
    SubsetSize(t, Below(n));
  }

  lemma DistinctOne<T>(s: seq<T>, i: nat, k: nat)
    requires Distinct(s) && i < |s| && k < |s|
    ensures s[i] == s[k] <==> i == k
  {
  }

  lemma RemoveAt<T>(s: seq<T>, k: nat)
    requires k < |s|
    ensures multiset(s[..k] + s[k + 1..]) == multiset(s) - multiset{s[k]}
  {
    assert s == s[..k] + [s[k]] + s[k + 1..];
  }

  lemma SameTwice<T>(r: seq<T>, i: nat, j: nat)
    requires i < j < |r|
    ensures r[i] == r[j] ==> multiset(r)[r[i]] >= 2
  {
    assert r == r[..i] + [r[i]] + r[i + 1..j] + [r[j]] + r[j + 1..];
  }

  lemma Rearranged<T>(r: seq<T>, t: seq<T>)
    requires Distinct(r) && multiset(r) == multiset(t)
    ensures Distinct(t) && forall x :: x in t <==> x in r
  {
    var s := set x | x in r;
    DistinctIsSet(s, r);
    forall i, j | 0 <= i < j < |t| ensures t[i] != t[j] {
      SameTwice(t, i, j);
      assert multiset(r)[t[i]] <= 1;
    }
    forall x ensures x in t <==> x in r {
      assert x in multiset(t) <==> x in multiset(r);
    }
  }
}
