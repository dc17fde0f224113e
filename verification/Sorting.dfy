/**
 Go's byte-wise string order, and sorting. The agent sorts with the standard library; what it relies on is only that
 the result is in order and is a rearrangement of the input, which determine it.
 */
module Sorting {
  import opened Bytes

  /** Any two elements compare, and comparing chains: enough to sort by. */
  ghost predicate Orders<T(!new)>(leq: (T, T) -> bool) {
    (forall x, y :: leq(x, y) || leq(y, x)) && (forall x, y, z :: leq(x, y) && leq(y, z) ==> leq(x, z))
  }

  /** Among these elements, only an element and itself come in both orders. */
  ghost predicate Separates<T>(leq: (T, T) -> bool, s: seq<T>) {
    forall i, j | 0 <= i < |s| && 0 <= j < |s| && leq(s[i], s[j]) && leq(s[j], s[i]) :: s[i] == s[j]
  }

  predicate SortedBy<T>(leq: (T, T) -> bool, s: seq<T>) {
    forall i, j | 0 <= i < j < |s| :: leq(s[i], s[j])
  }

  function Insert<T>(leq: (T, T) -> bool, x: T, s: seq<T>): (r: seq<T>)
    ensures multiset(r) == multiset{x} + multiset(s)
  {
    if s == [] then [x]
    else if leq(x, s[0]) then [x] + s
    else
      assert s == [s[0]] + s[1..];
      [s[0]] + Insert(leq, x, s[1..])
  }

  function Sort<T>(leq: (T, T) -> bool, s: seq<T>): (r: seq<T>)
    ensures multiset(r) == multiset(s) && |r| == |s|
  {
    if s == [] then []
    else
      assert s == [s[0]] + s[1..];
      var r := Insert(leq, s[0], Sort(leq, s[1..]));
      assert |multiset(r)| == |r| && |multiset(s)| == |s|;
      r
  }

  lemma {:induction false} InsertSorted<T(!new)>(leq: (T, T) -> bool, x: T, s: seq<T>)
    requires Orders(leq) && SortedBy(leq, s)
    ensures SortedBy(leq, Insert(leq, x, s))
  {
    if s == [] {
    } else if leq(x, s[0]) {
    } else {
      var rest := Insert(leq, x, s[1..]);
      InsertSorted(leq, x, s[1..]);
      assert leq(s[0], x);
      forall k | 0 <= k < |rest| ensures leq(s[0], rest[k]) {
        InsertMember(leq, x, s[1..], k);
      }
    }
  }

  lemma InsertMember<T>(leq: (T, T) -> bool, x: T, s: seq<T>, k: nat)
    requires k < |Insert(leq, x, s)|
    ensures Insert(leq, x, s)[k] == x || Insert(leq, x, s)[k] in s
  {
    var r := Insert(leq, x, s);
    assert r[k] in multiset(r);
  }

  lemma {:induction false} SortSorted<T(!new)>(leq: (T, T) -> bool, s: seq<T>)
    requires Orders(leq)
    ensures SortedBy(leq, Sort(leq, s))
  {
    if s != [] {
      SortSorted(leq, s[1..]);
      InsertSorted(leq, s[0], Sort(leq, s[1..]));
    }
  }

  /** There is only one sorted arrangement of elements the order tells apart. */
  lemma {:induction false} SortedUnique<T(!new)>(leq: (T, T) -> bool, s: seq<T>, t: seq<T>)
    requires Orders(leq) && Separates(leq, s)
    requires SortedBy(leq, s) && SortedBy(leq, t) && multiset(s) == multiset(t)
    ensures s == t
    decreases |s|
  {
    hide SortedBy, Separates, Orders;
    assert |multiset(s)| == |s| && |multiset(t)| == |t|;
    if s != [] {
      SameHead(leq, s, t);
      SortedTail(leq, s);
      SortedTail(leq, t);
      MultisetTail(s);
      MultisetTail(t);
      SortedUnique(leq, s[1..], t[1..]);
      SameEnds(s, t);
    }
  }

  lemma SameEnds<T>(s: seq<T>, t: seq<T>)
    requires s != [] && t != [] && s[0] == t[0] && s[1..] == t[1..]
    ensures s == t
  {
    assert s == [s[0]] + s[1..] && t == [t[0]] + t[1..];
  }

  lemma MultisetTail<T>(s: seq<T>)
    requires s != []
    ensures multiset(s[1..]) == multiset(s) - multiset{s[0]}
  {
    assert s == [s[0]] + s[1..];
  }

  lemma SortedTail<T>(leq: (T, T) -> bool, s: seq<T>)
    requires s != []
    ensures SortedBy(leq, s) ==> SortedBy(leq, s[1..])
    ensures Separates(leq, s) ==> Separates(leq, s[1..])
  {
    assert forall i | 0 <= i < |s[1..]| :: s[1..][i] == s[i + 1];
  }

  lemma SameHead<T(!new)>(leq: (T, T) -> bool, s: seq<T>, t: seq<T>)
    requires Orders(leq) && Separates(leq, s) && s != [] && t != []
    requires SortedBy(leq, s) && SortedBy(leq, t) && multiset(s) == multiset(t)
    ensures s[0] == t[0]
  {
    assert s[0] in multiset(s) && t[0] in multiset(t);
    var i :| 0 <= i < |t| && t[i] == s[0];
    var k :| 0 <= k < |s| && s[k] == t[0];
    assert leq(s[0], s[0]) && leq(t[0], t[0]);
    assert leq(s[0], s[k]) && leq(t[0], t[i]);
  }

  /** Rearranging the input does not change the sorted result. */
  lemma SortIgnoresOrder<T(!new)>(leq: (T, T) -> bool, s: seq<T>, t: seq<T>)
    requires Orders(leq) && Separates(leq, s) && multiset(s) == multiset(t)
    ensures Sort(leq, s) == Sort(leq, t)
  {
    SortSorted(leq, s);
    SortSorted(leq, t);
    SeparatesAgain(leq, s, Sort(leq, s));
    SortedUnique(leq, Sort(leq, s), Sort(leq, t));
  }

  lemma SeparatesAgain<T>(leq: (T, T) -> bool, s: seq<T>, t: seq<T>)
    requires Separates(leq, s) && multiset(s) == multiset(t)
    ensures Separates(leq, t)
  {
    forall i, j | 0 <= i < |t| && 0 <= j < |t| && leq(t[i], t[j]) && leq(t[j], t[i]) ensures t[i] == t[j] {
      assert t[i] in multiset(s) && t[j] in multiset(s);
      var a :| 0 <= a < |s| && s[a] == t[i];
      var b :| 0 <= b < |s| && s[b] == t[j];
    }
  }

  // ---- byte strings ---------------------------------------------------------------------------------------------

  /** strings.Compare: -1, 0 or 1. */
  function CompareBytes(a: bytes, b: bytes): (r: int)
    ensures r == -1 || r == 0 || r == 1
    ensures r == 0 <==> a == b
  {
    if a == [] then (if b == [] then 0 else -1)
    else if b == [] then 1
    else if a[0] < b[0] then -1
    else if a[0] > b[0] then 1
    else
      assert a == [a[0]] + a[1..] && b == [b[0]] + b[1..];
      CompareBytes(a[1..], b[1..])
  }

  predicate BytesLeq(a: bytes, b: bytes) {
    CompareBytes(a, b) <= 0
  }

  lemma {:induction false} CompareAntisymmetric(a: bytes, b: bytes)
    ensures CompareBytes(a, b) == -CompareBytes(b, a)
  {
    if a != [] && b != [] && a[0] == b[0] {
      CompareAntisymmetric(a[1..], b[1..]);
    }
  }

  lemma {:induction false} CompareTransitive(a: bytes, b: bytes, c: bytes)
    requires CompareBytes(a, b) <= 0 && CompareBytes(b, c) <= 0
    ensures CompareBytes(a, c) <= 0
    ensures CompareBytes(a, b) < 0 || CompareBytes(b, c) < 0 ==> CompareBytes(a, c) < 0
  {
    if a != [] && b != [] && c != [] && a[0] == b[0] == c[0] {
      CompareTransitive(a[1..], b[1..], c[1..]);
    }
  }

  lemma {:induction false} CompareAppend(a: bytes, b: bytes, x: bytes, y: bytes)
    requires |a| == |b|
    ensures CompareBytes(a + x, b + y) == if CompareBytes(a, b) != 0 then CompareBytes(a, b) else CompareBytes(x, y)
  {
    if a == [] {
      assert a + x == x && b + y == y;
    } else {
      assert (a + x)[1..] == a[1..] + x && (b + y)[1..] == b[1..] + y;
      assert (a + x)[0] == a[0] && (b + y)[0] == b[0];
      CompareAppend(a[1..], b[1..], x, y);
    }
  }

  lemma BytesOrder()
    ensures Orders(BytesLeq)
  {
    forall x, y ensures BytesLeq(x, y) || BytesLeq(y, x) {
      CompareAntisymmetric(x, y);
    }
    forall x, y, z | BytesLeq(x, y) && BytesLeq(y, z) ensures BytesLeq(x, z) {
      CompareTransitive(x, y, z);
    }
  }

  lemma BytesSeparate(s: seq<bytes>)
    ensures Separates(BytesLeq, s)
  {
    forall x, y | BytesLeq(x, y) && BytesLeq(y, x) ensures x == y {
      CompareAntisymmetric(x, y);
    }
  }
}
