/**
 The spool as the queue it stands for. A reading's name is its sequence number in twenty decimal digits, so byte order
 is numeric order, and with rising sequence numbers the directory is a bounded queue: Add keeps the newest, Take is the
 oldest prefix, Drop removes it.
 */
module SpoolQueue {
  import opened Bytes
  import opened Sorting
  import opened Decimal
  import opened Sequences
  import opened Spool

  const WIDTH: nat := 20

  function Name(n: nat): (s: bytes) {
    Digits(n, WIDTH) + JSON
  }

  /** Numeric order is byte order, so different numbers have different names. */
  lemma NameOrder(m: nat, n: nat)
    requires m < n < Pow10(WIDTH)
    ensures CompareBytes(Name(m), Name(n)) == -1 && Name(m) != Name(n)
  {
    DigitsOrder(m, n, WIDTH);
    CompareAppend(Digits(m, WIDTH), Digits(n, WIDTH), JSON, JSON);
  }

  /** A name's digits are the number. */
  lemma NameSaysNumber(n: nat)
    requires n < Pow10(WIDTH)
    ensures |Name(n)| == 25 && Name(n)[20..] == Ascii(".json")
    ensures AllDigits(Name(n)[..20]) && Value(Name(n)[..20]) == n
  {
    hide Digits, Ascii;
    JsonIs();
    ValueOfDigits(n, WIDTH);
    assert Name(n)[..WIDTH] == Digits(n, WIDTH) && Name(n)[WIDTH..] == JSON;
  }

  lemma NameIsReading(n: nat)
    ensures IsReading(Name(n)) && |Name(n)| == WIDTH + 5
  {
    assert Name(n)[|Name(n)| - 5..] == JSON;
  }

  // ---- the queue ------------------------------------------------------------------------------------------------

  datatype Item = Item(number: nat, data: bytes)

  ghost predicate Rising(q: seq<Item>) {
    (forall i, j | 0 <= i < j < |q| :: q[i].number < q[j].number) &&
    forall i | 0 <= i < |q| :: q[i].number < Pow10(WIDTH)
  }

  function ItemNames(q: seq<Item>): (r: seq<bytes>)
    ensures |r| == |q| && forall i | 0 <= i < |q| :: r[i] == Name(q[i].number)
  {
    if q == [] then [] else [Name(q[0].number)] + ItemNames(q[1..])
  }

  function Entries(q: seq<Item>): (r: seq<Entry>)
    ensures |r| == |q| && forall i | 0 <= i < |q| :: r[i] == Entry(Name(q[i].number), q[i].data)
  {
    if q == [] then [] else [Entry(Name(q[0].number), q[0].data)] + Entries(q[1..])
  }

  /** The directory that holds exactly these readings. */
  function DirOf(q: seq<Item>): Dir {
    if q == [] then map[] else DirOf(q[1..])[Name(q[0].number) := q[0].data]
  }

  lemma RisingNames(q: seq<Item>)
    requires Rising(q)
    ensures StrictlyAscending(ItemNames(q))
    ensures forall i, j | 0 <= i < j < |q| :: Name(q[i].number) != Name(q[j].number)
  {
    forall i, j | 0 <= i < j < |q|
      ensures CompareBytes(ItemNames(q)[i], ItemNames(q)[j]) == -1 && Name(q[i].number) != Name(q[j].number)
    {
      NameOrder(q[i].number, q[j].number);
    }
  }

  lemma {:induction false} DirOfKeys(q: seq<Item>)
    requires Rising(q)
    ensures forall n :: n in DirOf(q) <==> n in ItemNames(q)
    ensures forall i | 0 <= i < |q| :: Name(q[i].number) in DirOf(q) && DirOf(q)[Name(q[i].number)] == q[i].data
  {
    hide Name;
    if q != [] {
      RisingTail(q);
      DirOfKeys(q[1..]);
      RisingNames(q);
      forall i | 0 <= i < |q| ensures Name(q[i].number) in DirOf(q) && DirOf(q)[Name(q[i].number)] == q[i].data {
        if i > 0 {
          assert q[i] == q[1..][i - 1];
          assert Name(q[0].number) != Name(q[i].number);
        }
      }
    }
  }

  lemma RisingTail(q: seq<Item>)
    requires Rising(q) && q != []
    ensures Rising(q[1..])
  {
    assert forall i | 0 <= i < |q[1..]| :: q[1..][i] == q[i + 1];
  }

  lemma RisingDrop(q: seq<Item>, k: nat)
    requires Rising(q) && k <= |q|
    ensures Rising(q[k..]) && Rising(q[..k])
  {
    assert forall i | 0 <= i < |q[k..]| :: q[k..][i] == q[i + k];
  }

  /** Listing the directory gives the queue in order. */
  lemma NamesInOrder(q: seq<Item>)
    requires Rising(q)
    ensures Names(DirOf(q)) == ItemNames(q)
  {
    DirOfKeys(q);
    RisingNames(q);
    forall n ensures n in ItemNames(q) <==> n in Readings(DirOf(q)) {
      if n in ItemNames(q) {
        var i :| 0 <= i < |q| && ItemNames(q)[i] == n;
        NameIsReading(q[i].number);
      }
    }
    AscendingUnique(Readings(DirOf(q)), ItemNames(q));
  }

  /** Removing the oldest k leaves the rest of the queue. */
  lemma {:induction false} RemoveOldest(q: seq<Item>, k: nat)
    requires Rising(q) && k <= |q|
    ensures Without(DirOf(q), ItemNames(q[..k])) == DirOf(q[k..])
    decreases k
  {
    hide Name, Rising;
    if k == 0 {
      assert q[..0] == [] && q[0..] == q;
      WithoutNothing(DirOf(q));
    } else {
      var rest := q[1..];
      RisingTail(q);
      RemoveOldest(rest, k - 1);
      assert rest[k - 1..] == q[k..];
      assert q[..k] == [q[0]] + rest[..k - 1] && q[..k][1..] == rest[..k - 1];
      FirstNotLater(q);
      WithoutFirst(DirOf(rest), Name(q[0].number), q[0].data, ItemNames(rest[..k - 1]));
    }
  }

  lemma FirstNotLater(q: seq<Item>)
    requires Rising(q) && q != []
    ensures Name(q[0].number) !in DirOf(q[1..])
  {
    hide Name;
    RisingTail(q);
    DirOfKeys(q[1..]);
    RisingNames(q);
    var later := ItemNames(q[1..]);
    forall i | 0 <= i < |later| ensures later[i] != Name(q[0].number) {
      assert q[1..][i] == q[i + 1];
    }
  }

  lemma WithoutFirst(dir: Dir, n: bytes, data: bytes, names: seq<bytes>)
    requires n !in dir
    ensures Without(dir[n := data], [n] + names) == Without(dir, names)
  {
  }

  function First(q: seq<Item>, n: nat): seq<Item> {
    if |q| <= n then q else q[..n]
  }

  function Rest(q: seq<Item>, n: nat): seq<Item> {
    if |q| <= n then [] else q[n..]
  }

  /** A successful Add with a number above all others keeps the newest `max`. */
  lemma AddRefines(q: seq<Item>, max: nat, number: nat, data: bytes)
    requires Rising(q + [Item(number, data)])
    ensures Added(DirOf(q), max, Name(number), data, Fine) == DirOf(Newest(q + [Item(number, data)], max))
  {
    hide Rising, Name, DirOf, ItemNames, Without, Names;
    var p := q + [Item(number, data)];
    RisingDrop(p, |q|);
    assert p[..|q|] == q;
    NoTmp(q, number);
    DirOfSnoc(q, Item(number, data));
    assert (DirOf(q) - {Name(number) + TMP})[Name(number) := data] == DirOf(p);
    NamesInOrder(p);
    if |p| > max {
      var k := |p| - max;
      FirstNames(p, k);
      RemoveOldest(p, k);
    } else {
      WithoutNothing(DirOf(p));
    }
  }

  lemma FirstNames(q: seq<Item>, k: nat)
    requires k <= |q|
    ensures ItemNames(q)[..k] == ItemNames(q[..k])
  {
    hide Name;
  }

  lemma NoTmp(q: seq<Item>, number: nat)
    requires Rising(q)
    ensures Name(number) + TMP !in DirOf(q) && DirOf(q) - {Name(number) + TMP} == DirOf(q)
  {
    hide Name, DirOf, Rising, IsReading;
    DirOfKeys(q);
    NameIsReading(number);
    forall n | n in DirOf(q) ensures |n| == WIDTH + 5 {
      var i :| 0 <= i < |q| && ItemNames(q)[i] == n;
      NameIsReading(q[i].number);
    }
    assert |Name(number) + TMP| == WIDTH + 9;
  }

  lemma EndsDiffer(q: seq<Item>, x: Item)
    requires Rising(q + [x]) && q != []
    ensures Name(q[0].number) != Name(x.number)
  {
    hide Name;
    var p := q + [x];
    assert p[0] == q[0] && p[|q|] == x;
    NameOrder(p[0].number, p[|q|].number);
  }

  lemma {:induction false} DirOfSnoc(q: seq<Item>, x: Item)
    requires Rising(q + [x])
    ensures DirOf(q + [x]) == DirOf(q)[Name(x.number) := x.data]
  {
    hide Name, Rising;
    if q == [] {
      assert q + [x] == [x] && [x][1..] == [];
    } else {
      assert (q + [x])[1..] == q[1..] + [x] && (q + [x])[0] == q[0];
      RisingTail(q + [x]);
      EndsDiffer(q, x);
      DirOfSnoc(q[1..], x);
    }
  }

  predicate AllValid(valid: bytes -> bool, q: seq<Item>) {
    forall i | 0 <= i < |q| :: valid(q[i].data)
  }

  lemma {:induction false} TakeValid(q: seq<Item>, valid: bytes -> bool, dir: Dir)
    requires AllValid(valid, q)
    requires forall i | 0 <= i < |q| :: Name(q[i].number) in dir && dir[Name(q[i].number)] == q[i].data
    ensures forall n | n in ItemNames(q) :: n in dir
    ensures TakeFrom(dir, valid, {}, ItemNames(q)) == Taken(Entries(q), true, [])
  {
    hide Name;
    forall n | n in ItemNames(q) ensures n in dir {
      var i :| 0 <= i < |q| && ItemNames(q)[i] == n;
    }
    if q != [] {
      assert ItemNames(q)[1..] == ItemNames(q[1..]);
      forall i | 0 <= i < |q[1..]|
        ensures Name(q[1..][i].number) in dir && dir[Name(q[1..][i].number)] == q[1..][i].data && valid(q[1..][i].data)
      {
        assert q[1..][i] == q[i + 1];
      }
      TakeValid(q[1..], valid, dir);
    }
  }

  /** A Take is the oldest n readings, and removes nothing. */
  lemma TakeRefines(q: seq<Item>, valid: bytes -> bool, n: nat)
    requires Rising(q) && AllValid(valid, q)
    ensures TakenUp(DirOf(q), valid, n, true, {}) == Taken(Entries(First(q, n)), true, [])
  {
    hide Name, Rising, DirOf, ItemNames, TakeFrom, Names;
    NamesInOrder(q);
    DirOfKeys(q);
    var p := First(q, n);
    if |q| > n {
      FirstNames(q, n);
    }
    assert Oldest(DirOf(q), n) == ItemNames(p);
    TakeValid(p, valid, DirOf(q));
  }

  /** Dropping what was taken leaves the rest. */
  lemma DropRefines(q: seq<Item>, n: nat)
    requires Rising(q)
    ensures Without(DirOf(q), NamesOf(Entries(First(q, n)))) == DirOf(Rest(q, n))
  {
    hide Rising;
    var k := if |q| <= n then |q| else n;
    EntryNames(First(q, n));
    assert First(q, n) == q[..k] && Rest(q, n) == q[k..];
    RemoveOldest(q, k);
  }

  lemma {:induction false} EntryNames(q: seq<Item>)
    ensures NamesOf(Entries(q)) == ItemNames(q)
  {
    if q != [] {
      EntryNames(q[1..]);
      assert Entries(q)[1..] == Entries(q[1..]);
    }
  }

  // ---- damaged and unreadable files -----------------------------------------------------------------------------

  /** The names before the first that cannot be read. */
  function Readable(unreadable: set<bytes>, names: seq<bytes>): (r: seq<bytes>)
    ensures r <= names && (forall n | n in r :: n !in unreadable) && (r == names || names[|r|] in unreadable)
  {
    if names == [] || names[0] in unreadable then [] else [names[0]] + Readable(unreadable, names[1..])
  }

  /**
   A Take that meets no unreadable file gives those that are JSON, in order, with what is in them. One that does is an
   error and gives nothing. Either way the files that are no JSON, as far as it came, are removed.
   */
  lemma {:induction false} TakeSays(dir: Dir, valid: bytes -> bool, unreadable: set<bytes>, names: seq<bytes>)
    requires forall n | n in names :: n in dir
    ensures var t := TakeFrom(dir, valid, unreadable, names);
            (t.ok <==> forall n | n in names :: n !in unreadable) &&
            NamesOf(t.entries) == (if t.ok then Kept(n => n in dir && valid(dir[n]), names) else []) &&
            (forall e | e in t.entries :: e.name in dir && e.data == dir[e.name]) &&
            t.damaged == Kept(n => n in dir && !valid(dir[n]), Readable(unreadable, names))
  {
    if names != [] && names[0] !in unreadable {
      TakeSays(dir, valid, unreadable, names[1..]);
    }
  }
}
