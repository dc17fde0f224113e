/**
 internal/spool/spool.go: readings waiting to be delivered, one file each, in a directory whose names in byte order are
 their order in time. The directory is a map from name to bytes; what the file system may refuse is a parameter.
 */
module Spool {
  import opened Bytes
  import opened Sorting
  import opened Sequences

  type Dir = map<bytes, bytes>

  datatype Entry = Entry(name: bytes, data: bytes)

  const JSON: bytes := [46, 106, 115, 111, 110]  // .json
  const TMP: bytes := [46, 116, 109, 112]        // .tmp

  predicate EndsWith(name: bytes, suffix: bytes) {
    |suffix| <= |name| && name[|name| - |suffix|..] == suffix
  }

  predicate IsReading(name: bytes) {
    EndsWith(name, JSON)
  }

  lemma LastByte(name: bytes, suffix: bytes)
    ensures EndsWith(name, suffix) && suffix != [] ==> name[|name| - 1] == suffix[|suffix| - 1]
  {
    if EndsWith(name, suffix) && suffix != [] {
      assert name[|name| - |suffix|..][|suffix| - 1] == name[|name| - 1];
    }
  }

  lemma NotBoth(name: bytes)
    ensures !(IsReading(name) && EndsWith(name, TMP))
  {
    LastByte(name, JSON);
    LastByte(name, TMP);
  }

  lemma TmpIsNoReading(name: bytes)
    ensures !IsReading(name + TMP)
  {
    assert EndsWith(name + TMP, TMP);
    NotBoth(name + TMP);
  }

  /** A file is a reading exactly when its name is anything and then `.json`. */
  lemma ReadingNames(name: bytes)
    ensures IsReading(name) <==> exists stem: bytes :: name == stem + Ascii(".json")
  {
    hide Ascii;
    JsonIs();
    if IsReading(name) {
      assert name == name[..|name| - 5] + JSON;
    }
    if exists stem: bytes :: name == stem + JSON {
      var stem: bytes :| name == stem + JSON;
      assert name[|name| - 5..] == JSON;
    }
  }

  lemma JsonIs()
    ensures Ascii(".json") == JSON
  {
    assert Ascii("son") == [115, 111, 110];
  }

  /** The names of the readings. */
  function Readings(dir: Dir): set<bytes> {
    set n | n in dir && IsReading(n)
  }

  // ---- names in order -------------------------------------------------------------------------------------------

  predicate StrictlyAscending(r: seq<bytes>) {
    forall i, j | 0 <= i < j < |r| :: CompareBytes(r[i], r[j]) == -1
  }

  /** The elements of a set, in some order. */
  ghost function Listed(s: set<bytes>): (r: seq<bytes>)
    ensures multiset(r) == multiset(s)
    decreases |s|
  {
    if s == {} then []
    else
      var x :| x in s;
      assert s == s - {x} + {x};
      [x] + Listed(s - {x})
  }

  /** The elements of a set, in byte order. */
  ghost function Ascending(s: set<bytes>): (r: seq<bytes>)
    ensures multiset(r) == multiset(s)
  {
    Sort(BytesLeq, Listed(s))
  }

  lemma AscendingMeans(s: set<bytes>)
    ensures StrictlyAscending(Ascending(s)) && |Ascending(s)| == |s|
    ensures forall x :: x in Ascending(s) <==> x in s
  {
    var r := Ascending(s);
    BytesOrder();
    SortSorted(BytesLeq, Listed(s));
    assert |multiset(r)| == |r| && |multiset(s)| == |s|;
    forall x ensures x in r <==> x in s {
      assert x in r <==> x in multiset(r);
    }
    forall i, j | 0 <= i < j < |r| ensures CompareBytes(r[i], r[j]) == -1 {
      assert BytesLeq(r[i], r[j]);
      SameTwice(r, i, j);
      assert multiset(s)[r[i]] <= 1;
    }
  }

  /** Only one strictly ascending sequence has these elements. */
  lemma AscendingUnique(s: set<bytes>, r: seq<bytes>)
    requires StrictlyAscending(r) && forall x :: x in r <==> x in s
    ensures r == Ascending(s)
  {
    DistinctIsSet(s, r);
    BytesOrder();
    BytesSeparate(r);
    SortSorted(BytesLeq, Listed(s));
    SortedUnique(BytesLeq, r, Ascending(s));
  }

  // ---- what each operation does to the directory ----------------------------------------------------------------

  ghost function Names(dir: Dir): seq<bytes> {
    Ascending(Readings(dir))
  }

  ghost function Oldest(dir: Dir, n: nat): seq<bytes> {
    if |Names(dir)| <= n then Names(dir) else Names(dir)[..n]
  }

  /** The names trim removes: the oldest past the limit. */
  ghost function Excess(dir: Dir, max: nat): seq<bytes> {
    if |Names(dir)| <= max then [] else Names(dir)[..|Names(dir)| - max]
  }

  function Without(dir: Dir, names: seq<bytes>): Dir {
    map n | n in dir && n !in names :: dir[n]
  }

  /** How an Add can end: the reading is not encoded, not written, not renamed, not trimmed for, or all is well. */
  datatype AddFault = NoEncoding | NoWrite | NoRename | NoListing | Fine

  ghost function Added(dir: Dir, max: nat, name: bytes, body: bytes, fault: AddFault): Dir {
    match fault
    case NoEncoding => dir
    case NoWrite => dir - {name + TMP}
    case NoRename => dir - {name + TMP}
    case NoListing => (dir - {name + TMP})[name := body]
    case Fine => Without((dir - {name + TMP})[name := body], Excess((dir - {name + TMP})[name := body], max))
  }

  /** Whether the reading is in the directory afterwards, trimming aside. */
  predicate Commits(fault: AddFault) {
    fault.Fine? || fault.NoListing?
  }

  /** No Add that gets as far as writing leaves a half-written file behind, however it ends. */
  lemma NoHalfFile(dir: Dir, max: nat, name: bytes, body: bytes, fault: AddFault)
    ensures !fault.NoEncoding? ==> name + TMP !in Added(dir, max, name, body, fault)
    ensures fault.NoEncoding? ==> Added(dir, max, name, body, fault) == dir
  {
    assert name + TMP != name;
  }

  /** What a Take finds: readings with their data, or an error; damaged readings before that point are removed. */
  datatype Taken = Taken(entries: seq<Entry>, ok: bool, damaged: seq<bytes>)

  function TakeFrom(dir: Dir, valid: bytes -> bool, unreadable: set<bytes>, names: seq<bytes>): (t: Taken)
    requires forall n | n in names :: n in dir
    ensures !t.ok ==> t.entries == []
  {
    if names == [] then Taken([], true, [])
    else if names[0] in unreadable then Taken([], false, [])
    else
      var rest := TakeFrom(dir, valid, unreadable, names[1..]);
      if valid(dir[names[0]]) then
        Taken(if rest.ok then [Entry(names[0], dir[names[0]])] + rest.entries else [], rest.ok, rest.damaged)
      else rest.(damaged := [names[0]] + rest.damaged)
  }

  lemma OldestInDir(dir: Dir, n: nat)
    ensures forall x | x in Oldest(dir, n) :: x in dir && IsReading(x)
  {
    AscendingMeans(Readings(dir));
    forall x | x in Oldest(dir, n) ensures x in dir && IsReading(x) {
      assert x in Names(dir);
    }
  }

  /** A Take whose directory can be listed or not. */
  ghost function TakenUp(dir: Dir, valid: bytes -> bool, n: nat, listed: bool, unreadable: set<bytes>): Taken {
    OldestInDir(dir, n);
    if listed then TakeFrom(dir, valid, unreadable, Oldest(dir, n)) else Taken([], false, [])
  }

  function NamesOf(entries: seq<Entry>): seq<bytes> {
    if entries == [] then [] else [entries[0].name] + NamesOf(entries[1..])
  }

  class Store {
    const max: nat
    const valid: bytes -> bool
    var dir: Dir

    /** Opening a spool sweeps away what a previous run left half written. */
    constructor (files: Dir, limit: nat, validJson: bytes -> bool)
      ensures max == limit && valid == validJson
      ensures dir == map n | n in files && !EndsWith(n, TMP) :: files[n]
      ensures forall n | n in files && IsReading(n) :: n in dir && dir[n] == files[n]
    {
      max, valid := limit, validJson;
      dir := map n | n in files && !EndsWith(n, TMP) :: files[n];
      new;
      forall n | n in files && IsReading(n) ensures !EndsWith(n, TMP) {
        NotBoth(n);
      }
    }

    method List() returns (names: seq<bytes>)
      ensures names == Names(dir)
    {
      var left := Readings(dir);
      var found: seq<bytes> := [];
      while left != {}
        invariant left <= Readings(dir)
        invariant multiset(found) + multiset(left) == multiset(Readings(dir))
        decreases |left|
      {
        var n :| n in left;
        assert left == left - {n} + {n};
        found := found + [n];
        left := left - {n};
      }
      names := Sort(BytesLeq, found);
      BytesOrder();
      BytesSeparate(found);
      SortIgnoresOrder(BytesLeq, found, Listed(Readings(dir)));
    }

    method Trim()
      modifies this
      ensures dir == Without(old(dir), Excess(old(dir), max))
    {
      var names := List();
      hide Without;
      ghost var was := dir;
      var i := 0;
      WithoutNothing(was);
      assert names[..0] == [];
      while i < |names| - max
        invariant 0 <= i && (i <= |names| - max || i == 0)
        invariant dir == Without(was, names[..i])
      {
        assert names[..i + 1] == names[..i] + [names[i]];
        WithoutOne(was, names[..i], names[i]);
        dir := dir - {names[i]};
        i := i + 1;
      }
    }

    method Add(name: bytes, body: bytes, fault: AddFault) returns (ok: bool)
      modifies this
      ensures dir == Added(old(dir), max, name, body, fault)
      ensures ok <==> fault.Fine?
    {
      if fault.NoEncoding? {
        return false;
      }
      var tmp := name + TMP;
      if fault.NoWrite? {
        dir := dir - {tmp};
        return false;
      }
      dir := dir[tmp := body];
      if fault.NoRename? {
        dir := dir - {tmp};
        assert dir == old(dir) - {tmp};
        return false;
      }
      assert tmp != name by { assert |tmp| == |name| + 4; }
      dir := (dir - {tmp})[name := body];
      assert dir == (old(dir) - {tmp})[name := body];
      if fault.NoListing? {
        return false;
      }
      Trim();
      ok := true;
    }

    /** Up to n readings, oldest first. Nothing is removed but readings that are not JSON. */
    method Take(n: nat, listed: bool, unreadable: set<bytes>) returns (entries: seq<Entry>, ok: bool)
      modifies this
      ensures var t := TakenUp(old(dir), valid, n, listed, unreadable);
              entries == t.entries && ok == t.ok && dir == Without(old(dir), t.damaged)
    {
      hide TakeFrom;
      if !listed {
        assert dir == Without(dir, []);
        return [], false;
      }
      var names := List();
      if |names| > n {
        names := names[..n];
      }
      OldestInDir(dir, n);
      OldestDiffer(dir, n);
      ghost var damaged;
      entries, ok, damaged := TakeNames(names, unreadable);
    }

    method TakeNames(names: seq<bytes>, unreadable: set<bytes>)
      returns (entries: seq<Entry>, ok: bool, ghost damaged: seq<bytes>)
      requires (forall x | x in names :: x in dir) && forall i, k | 0 <= i < k < |names| :: names[i] != names[k]
      modifies this
      ensures Taken(entries, ok, damaged) == TakeFrom(old(dir), valid, unreadable, names)
      ensures dir == Without(old(dir), damaged)
    {
      hide TakeFrom, Without;
      ghost var was := dir;
      entries, ok, damaged := [], false, [];
      var i := 0;
      PrependNothing(TakeFrom(was, valid, unreadable, names));
      WithoutNothing(was);
      assert names[0..] == names;
      while i < |names|
        invariant 0 <= i <= |names|
        invariant dir == Without(was, damaged) && forall k | i <= k < |names| :: names[k] !in damaged
        invariant TakeFrom(was, valid, unreadable, names)
                  == Prepend(entries, damaged, TakeFrom(was, valid, unreadable, names[i..]))
      {
        WithoutOne(was, damaged, names[i]);
        TakeStep(was, valid, unreadable, names, i, entries, damaged);
        if names[i] in unreadable {
          return [], false, damaged;
        }
        var body := dir[names[i]];
        if !valid(body) {
          dir := dir - {names[i]};
          damaged := damaged + [names[i]];
        } else {
          entries := entries + [Entry(names[i], body)];
        }
        i := i + 1;
      }
      TakeNothing(was, valid, unreadable, names[i..]);
      assert entries + [] == entries && damaged + [] == damaged;
      ok := true;
    }

    /** Removes readings that have been answered. */
    method Drop(entries: seq<Entry>)
      modifies this
      ensures dir == Without(old(dir), NamesOf(entries))
    {
      ghost var was := dir;
      var i := 0;
      assert dir == Without(was, NamesOf(entries[..0]));
      while i < |entries|
        invariant 0 <= i <= |entries|
        invariant dir == Without(was, NamesOf(entries[..i]))
      {
        NamesOfSnoc(entries[..i], entries[i]);
        assert entries[..i + 1] == entries[..i] + [entries[i]];
        dir := dir - {entries[i].name};
        i := i + 1;
      }
      assert entries[..i] == entries;
    }
  }

  ghost function Prepend(entries: seq<Entry>, damaged: seq<bytes>, rest: Taken): Taken {
    Taken(if rest.ok then entries + rest.entries else [], rest.ok, damaged + rest.damaged)
  }

  lemma WithoutNothing(dir: Dir)
    ensures Without(dir, []) == dir
  {
  }

  lemma WithoutOne(dir: Dir, names: seq<bytes>, n: bytes)
    ensures Without(dir, names + [n]) == Without(dir, names) - {n}
    ensures n in dir && n !in names ==> n in Without(dir, names) && Without(dir, names)[n] == dir[n]
  {
  }

  lemma PrependNothing(t: Taken)
    requires !t.ok ==> t.entries == []
    ensures Prepend([], [], t) == t
  {
    assert [] + t.entries == t.entries && [] + t.damaged == t.damaged;
  }

  lemma TakeNothing(dir: Dir, valid: bytes -> bool, unreadable: set<bytes>, names: seq<bytes>)
    requires names == []
    ensures TakeFrom(dir, valid, unreadable, names) == Taken([], true, [])
  {
  }

  /** One name of a Take, after some entries and some damaged readings. */
  lemma TakeStep(dir: Dir, valid: bytes -> bool, unreadable: set<bytes>, names: seq<bytes>, i: nat, entries: seq<Entry>,
                 damaged: seq<bytes>)
    requires i < |names| && forall n | n in names :: n in dir
    ensures var all := Prepend(entries, damaged, TakeFrom(dir, valid, unreadable, names[i..]));
            var rest := TakeFrom(dir, valid, unreadable, names[i + 1..]);
            if names[i] in unreadable then all == Taken([], false, damaged)
            else if valid(dir[names[i]]) then all == Prepend(entries + [Entry(names[i], dir[names[i]])], damaged, rest)
            else all == Prepend(entries, damaged + [names[i]], rest)
  {
    assert names[i..][0] == names[i] && names[i..][1..] == names[i + 1..];
    var rest := TakeFrom(dir, valid, unreadable, names[i + 1..]);
    var e := Entry(names[i], dir[names[i]]);
    assert entries + ([e] + rest.entries) == entries + [e] + rest.entries;
    assert damaged + ([names[i]] + rest.damaged) == damaged + [names[i]] + rest.damaged;
    assert damaged + [] == damaged;
  }

  lemma OldestDiffer(dir: Dir, n: nat)
    ensures forall i, k | 0 <= i < k < |Oldest(dir, n)| :: Oldest(dir, n)[i] != Oldest(dir, n)[k]
  {
    AscendingMeans(Readings(dir));
    forall i, k | 0 <= i < k < |Oldest(dir, n)| ensures Oldest(dir, n)[i] != Oldest(dir, n)[k] {
      assert CompareBytes(Names(dir)[i], Names(dir)[k]) == -1;
    }
  }

  lemma {:induction false} NamesOfSnoc(entries: seq<Entry>, e: Entry)
    ensures NamesOf(entries + [e]) == NamesOf(entries) + [e.name]
  {
    if entries == [] {
      assert entries + [e] == [e] && [e][1..] == [];
    } else {
      assert (entries + [e])[1..] == entries[1..] + [e];
      NamesOfSnoc(entries[1..], e);
    }
  }
}
