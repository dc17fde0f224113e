/**
 internal/journal/journal.go: how many errors and warnings each unit logged in an hour, and how many logins were
 refused, over several journal files, newest first, within a bound on the entries read.
 */
module JournalCount {
  import opened Options
  import opened Bytes
  import opened JournalBlocks
  import opened JournalFormat
  import opened JournalFile
  import opened JournalReads
  import opened Sorting

  const MAX_UNITS: nat := 20
  const HOUR: int := 3_600_000_000

  /** What loginunit and authfail.go decide: the name a unit is sent under, and whether a line is a refused login. */
  datatype Rules = Rules(reported: bytes -> bytes, refusal: (bytes, bytes) -> bool)

  datatype Tally = Tally(counts: map<bytes, Count>, refused: nat)
  datatype Count = Count(errors: nat, warnings: nat)

  /** What one entry adds to a count, whichever hour is being counted. */
  datatype Fact = Fact(at: int, unit: Option<bytes>, error: bool, refused: bool)

  function FactOf(rules: Rules, j: Journal, e: Entry): Fact {
    Fact(e.at,
         if e.unit == [] || e.priority < 0 || e.priority > 4 then None else Some(rules.reported(e.unit)),
         e.priority <= 3,
         (e.facility == 4 || e.facility == 10) && rules.refusal(e.identifier, MessageOf(j, e).0))
  }

  function Bump(counts: map<bytes, Count>, unit: bytes, error: bool): map<bytes, Count> {
    var c := if unit in counts then counts[unit] else Count(0, 0);
    counts[unit := if error then c.(errors := c.errors + 1) else c.(warnings := c.warnings + 1)]
  }

  function AddFact(t: Tally, f: Fact, end: int): Tally {
    if f.at >= end then t
    else
      Tally(if f.unit.Some? then Bump(t.counts, f.unit.value, f.error) else t.counts,
            if f.refused then t.refused + 1 else t.refused)
  }

  /** What the walk does with one entry. It never asks to stop. */
  function CountEntry(rules: Rules, j: Journal, end: int, t: Tally, e: Entry): (Tally, bool) {
    (AddFact(t, FactOf(rules, j, e), end), true)
  }

  function Counter(rules: Rules, j: Journal, end: int): (Tally, Entry) -> (Tally, bool) {
    (t, e) => CountEntry(rules, j, end, t, e)
  }

  /** One file's part of the count, after `scanned` entries of others. */
  function WalkFile(rules: Rules, j: GoodJournal, hour: int, scanned: nat, t: Tally): (nat, Tally)
    requires scanned < MAX_SCAN
  {
    Walk(j, hour, MAX_SCAN - scanned, Counter(rules, j, hour + HOUR), 0, t)
  }

  function CountFiles(rules: Rules, js: seq<GoodJournal>, hour: int, scanned: nat, t: Tally): (Tally, nat, bool)
    decreases |js|
  {
    if js == [] then (t, scanned, scanned >= MAX_SCAN)
    else if scanned >= MAX_SCAN then (t, scanned, true)
    else if Past(js[0], hour) then CountFiles(rules, js[1..], hour, scanned, t)
    else
      var (n, next) := WalkFile(rules, js[0], hour, scanned, t);
      CountFiles(rules, js[1..], hour, scanned + n, next)
  }

  const NOTHING := Tally(map[], 0)

  // ---- the report -----------------------------------------------------------------------------------------------

  datatype UnitCount = UnitCount(unit: bytes, count: Count)

  datatype Hourly = Hourly(hour: int, units: seq<UnitCount>, more: nat, partial: bool, refused: nat)

  /** More errors first, then more warnings, then by name. */
  predicate Louder(a: UnitCount, b: UnitCount) {
    a.count.errors > b.count.errors ||
    (a.count.errors == b.count.errors &&
     (a.count.warnings > b.count.warnings ||
      (a.count.warnings == b.count.warnings && BytesLeq(a.unit, b.unit))))
  }

  lemma LouderOrders()
    ensures Orders(Louder)
  {
    BytesOrder();
  }

  /** Every counted unit once, loudest first. */
  ghost predicate Ranking(counts: map<bytes, Count>, all: seq<UnitCount>) {
    SortedBy(Louder, all) && Lists(counts, counts.Keys, all)
  }

  /** The list holds these units once each, with their counts. */
  ghost predicate Lists(counts: map<bytes, Count>, units: set<bytes>, list: seq<UnitCount>) {
    (forall i | 0 <= i < |list| ::
       list[i].unit in units && list[i].unit in counts && counts[list[i].unit] == list[i].count) &&
    (forall u | u in units :: u in counts && UnitCount(u, counts[u]) in list) &&
    |list| == |units|
  }

  lemma ListsSorted(counts: map<bytes, Count>, list: seq<UnitCount>)
    requires Lists(counts, counts.Keys, list)
    ensures Ranking(counts, Sort(Louder, list))
  {
    var r := Sort(Louder, list);
    LouderOrders();
    SortSorted(Louder, list);
    forall x ensures x in r <==> x in list {
      assert x in r <==> x in multiset(r);
      assert x in list <==> x in multiset(list);
    }
    forall i | 0 <= i < |r|
      ensures r[i].unit in counts && counts[r[i].unit] == r[i].count
    {
      assert r[i] in list;
    }
  }

  method RankUnits(counts: map<bytes, Count>) returns (units: seq<UnitCount>, more: nat)
    ensures exists all :: Ranking(counts, all) && units == all[..Min(|all|, 20)] && more == |all| - |units|
  {
    hide Lists, SortedBy;
    var left := counts.Keys;
    var list: seq<UnitCount> := [];
    ListsNothing(counts, counts.Keys - left);
    while left != {}
      invariant left <= counts.Keys && Lists(counts, counts.Keys - left, list)
      decreases |left|
    {
      var u :| u in left;
      ListsExtend(counts, counts.Keys - left, list, u);
      assert counts.Keys - (left - {u}) == counts.Keys - left + {u};
      list := list + [UnitCount(u, counts[u])];
      left := left - {u};
    }
    assert counts.Keys - left == counts.Keys;
    ListsSorted(counts, list);
    units, more := Sort(Louder, list), 0;
    ghost var all := units;
    if |units| > MAX_UNITS {
      more := |units| - MAX_UNITS;
      units := units[..MAX_UNITS];
    }
  }

  lemma ListsNothing(counts: map<bytes, Count>, done: set<bytes>)
    requires done == {}
    ensures Lists(counts, done, [])
  {
  }

  lemma ListsExtend(counts: map<bytes, Count>, done: set<bytes>, list: seq<UnitCount>, u: bytes)
    requires Lists(counts, done, list) && u in counts && u !in done
    ensures Lists(counts, done + {u}, list + [UnitCount(u, counts[u])])
  {
    var r := list + [UnitCount(u, counts[u])];
    assert r[|list|] == UnitCount(u, counts[u]);
    forall v | v in done ensures UnitCount(v, counts[v]) in r {
      assert UnitCount(v, counts[v]) in list;
    }
  }

  /** Counts one hour over the files, newest first. */
  method CountHour(rules: Rules, js: seq<GoodJournal>, hour: int) returns (r: Hourly, ghost tally: Tally)
    ensures tally == CountFiles(rules, js, hour, 0, NOTHING).0 && r.partial == CountFiles(rules, js, hour, 0, NOTHING).2
    ensures r.refused == tally.refused && r.hour == hour
    ensures exists all :: Ranking(tally.counts, all) && r.units == all[..Min(|all|, 20)]
                          && r.more == |all| - |r.units|
  {
    hide CountFiles, WalkFile;
    var counted := NOTHING;
    var scanned: nat := 0;
    var partial := false;
    var i := 0;
    while i < |js|
      invariant 0 <= i <= |js|
      invariant partial == (scanned >= MAX_SCAN)
      invariant CountFiles(rules, js, hour, 0, NOTHING) == CountFiles(rules, js[i..], hour, scanned, counted)
    {
      FilesStep(rules, js[i..], hour, scanned, counted);
      assert js[i..][1..] == js[i + 1..];
      if scanned >= MAX_SCAN {
        partial := true;
        break;
      }
      if !Past(js[i], hour) {
        var f := new File(js[i]);
        counted := CountFile(rules, f, hour, scanned, counted);
        scanned := scanned + f.entriesScanned;
        if scanned >= MAX_SCAN {
          partial := true;
        }
      }
      i := i + 1;
    }
    FilesStep(rules, js[i..], hour, scanned, counted);
    tally := counted;
    var units, more := RankUnits(counted.counts);
    r := Hourly(hour, units, more, partial, counted.refused);
  }

  method CountFile(rules: Rules, f: File, hour: int, scanned: nat, t: Tally) returns (next: Tally)
    requires f.Valid() && f.entriesScanned == 0 && scanned < MAX_SCAN
    modifies f`entriesScanned, f`fields, f.reader
    ensures f.Valid() && (f.entriesScanned, next) == WalkFile(rules, f.journal, hour, scanned, t)
  {
    hide Counter, Walk;
    next := f.Backward(hour, MAX_SCAN - scanned, Counter(rules, f.journal, hour + HOUR), t);
  }

  lemma FilesStep(rules: Rules, js: seq<GoodJournal>, hour: int, scanned: nat, t: Tally)
    ensures js == [] ==> CountFiles(rules, js, hour, scanned, t) == (t, scanned, scanned >= MAX_SCAN)
    ensures scanned >= MAX_SCAN ==> CountFiles(rules, js, hour, scanned, t) == (t, scanned, true)
    ensures js != [] && scanned < MAX_SCAN && Past(js[0], hour) ==>
              CountFiles(rules, js, hour, scanned, t) == CountFiles(rules, js[1..], hour, scanned, t)
    ensures js != [] && scanned < MAX_SCAN && !Past(js[0], hour) ==>
              CountFiles(rules, js, hour, scanned, t) ==
                CountFiles(rules, js[1..], hour, scanned + WalkFile(rules, js[0], hour, scanned, t).0,
                           WalkFile(rules, js[0], hour, scanned, t).1)
  {
    hide WalkFile;
  }

  // ---- exactness ------------------------------------------------------------------------------------------------

  /** What these entries of a file add. */
  function FactsOf(rules: Rules, j: Journal, es: seq<Entry>): seq<Fact> {
    if es == [] then [] else [FactOf(rules, j, es[0])] + FactsOf(rules, j, es[1..])
  }

  /** Every readable entry, in whatever file. */
  function AllFacts(rules: Rules, js: seq<GoodJournal>): seq<Fact> {
    if js == [] then [] else FactsOf(rules, js[0], Entries(js[0])) + AllFacts(rules, js[1..])
  }

  /** One file's part of what there is to read for the hour. */
  function FileFacts(rules: Rules, j: GoodJournal, hour: int): seq<Fact> {
    if Past(j, hour) then [] else FactsOf(rules, j, UpTo(Entries(j), hour))
  }

  /** The entries that would be read for the hour without a bound, newest file first. */
  function HourFacts(rules: Rules, js: seq<GoodJournal>, hour: int): seq<Fact> {
    if js == [] then [] else FileFacts(rules, js[0], hour) + HourFacts(rules, js[1..], hour)
  }

  predicate InHour(f: Fact, hour: int) {
    hour <= f.at < hour + HOUR
  }

  /** How many facts of the hour are a unit's errors, or its warnings; and how many are refusals. */
  function Tallied(fs: seq<Fact>, hour: int, unit: bytes, error: bool): nat {
    if fs == [] then 0
    else
      (if InHour(fs[0], hour) && fs[0].unit == Some(unit) && fs[0].error == error then 1 else 0)
      + Tallied(fs[1..], hour, unit, error)
  }

  function Refusals(fs: seq<Fact>, hour: int): nat {
    if fs == [] then 0 else (if InHour(fs[0], hour) && fs[0].refused then 1 else 0) + Refusals(fs[1..], hour)
  }

  /** The tally says of the hour exactly what these facts say. */
  ghost predicate Exact(t: Tally, fs: seq<Fact>, hour: int) {
    t.refused == Refusals(fs, hour) &&
    forall u: bytes ::
      (u in t.counts <==> Tallied(fs, hour, u, true) + Tallied(fs, hour, u, false) > 0) &&
      (u in t.counts ==> t.counts[u] == Count(Tallied(fs, hour, u, true), Tallied(fs, hour, u, false)))
  }

  lemma {:induction false} TalliedAppend(fs: seq<Fact>, gs: seq<Fact>, hour: int, unit: bytes, error: bool)
    ensures Tallied(fs + gs, hour, unit, error) == Tallied(fs, hour, unit, error) + Tallied(gs, hour, unit, error)
    ensures Refusals(fs + gs, hour) == Refusals(fs, hour) + Refusals(gs, hour)
  {
    if fs == [] {
      assert fs + gs == gs;
    } else {
      assert (fs + gs)[1..] == fs[1..] + gs;
      TalliedAppend(fs[1..], gs, hour, unit, error);
    }
  }

  lemma AddFactExact(t: Tally, fs: seq<Fact>, f: Fact, hour: int)
    requires Exact(t, fs, hour) && f.at >= hour
    ensures Exact(AddFact(t, f, hour + HOUR), fs + [f], hour)
  {
    hide AddFact;
    assert [f][1..] == [];
    forall u, error ensures Tallied(fs + [f], hour, u, error)
        == Tallied(fs, hour, u, error) + (if InHour(f, hour) && f.unit == Some(u) && f.error == error then 1 else 0) {
      TalliedAppend(fs, [f], hour, u, error);
      assert Tallied([f], hour, u, error) == (if InHour(f, hour) && f.unit == Some(u) && f.error == error then 1 else 0)
        + Tallied([], hour, u, error);
    }
    TalliedAppend(fs, [f], hour, [], true);
    assert Refusals([f], hour) == (if InHour(f, hour) && f.refused then 1 else 0) + Refusals([], hour);
    AddFactCounts(t, fs, fs + [f], f, hour);
  }

  lemma AddFactCounts(t: Tally, fs: seq<Fact>, gs: seq<Fact>, f: Fact, hour: int)
    requires Exact(t, fs, hour) && f.at >= hour
    requires forall u, error ::
               Tallied(gs, hour, u, error) ==
                 Tallied(fs, hour, u, error) +
                   (if InHour(f, hour) && f.unit == Some(u) && f.error == error then 1 else 0)
    requires Refusals(gs, hour) == Refusals(fs, hour) + if InHour(f, hour) && f.refused then 1 else 0
    ensures Exact(AddFact(t, f, hour + HOUR), gs, hour)
  {
    hide Tallied, Refusals, Bump;
    var s := AddFact(t, f, hour + HOUR);
    forall u: bytes
      ensures u in s.counts <==> Tallied(gs, hour, u, true) + Tallied(gs, hour, u, false) > 0
      ensures u in s.counts ==> s.counts[u] == Count(Tallied(gs, hour, u, true), Tallied(gs, hour, u, false))
    {
      if f.unit.Some? {
        BumpOne(t.counts, f.unit.value, f.error, u);
      }
    }
  }

  lemma BumpOne(counts: map<bytes, Count>, unit: bytes, error: bool, u: bytes)
    ensures var more := Bump(counts, unit, error);
            var c := if u in counts then counts[u] else Count(0, 0);
            (u in more <==> u in counts || u == unit) &&
            (u in more ==>
               more[u]
                 == if u != unit then c
                    else if error then Count(c.errors + 1, c.warnings)
                    else Count(c.errors, c.warnings + 1))
  {
  }

  /** Facts from before the hour say nothing about it. */
  lemma {:induction false} OlderIsNothing(fs: seq<Fact>, gs: seq<Fact>, t: Tally, hour: int)
    requires Exact(t, fs, hour) && forall i | 0 <= i < |gs| :: gs[i].at < hour
    ensures Exact(t, fs + gs, hour)
  {
    forall u, error ensures Tallied(fs + gs, hour, u, error) == Tallied(fs, hour, u, error) {
      TalliedAppend(fs, gs, hour, u, error);
      OlderZero(gs, hour, u, error);
    }
    TalliedAppend(fs, gs, hour, [], true);
    OlderZero(gs, hour, [], true);
  }

  lemma {:induction false} OlderZero(gs: seq<Fact>, hour: int, u: bytes, error: bool)
    requires forall i | 0 <= i < |gs| :: gs[i].at < hour
    ensures Tallied(gs, hour, u, error) == 0 && Refusals(gs, hour) == 0
  {
    if gs != [] {
      OlderZero(gs[1..], hour, u, error);
    }
  }

  lemma FactTime(rules: Rules, j: Journal, e: Entry)
    ensures FactOf(rules, j, e).at == e.at
  {
  }

  lemma FactsCons(rules: Rules, j: Journal, e: Entry, es: seq<Entry>)
    ensures FactsOf(rules, j, [e] + es) == [FactOf(rules, j, e)] + FactsOf(rules, j, es)
  {
    assert ([e] + es)[1..] == es;
  }

  /** Entries handed over one by one are counted up to the first too old, and that one counts nothing. */
  lemma {:induction false} FeedCounts(rules: Rules, j: Journal, hour: int, es: seq<Entry>, t: Tally, fs: seq<Fact>)
    requires Exact(t, fs, hour)
    ensures var (n, next) := Feed(hour, Counter(rules, j, hour + HOUR), t, es);
            n == |UpTo(es, hour)| && Exact(next, fs + FactsOf(rules, j, UpTo(es, hour)), hour)
  {
    hide Exact, FactOf, AddFact, FactsOf;
    if es == [] {
      assert fs + FactsOf(rules, j, []) == fs by { FactsNone(rules, j); }
    } else {
      var e, f, rest := es[0], FactOf(rules, j, es[0]), es[1..];
      FactTime(rules, j, e);
      if e.at < hour {
        assert FactsOf(rules, j, [e]) == [f] by { FactsOne(rules, j, e); }
        OlderIsNothing(fs, [f], t, hour);
      } else {
        var next := AddFact(t, f, hour + HOUR);
        AddFactExact(t, fs, f, hour);
        FeedCounts(rules, j, hour, rest, next, fs + [f]);
        FactsCons(rules, j, e, UpTo(rest, hour));
        assert fs + [f] + FactsOf(rules, j, UpTo(rest, hour)) == fs + ([f] + FactsOf(rules, j, UpTo(rest, hour)));
      }
    }
  }

  lemma FactsNone(rules: Rules, j: Journal)
    ensures FactsOf(rules, j, []) == []
  {
  }

  lemma FactsOne(rules: Rules, j: Journal, e: Entry)
    ensures FactsOf(rules, j, [e]) == [FactOf(rules, j, e)]
  {
  }

  lemma {:induction false} FactsOfFirst(rules: Rules, j: Journal, es: seq<Entry>, n: nat)
    ensures |FactsOf(rules, j, es)| == |es| && FactsOf(rules, j, First(es, n)) == First(FactsOf(rules, j, es), n)
  {
    hide FactOf;
    if es != [] {
      var f, rest := FactOf(rules, j, es[0]), es[1..];
      assert es == [es[0]] + rest;
      FirstCons(f, FactsOf(rules, j, rest), n);
      FirstCons(es[0], rest, n);
      if n > 0 {
        FactsOfFirst(rules, j, rest, n - 1);
        FactsCons(rules, j, es[0], First(rest, n - 1));
      } else {
        FactsOfFirst(rules, j, rest, 0);
      }
    }
  }

  lemma FileCounts(rules: Rules, j: GoodJournal, hour: int, scanned: nat, t: Tally, fs: seq<Fact>)
    requires scanned < MAX_SCAN && !Past(j, hour) && Exact(t, fs, hour)
    ensures var (n, next) := WalkFile(rules, j, hour, scanned, t);
            var seen := First(FileFacts(rules, j, hour), MAX_SCAN - scanned);
            n == |seen| && Exact(next, fs + seen, hour)
  {
    hide Exact, FactsOf, Walk, Entries, First, UpTo, Feed, Counter;
    var limit := MAX_SCAN - scanned;
    WalkFeeds(j, hour, limit, Counter(rules, j, hour + HOUR), t);
    FeedCounts(rules, j, hour, First(Entries(j), limit), t, fs);
    UpToFirst(Entries(j), hour, limit);
    FactsOfFirst(rules, j, UpTo(Entries(j), hour), limit);
    FactsOfFirst(rules, j, First(UpTo(Entries(j), hour), limit), 0);
  }

  /** Over all files, exactly the first MAX_SCAN of what there is to read are counted. */
  lemma {:induction false} FilesCount(rules: Rules, js: seq<GoodJournal>, hour: int, scanned: nat, t: Tally,
                                      fs: seq<Fact>)
    requires scanned <= MAX_SCAN && Exact(t, fs, hour)
    ensures var (total, n, partial) := CountFiles(rules, js, hour, scanned, t);
            var seen := First(HourFacts(rules, js, hour), MAX_SCAN - scanned);
            n == scanned + |seen| && Exact(total, fs + seen, hour) && (partial <==> n == MAX_SCAN)
    decreases |js|
  {
    hide Exact, WalkFile, FileFacts, Past, CountFiles, HourFacts, First;
    FilesStep(rules, js, hour, scanned, t);
    FirstNone(HourFacts(rules, js, hour), MAX_SCAN - scanned);
    assert fs + [] == fs;
    HourStep(rules, js, hour);
    if js != [] && scanned < MAX_SCAN {
      var j := js[0];
      var own, later, limit := FileFacts(rules, j, hour), HourFacts(rules, js[1..], hour), MAX_SCAN - scanned;
      FirstOfTwo(own, later, limit);
      FirstLength(own, limit);
      if Past(j, hour) {
        FirstNone(own, limit);
        assert [] + First(later, limit) == First(later, limit);
        FilesCount(rules, js[1..], hour, scanned, t, fs);
      } else {
        var (n, next) := WalkFile(rules, j, hour, scanned, t);
        FileCounts(rules, j, hour, scanned, t, fs);
        FilesCount(rules, js[1..], hour, scanned + n, next, fs + First(own, limit));
        assert fs + First(own, limit) + First(later, limit - n) == fs + (First(own, limit) + First(later, limit - n));
      }
    }
  }

  lemma HourStep(rules: Rules, js: seq<GoodJournal>, hour: int)
    ensures js == [] ==> HourFacts(rules, js, hour) == []
    ensures js != [] ==>
              HourFacts(rules, js, hour) == FileFacts(rules, js[0], hour) + HourFacts(rules, js[1..], hour) &&
              (Past(js[0], hour) ==> FileFacts(rules, js[0], hour) == [])
  {
  }

  lemma NothingExact(hour: int)
    ensures Exact(NOTHING, [], hour)
  {
  }

  /**
   Whatever the files hold, in whatever order: the count is that of the first MAX_SCAN entries there are to read, and it
   says partial exactly when there are that many.
   */
  lemma HourCounts(rules: Rules, js: seq<GoodJournal>, hour: int)
    ensures var (t, scanned, partial) := CountFiles(rules, js, hour, 0, NOTHING);
            var all := HourFacts(rules, js, hour);
            Exact(t, First(all, MAX_SCAN), hour) && scanned == |First(all, MAX_SCAN)| &&
              (partial <==> |all| >= MAX_SCAN)
  {
    hide Exact, CountFiles, HourFacts;
    NothingExact(hour);
    FilesCount(rules, js, hour, 0, NOTHING, []);
    assert [] + First(HourFacts(rules, js, hour), MAX_SCAN) == First(HourFacts(rules, js, hour), MAX_SCAN);
  }

  /** One run of facts says no more of the hour than another, whatever is counted. */
  ghost predicate AtMost(fs: seq<Fact>, gs: seq<Fact>, hour: int) {
    Refusals(fs, hour) <= Refusals(gs, hour) &&
    forall unit, error :: Tallied(fs, hour, unit, error) <= Tallied(gs, hour, unit, error)
  }

  /** Nothing of the hour. */
  ghost predicate Silent(fs: seq<Fact>, hour: int) {
    AtMost(fs, [], hour)
  }

  lemma AtMostTogether(a: seq<Fact>, b: seq<Fact>, c: seq<Fact>, d: seq<Fact>, hour: int)
    ensures AtMost(a, c, hour) && AtMost(b, d, hour) ==> AtMost(a + b, c + d, hour)
    ensures AtMost(a, a + b, hour)
    ensures AtMost(a + b, a, hour) <==> Silent(b, hour)
  {
    forall unit, error
      ensures Tallied(a + b, hour, unit, error) == Tallied(a, hour, unit, error) + Tallied(b, hour, unit, error)
      ensures Tallied(c + d, hour, unit, error) == Tallied(c, hour, unit, error) + Tallied(d, hour, unit, error)
    {
      TalliedAppend(a, b, hour, unit, error);
      TalliedAppend(c, d, hour, unit, error);
    }
    TalliedAppend(a, b, hour, [], true);
    TalliedAppend(c, d, hour, [], true);
    assert forall unit, error :: Tallied([], hour, unit, error) == 0;
  }

  /** What a file's walk would read is part of it, and in time order what it would not read is older than the hour. */
  lemma {:induction false} UpToIsPart(rules: Rules, j: Journal, es: seq<Entry>, hour: int)
    ensures AtMost(FactsOf(rules, j, UpTo(es, hour)), FactsOf(rules, j, es), hour)
    ensures Falling(es) ==> AtMost(FactsOf(rules, j, es), FactsOf(rules, j, UpTo(es, hour)), hour)
  {
    hide FactOf, AtMost, Falling, FactsOf;
    AtMostTogether(FactsOf(rules, j, es), [], [], [], hour);
    assert FactsOf(rules, j, es) + [] == FactsOf(rules, j, es);
    if es != [] {
      var e, rest, f := es[0], es[1..], FactOf(rules, j, es[0]);
      assert es == [e] + rest;
      FactsCons(rules, j, e, rest);
      var more, read := FactsOf(rules, j, rest), FactsOf(rules, j, UpTo(rest, hour));
      if e.at < hour {
        FactsOne(rules, j, e);
        AtMostTogether([f], more, [], [], hour);
        assert UpTo(es, hour) == [e];
        if Falling(es) {
          RestIsOlder(rules, j, es, hour);
        }
      } else {
        FactsCons(rules, j, e, UpTo(rest, hour));
        UpToIsPart(rules, j, rest, hour);
        AtMostTogether([f], [], [f], [], hour);
        assert [f] + [] == [f];
        AtMostTogether([f], read, [f], more, hour);
        AtMostTogether([f], more, [f], read, hour);
        FallingRest(es);
      }
    }
  }

  lemma {:induction false} OldIsSilent(rules: Rules, j: Journal, es: seq<Entry>, hour: int)
    requires forall i | 0 <= i < |es| :: es[i].at < hour
    ensures Silent(FactsOf(rules, j, es), hour)
  {
    var fs := FactsOf(rules, j, es);
    FactsTimes(rules, j, es);
    forall unit, error ensures Tallied(fs, hour, unit, error) == 0 && Refusals(fs, hour) == 0 {
      OlderZero(fs, hour, unit, error);
    }
    OlderZero(fs, hour, [], true);
  }

  lemma {:induction false} FactsTimes(rules: Rules, j: Journal, es: seq<Entry>)
    ensures var fs := FactsOf(rules, j, es);
            |fs| == |es| && forall i | 0 <= i < |fs| :: fs[i].at == es[i].at
  {
    if es != [] {
      FactsTimes(rules, j, es[1..]);
      FactTime(rules, j, es[0]);
    }
  }

  lemma RestIsOlder(rules: Rules, j: Journal, es: seq<Entry>, hour: int)
    requires es != [] && Falling(es) && es[0].at < hour
    ensures Silent(FactsOf(rules, j, es[1..]), hour)
  {
    hide Silent, FactsOf;
    FallingRest(es);
    OldIsSilent(rules, j, es[1..], hour);
  }

  /** What there is to read for an hour is part of everything, and in time order all of it that is of the hour. */
  lemma {:induction false} HourIsPart(rules: Rules, js: seq<GoodJournal>, hour: int)
    ensures AtMost(HourFacts(rules, js, hour), AllFacts(rules, js), hour)
    ensures (forall i | 0 <= i < |js| :: TimeOrdered(js[i])) ==>
            AtMost(AllFacts(rules, js), HourFacts(rules, js, hour), hour)
  {
    hide AtMost, FactsOf, TimeOrdered, Past, FileFacts;
    if js == [] {
      var none: seq<Fact> := [];
      AtMostTogether(none, none, none, none, hour);
      assert none + none == none;
    } else {
      var j, rest := js[0], js[1..];
      FileIsPart(rules, j, hour);
      HourIsPart(rules, rest, hour);
      var own, all := FileFacts(rules, j, hour), FactsOf(rules, j, Entries(j));
      AtMostTogether(own, HourFacts(rules, rest, hour), all, AllFacts(rules, rest), hour);
      AtMostTogether(all, AllFacts(rules, rest), own, HourFacts(rules, rest, hour), hour);
    }
  }

  lemma FileIsPart(rules: Rules, j: GoodJournal, hour: int)
    ensures var own, all := FileFacts(rules, j, hour), FactsOf(rules, j, Entries(j));
            AtMost(own, all, hour) && (TimeOrdered(j) ==> AtMost(all, own, hour))
  {
    hide AtMost, FactsOf, Entries, UpTo;
    var all := FactsOf(rules, j, Entries(j));
    if Past(j, hour) {
      AtMostTogether([], all, [], [], hour);
      assert [] + all == all;
      if TimeOrdered(j) {
        OldIsSilent(rules, j, Entries(j), hour);
      }
    } else {
      UpToIsPart(rules, j, Entries(j), hour);
    }
  }

  /** Two runs of facts a tally is exact for say the same of the hour. */
  lemma ExactSame(t: Tally, fs: seq<Fact>, gs: seq<Fact>, hour: int)
    requires Exact(t, fs, hour)
    ensures Exact(t, gs, hour) <==> AtMost(fs, gs, hour) && AtMost(gs, fs, hour)
  {
    hide Tallied, Refusals;
    if Exact(t, gs, hour) {
      forall unit, error ensures Tallied(fs, hour, unit, error) == Tallied(gs, hour, unit, error) {
        assert unit in t.counts || unit !in t.counts;
      }
    }
    if AtMost(fs, gs, hour) && AtMost(gs, fs, hour) {
      forall unit, error ensures Tallied(fs, hour, unit, error) == Tallied(gs, hour, unit, error) {
      }
    }
  }

  /** Partial or not, and however the files are ordered: no count is more than that of all readable entries. */
  lemma NeverTooMany(rules: Rules, js: seq<GoodJournal>, hour: int)
    ensures var (t, scanned, _), all := CountFiles(rules, js, hour, 0, NOTHING), AllFacts(rules, js);
            scanned <= MAX_SCAN && t.refused <= Refusals(all, hour) &&
            forall u | u in t.counts ::
              t.counts[u].errors <= Tallied(all, hour, u, true) && t.counts[u].warnings <= Tallied(all, hour, u, false)
  {
    hide CountFiles, Tallied, Refusals, HourFacts, AllFacts;
    HourCounts(rules, js, hour);
    HourIsPart(rules, js, hour);
    var read := HourFacts(rules, js, hour);
    AtMostTogether(First(read, MAX_SCAN), After(read, MAX_SCAN), [], [], hour);
    assert First(read, MAX_SCAN) + After(read, MAX_SCAN) == read;
  }

  /**
   The hour's report, for files in time order: every unit's errors and warnings and the refused logins are exactly those
   of all readable entries of the hour, in whatever file, if and only if nothing of the hour is left past the bound. It
   is never left there unsaid.
   */
  lemma HourIsExact(rules: Rules, js: seq<GoodJournal>, hour: int)
    requires forall i | 0 <= i < |js| :: TimeOrdered(js[i])
    ensures var (t, scanned, partial) := CountFiles(rules, js, hour, 0, NOTHING);
            scanned <= MAX_SCAN &&
            (Exact(t, AllFacts(rules, js), hour) <==> Silent(After(HourFacts(rules, js, hour), MAX_SCAN), hour)) &&
            (!partial ==> Exact(t, AllFacts(rules, js), hour))
  {
    hide CountFiles, Exact, AtMost, HourFacts, AllFacts, TimeOrdered;
    var t, read, all := CountFiles(rules, js, hour, 0, NOTHING).0, HourFacts(rules, js, hour), AllFacts(rules, js);
    var seen, left := First(read, MAX_SCAN), After(read, MAX_SCAN);
    HourCounts(rules, js, hour);
    HourIsPart(rules, js, hour);
    assert seen + left == read && (|read| < MAX_SCAN ==> seen == read);
    AtMostTogether(seen, left, [], [], hour);
    ExactSame(t, seen, all, hour);
    AtMostBy(seen, read, all, hour);
    AtMostBy(all, read, seen, hour);
    AtMostBy(read, all, seen, hour);
  }

  lemma AtMostBy(a: seq<Fact>, b: seq<Fact>, c: seq<Fact>, hour: int)
    ensures AtMost(a, b, hour) && AtMost(b, c, hour) ==> AtMost(a, c, hour)
  {
    hide Tallied, Refusals;
    if AtMost(a, b, hour) && AtMost(b, c, hour) {
      forall unit, error ensures Tallied(a, hour, unit, error) <= Tallied(c, hour, unit, error) {
        assert Tallied(a, hour, unit, error) <= Tallied(b, hour, unit, error);
      }
    }
  }

  /** The listed units are the loudest, and with the number left out they account for every unit. */
  lemma ListedAreLoudest(counts: map<bytes, Count>, all: seq<UnitCount>, u: bytes)
    requires Ranking(counts, all) && u in counts
    ensures var listed := all[..Min(|all|, 20)];
            |listed| + (|all| - |listed|) == |counts| &&
            (UnitCount(u, counts[u]) in listed ||
             forall i | 0 <= i < |listed| :: Louder(listed[i], UnitCount(u, counts[u])))
  {
    var k :| 0 <= k < |all| && all[k] == UnitCount(u, counts[u]);
    var listed := all[..Min(|all|, 20)];
    if k < |listed| {
      assert listed[k] == all[k];
    }
    assert |counts| == |counts.Keys|;
  }
}
