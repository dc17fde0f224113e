/** The hour's counts said of the entries themselves, in the terms of the journal: units, priorities and facilities. */
module JournalTally {
  import opened Options
  import opened Bytes
  import opened Sorting
  import opened JournalFormat
  import opened JournalReads
  import opened JournalCount

  // What is counted, by systemd's and syslog's numbers.

  predicate OfHour(x: Logged, hour: int) {
    hour <= x.e.at < hour + 3_600_000_000
  }

  predicate IsError(rules: Rules, hour: int, unit: bytes, x: Logged) {
    OfHour(x, hour) && x.e.unit != [] && rules.reported(x.e.unit) == unit && 0 <= x.e.priority <= 3
  }

  predicate IsWarning(rules: Rules, hour: int, unit: bytes, x: Logged) {
    OfHour(x, hour) && x.e.unit != [] && rules.reported(x.e.unit) == unit && x.e.priority == 4
  }

  /** A refused login, written as authorization (4) or private authorization (10), by any unit at any priority. */
  predicate IsRefusal(rules: Rules, hour: int, x: Logged) {
    OfHour(x, hour) && x.e.facility in {4, 10} && rules.refusal(x.e.identifier, MessageOf(x.j, x.e).0)
  }

  function Errors(rules: Rules, hour: int, unit: bytes, xs: seq<Logged>): nat {
    HowMany(x => IsError(rules, hour, unit, x), xs)
  }

  function Warnings(rules: Rules, hour: int, unit: bytes, xs: seq<Logged>): nat {
    HowMany(x => IsWarning(rules, hour, unit, x), xs)
  }

  function RefusedLogins(rules: Rules, hour: int, xs: seq<Logged>): nat {
    HowMany(x => IsRefusal(rules, hour, x), xs)
  }

  /** The tally is exactly that of these entries: the units with an error or a warning, and how many of each. */
  ghost predicate Counts(rules: Rules, t: Tally, hour: int, xs: seq<Logged>) {
    t.refused == RefusedLogins(rules, hour, xs) &&
    forall unit: bytes ::
      var errors, warnings := Errors(rules, hour, unit, xs), Warnings(rules, hour, unit, xs);
      if errors + warnings > 0 then unit in t.counts && t.counts[unit] == Count(errors, warnings)
      else unit !in t.counts
  }

  /** None of these is counted for the hour. */
  ghost predicate Uncounted(rules: Rules, hour: int, xs: seq<Logged>) {
    RefusedLogins(rules, hour, xs) == 0 &&
    forall unit: bytes :: Errors(rules, hour, unit, xs) == 0 && Warnings(rules, hour, unit, xs) == 0
  }

  // ---- the facts are those of the entries -----------------------------------------------------------------------

  function FactsFrom(rules: Rules, xs: seq<Logged>): (r: seq<Fact>)
    ensures |r| == |xs|
  {
    if xs == [] then [] else [FactOf(rules, xs[0].j, xs[0].e)] + FactsFrom(rules, xs[1..])
  }

  lemma {:induction false} FactsAppend(rules: Rules, xs: seq<Logged>, ys: seq<Logged>)
    ensures FactsFrom(rules, xs + ys) == FactsFrom(rules, xs) + FactsFrom(rules, ys)
  {
    hide FactOf;
    if xs == [] {
      assert xs + ys == ys;
    } else {
      assert (xs + ys)[1..] == xs[1..] + ys;
      FactsAppend(rules, xs[1..], ys);
    }
  }

  lemma FactsSplit(rules: Rules, xs: seq<Logged>, n: nat)
    ensures FactsFrom(rules, First(xs, n)) == First(FactsFrom(rules, xs), n)
    ensures FactsFrom(rules, After(xs, n)) == After(FactsFrom(rules, xs), n)
  {
    var a, b := First(xs, n), After(xs, n);
    assert xs == a + b;
    FactsAppend(rules, a, b);
    var fs := FactsFrom(rules, xs);
    assert First(fs, n) == fs[..|a|] && After(fs, n) == fs[|a|..];
  }

  lemma {:induction false} FactsIn(rules: Rules, j: GoodJournal, es: seq<Entry>)
    ensures FactsFrom(rules, In(j, es)) == FactsOf(rules, j, es)
  {
    hide FactOf;
    if es != [] {
      assert In(j, es)[1..] == In(j, es[1..]);
      FactsIn(rules, j, es[1..]);
    }
  }

  lemma {:induction false} FactsOfAll(rules: Rules, js: seq<GoodJournal>, hour: int)
    ensures FactsFrom(rules, Everything(js)) == AllFacts(rules, js)
    ensures FactsFrom(rules, ToRead(js, hour)) == HourFacts(rules, js, hour)
  {
    hide FactsOf, Entries, In, UpTo;
    if js != [] {
      var j := js[0];
      FactsOfAll(rules, js[1..], hour);
      FactsIn(rules, j, Entries(j));
      FactsIn(rules, j, UpTo(Entries(j), hour));
      FactsAppend(rules, In(j, Entries(j)), Everything(js[1..]));
      var own := if j.tail != 0 && j.tail < hour then [] else In(j, UpTo(Entries(j), hour));
      FactsAppend(rules, own, ToRead(js[1..], hour));
    }
  }

  /** One entry, as the counting sees it and as it is. */
  lemma FactSays(rules: Rules, hour: int, unit: bytes, x: Logged)
    ensures var f := FactOf(rules, x.j, x.e);
            (InHour(f, hour) && f.unit == Some(unit) && f.error == true <==> IsError(rules, hour, unit, x)) &&
            (InHour(f, hour) && f.unit == Some(unit) && f.error == false <==> IsWarning(rules, hour, unit, x)) &&
            (InHour(f, hour) && f.refused <==> IsRefusal(rules, hour, x))
  {
    hide MessageOf;
  }

  lemma {:induction false} TalliedSays(rules: Rules, hour: int, unit: bytes, xs: seq<Logged>)
    ensures var fs := FactsFrom(rules, xs);
            Tallied(fs, hour, unit, true) == Errors(rules, hour, unit, xs) &&
            Tallied(fs, hour, unit, false) == Warnings(rules, hour, unit, xs) &&
            Refusals(fs, hour) == RefusedLogins(rules, hour, xs)
  {
    hide FactOf, InHour, IsError, IsWarning, IsRefusal;
    if xs != [] {
      FactSays(rules, hour, unit, xs[0]);
      TalliedSays(rules, hour, unit, xs[1..]);
      assert FactsFrom(rules, xs)[1..] == FactsFrom(rules, xs[1..]);
    }
  }

  lemma CountsIsExact(rules: Rules, t: Tally, hour: int, xs: seq<Logged>)
    ensures Counts(rules, t, hour, xs) <==> Exact(t, FactsFrom(rules, xs), hour)
    ensures Uncounted(rules, hour, xs) <==> Silent(FactsFrom(rules, xs), hour)
  {
    hide Tallied, Refusals, Errors, Warnings, RefusedLogins;
    var fs := FactsFrom(rules, xs);
    forall unit: bytes
      ensures Tallied(fs, hour, unit, true) == Errors(rules, hour, unit, xs)
      ensures Tallied(fs, hour, unit, false) == Warnings(rules, hour, unit, xs)
      ensures Refusals(fs, hour) == RefusedLogins(rules, hour, xs)
    {
      TalliedSays(rules, hour, unit, xs);
    }
    assert Refusals(fs, hour) == RefusedLogins(rules, hour, xs) by { TalliedSays(rules, hour, [], xs); }
    NothingTallied(hour);
  }

  lemma NothingTallied(hour: int)
    ensures Refusals([], hour) == 0 && forall unit, error :: Tallied([], hour, unit, error) == 0
  {
  }

  // ---- the theorems ---------------------------------------------------------------------------------------------

  /**
   Whatever the files hold, in whatever order: the count is that of the first 200000 entries there are to read, and it
   says partial exactly when there are that many.
   */
  lemma HourCounted(rules: Rules, js: seq<GoodJournal>, hour: int)
    ensures var (t, scanned, partial) := CountFiles(rules, js, hour, 0, NOTHING);
            Counts(rules, t, hour, First(ToRead(js, hour), 200_000)) &&
            scanned == |First(ToRead(js, hour), 200_000)| && (partial <==> |ToRead(js, hour)| >= 200_000)
  {
    hide CountFiles, Counts, Exact, HourFacts, ToRead, First;
    HourCounts(rules, js, hour);
    FactsOfAll(rules, js, hour);
    FactsSplit(rules, ToRead(js, hour), MAX_SCAN);
    CountsIsExact(rules, CountFiles(rules, js, hour, 0, NOTHING).0, hour, First(ToRead(js, hour), MAX_SCAN));
  }

  /**
   For files in time order: the report is exactly what all readable entries of the hour say, in whatever file, if and
   only if nothing of the hour is left past the bound. It is never left there unsaid.
   */
  lemma HourExact(rules: Rules, js: seq<GoodJournal>, hour: int)
    requires forall i | 0 <= i < |js| :: TimeOrdered(js[i])
    ensures var (t, scanned, partial) := CountFiles(rules, js, hour, 0, NOTHING);
            scanned <= 200_000 &&
            (Counts(rules, t, hour, Everything(js)) <==> Uncounted(rules, hour, After(ToRead(js, hour), 200_000))) &&
            (!partial ==> Counts(rules, t, hour, Everything(js)))
  {
    hide CountFiles, Counts, Exact, HourFacts, AllFacts, ToRead, Everything, After, TimeOrdered, Uncounted, Silent;
    HourIsExact(rules, js, hour);
    FactsOfAll(rules, js, hour);
    FactsSplit(rules, ToRead(js, hour), MAX_SCAN);
    var t := CountFiles(rules, js, hour, 0, NOTHING).0;
    CountsIsExact(rules, t, hour, Everything(js));
    CountsIsExact(rules, t, hour, After(ToRead(js, hour), MAX_SCAN));
  }

  /** Partial or not, in time order or not: no number is more than that of all readable entries. */
  lemma HourNeverTooMany(rules: Rules, js: seq<GoodJournal>, hour: int)
    ensures var (t, scanned, _), all := CountFiles(rules, js, hour, 0, NOTHING), Everything(js);
            scanned <= 200_000 && t.refused <= RefusedLogins(rules, hour, all) &&
            forall u | u in t.counts ::
              t.counts[u].errors <= Errors(rules, hour, u, all) && t.counts[u].warnings <= Warnings(rules, hour, u, all)
  {
    hide CountFiles, AllFacts, HourFacts, Everything, Tallied, Refusals, Errors, Warnings, RefusedLogins;
    NeverTooMany(rules, js, hour);
    FactsOfAll(rules, js, hour);
    TalliedSays(rules, hour, [], Everything(js));
    var t := CountFiles(rules, js, hour, 0, NOTHING).0;
    forall u | u in t.counts
      ensures t.counts[u].errors <= Errors(rules, hour, u, Everything(js))
      ensures t.counts[u].warnings <= Warnings(rules, hour, u, Everything(js))
    {
      TalliedSays(rules, hour, u, Everything(js));
    }
  }

  /** The report lists more errors before fewer, then more warnings before fewer, then names in order. */
  lemma ListedInOrder(counts: map<bytes, Count>, all: seq<UnitCount>, i: nat, k: nat)
    requires Ranking(counts, all) && i < k < |all|
    ensures var a, b := all[i], all[k];
            a.count.errors >= b.count.errors &&
            (a.count.errors == b.count.errors ==> a.count.warnings >= b.count.warnings) &&
            (a.count == b.count ==> BytesLeq(a.unit, b.unit))
  {
    hide BytesLeq;
  }
}
