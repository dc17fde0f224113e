/**
 internal/journal/journal.go: a unit's last lines before something happened to it. The newest eligible entries are
 picked from several files, their messages split into lines, masked together, and cut to a budget from the oldest end.
 */
module JournalLines {
  import opened Options
  import opened Bytes
  import opened JournalBlocks
  import opened JournalFormat
  import opened JournalFile
  import opened JournalReads
  import E = JournalEntries

  const MAX_LINES: nat := 20
  const MAX_LINE: nat := 300
  const MAX_SNIPPET: nat := 6144
  const MAX_PRIORITY: int := 6
  const NEWLINE: byte := 10
  const MASKED: bytes := Ascii("[masked]")

  /**
   What other files of the agent decide: login units and login programs (login.go), how a line is made printable, how
   secrets in one line are masked, and which lines open and close a private key (jobs/mask.go).
   */
  datatype Rules = Rules(loginUnit: bytes -> bool, loginProgram: bytes -> bool, clean: bytes -> bytes,
                         mask: bytes -> bytes, opens: bytes -> bool, closes: bytes -> bool)

  // ---- picking entries ------------------------------------------------------------------------------------------

  datatype Kept = Kept(at: int, priority: int, message: bytes, cut: bool)

  datatype Gathered = Gathered(kept: seq<Kept>, compressed: nat)

  /** The lines wanted: one unit's, written in a span of time. */
  datatype Query = Query(unit: bytes, since: int, until: int)

  function PriorityOf(e: Entry): int {
    if e.priority < 0 then 6 else e.priority
  }

  predicate LoginRecord(rules: Rules, e: Entry) {
    e.facility == 4 || e.facility == 10 || rules.loginProgram(e.identifier) || e.transport == Ascii("audit")
  }

  /** An entry whose line may be sent, if it has one that can be read. */
  predicate Wanted(rules: Rules, q: Query, e: Entry) {
    e.unit == q.unit && e.at <= q.until && PriorityOf(e) <= MAX_PRIORITY && !LoginRecord(rules, e)
  }

  function KeepEntry(j: Journal, e: Entry): Kept {
    var (message, cut) := MessageOf(j, e);
    Kept(e.at, PriorityOf(e), message, cut)
  }

  function Gather(rules: Rules, j: Journal, q: Query, g: Gathered, e: Entry): (Gathered, bool) {
    if !Wanted(rules, q, e) then (g, true)
    else if e.message <= 0 then (if e.compressed then g.(compressed := g.compressed + 1) else g, true)
    else
      var kept := g.kept + [KeepEntry(j, e)];
      (g.(kept := kept), |kept| < MAX_LINES)
  }

  function Gatherer(rules: Rules, j: Journal, q: Query): (Gathered, Entry) -> (Gathered, bool) {
    (g, e) => Gather(rules, j, q, g, e)
  }

  function GatherFile(rules: Rules, j: GoodJournal, q: Query, scanned: nat, g: Gathered): (nat, Gathered)
    requires scanned < MAX_SCAN
  {
    Walk(j, q.since, MAX_SCAN - scanned, Gatherer(rules, j, q), 0, g)
  }

  function GatherFiles(rules: Rules, js: seq<GoodJournal>, q: Query, scanned: nat, g: Gathered): (Gathered, nat)
    decreases |js|
  {
    if js == [] || |g.kept| >= MAX_LINES || scanned >= MAX_SCAN then (g, scanned)
    else if Past(js[0], q.since) then GatherFiles(rules, js[1..], q, scanned, g)
    else
      var (n, next) := GatherFile(rules, js[0], q, scanned, g);
      GatherFiles(rules, js[1..], q, scanned + n, next)
  }

  method PickEntries(rules: Rules, js: seq<GoodJournal>, q: Query) returns (g: Gathered)
    ensures g == GatherFiles(rules, js, q, 0, Gathered([], 0)).0
  {
    hide GatherFile;
    g := Gathered([], 0);
    var scanned: nat := 0;
    var i := 0;
    while i < |js|
      invariant 0 <= i <= |js|
      invariant GatherFiles(rules, js, q, 0, Gathered([], 0)) == GatherFiles(rules, js[i..], q, scanned, g)
    {
      assert js[i..][1..] == js[i + 1..];
      if |g.kept| >= MAX_LINES || scanned >= MAX_SCAN {
        return;
      }
      if !Past(js[i], q.since) {
        var f := new File(js[i]);
        g := PickFrom(rules, f, q, scanned, g);
        scanned := scanned + f.entriesScanned;
      }
      i := i + 1;
    }
    assert js[i..] == [];
  }

  method PickFrom(rules: Rules, f: File, q: Query, scanned: nat, g: Gathered) returns (next: Gathered)
    requires f.Valid() && f.entriesScanned == 0 && scanned < MAX_SCAN
    modifies f`entriesScanned, f`fields, f.reader
    ensures f.Valid() && (f.entriesScanned, next) == GatherFile(rules, f.journal, q, scanned, g)
  {
    hide Gatherer, Walk;
    next := f.Backward(q.since, MAX_SCAN - scanned, Gatherer(rules, f.journal, q), g);
  }

  // Which entries those are.

  /** What an entry offers to the lines wanted: nothing, or itself. */
  function Offer(rules: Rules, j: Journal, q: Query, e: Entry): Option<Kept> {
    if e.at >= q.since && Wanted(rules, q, e) && e.message > 0 then Some(KeepEntry(j, e)) else None
  }

  function Offers(rules: Rules, j: Journal, q: Query, es: seq<Entry>): seq<Option<Kept>> {
    if es == [] then [] else [Offer(rules, j, q, es[0])] + Offers(rules, j, q, es[1..])
  }

  /** Those that offer something. */
  function Present(os: seq<Option<Kept>>): seq<Kept> {
    if os == [] then [] else (if os[0].Some? then [os[0].value] else []) + Present(os[1..])
  }

  /** The eligible entries of all files: the unit's, in the span, that may be sent and have a message. */
  function EligibleIn(rules: Rules, js: seq<GoodJournal>, q: Query): seq<Kept> {
    if js == [] then [] else Present(Offers(rules, js[0], q, Entries(js[0]))) + EligibleIn(rules, js[1..], q)
  }

  /** One file's part of what there is to read. */
  function FileOffers(rules: Rules, j: GoodJournal, q: Query): seq<Option<Kept>> {
    if Past(j, q.since) then [] else Offers(rules, j, q, UpTo(Entries(j), q.since))
  }

  /** What the entries offer that would be read without a bound, newest file first: an item for each of them. */
  function AllOffers(rules: Rules, js: seq<GoodJournal>, q: Query): seq<Option<Kept>> {
    if js == [] then [] else FileOffers(rules, js[0], q) + AllOffers(rules, js[1..], q)
  }

  lemma OffersCons(rules: Rules, j: Journal, q: Query, e: Entry, es: seq<Entry>)
    ensures Offers(rules, j, q, []) == [] && Offers(rules, j, q, [e]) == [Offer(rules, j, q, e)]
    ensures Offers(rules, j, q, [e] + es) == [Offer(rules, j, q, e)] + Offers(rules, j, q, es)
  {
    hide Offer;
    assert ([e] + es)[1..] == es;
  }

  lemma PresentCons(o: Option<Kept>, os: seq<Option<Kept>>)
    ensures Present([]) == [] && Present([o]) == if o.Some? then [o.value] else []
    ensures Present([o] + os) == Present([o]) + Present(os)
  {
    assert ([o] + os)[1..] == os;
  }

  lemma {:induction false} PresentAppend(s: seq<Option<Kept>>, t: seq<Option<Kept>>)
    ensures Present(s + t) == Present(s) + Present(t)
  {
    if s == [] {
      assert s + t == t;
    } else {
      assert (s + t)[1..] == s[1..] + t;
      PresentAppend(s[1..], t);
    }
  }

  /** What one entry does to the gathering, by what it offers. */
  lemma GatherOffer(rules: Rules, j: Journal, q: Query, g: Gathered, e: Entry)
    requires e.at >= q.since && |g.kept| < MAX_LINES
    ensures var (next, more), own := Gather(rules, j, q, g, e), Present([Offer(rules, j, q, e)]);
            next.kept == g.kept + own && (more <==> |next.kept| < MAX_LINES)
  {
    hide KeepEntry, Wanted;
    PresentCons(Offer(rules, j, q, e), []);
  }

  /** Entries handed over one by one are gathered up to the first too old, or the twentieth that offers itself. */
  lemma {:induction false} FeedPicks(rules: Rules, j: Journal, q: Query, es: seq<Entry>, g: Gathered)
    requires |g.kept| < MAX_LINES
    ensures var (n, next), read := Feed(q.since, Gatherer(rules, j, q), g, es), UpTo(es, q.since);
            n <= |read| && (|next.kept| < MAX_LINES ==> n == |read|) &&
            next.kept == First(g.kept + Present(Offers(rules, j, q, read)), MAX_LINES)
  {
    hide Gather, Offer, Offers, Present, First;
    Full(g.kept, []);
    assert g.kept + [] == g.kept;
    PresentCons(None, []);
    if es == [] {
      assert Offers(rules, j, q, es) == [] by { OffersNone(rules, j, q); }
    } else {
      var e, rest, o := es[0], es[1..], Offer(rules, j, q, es[0]);
      OffersCons(rules, j, q, e, UpTo(rest, q.since));
      PresentCons(o, Offers(rules, j, q, UpTo(rest, q.since)));
      if e.at < q.since {
        assert o == None by { OldOffersNothing(rules, j, q, e); }
      } else {
        var (next, more) := Gather(rules, j, q, g, e);
        GatherOffer(rules, j, q, g, e);
        var later := Present(Offers(rules, j, q, UpTo(rest, q.since)));
        assert g.kept + (Present([o]) + later) == next.kept + later;
        if more {
          FeedPicks(rules, j, q, rest, next);
        } else {
          Full(next.kept, later);
        }
      }
    }
  }
  lemma OffersNone(rules: Rules, j: Journal, q: Query)
    ensures Offers(rules, j, q, []) == []
  {
  }

  lemma OldOffersNothing(rules: Rules, j: Journal, q: Query, e: Entry)
    requires e.at < q.since
    ensures Offer(rules, j, q, e) == None
  {
  }

  lemma Full(s: seq<Kept>, t: seq<Kept>)
    ensures |s| <= MAX_LINES ==> First(s, MAX_LINES) == s
    ensures |s| == MAX_LINES ==> First(s + t, MAX_LINES) == s
  {
  }

  lemma FullAlready(s: seq<Kept>, t: seq<Kept>)
    ensures |First(s, MAX_LINES)| == MAX_LINES ==> First(s + t, MAX_LINES) == First(s, MAX_LINES)
    ensures |First(s, MAX_LINES)| < MAX_LINES ==> First(s, MAX_LINES) == s
    ensures |First(s, MAX_LINES)| <= MAX_LINES
  {
  }

  lemma {:induction false} OffersFirst(rules: Rules, j: Journal, q: Query, es: seq<Entry>, n: nat)
    ensures |Offers(rules, j, q, es)| == |es|
    ensures Offers(rules, j, q, First(es, n)) == First(Offers(rules, j, q, es), n)
  {
    hide Offer;
    if es != [] {
      var o, rest := Offer(rules, j, q, es[0]), es[1..];
      assert es == [es[0]] + rest;
      FirstCons(o, Offers(rules, j, q, rest), n);
      FirstCons(es[0], rest, n);
      if n > 0 {
        OffersFirst(rules, j, q, rest, n - 1);
        OffersCons(rules, j, q, es[0], First(rest, n - 1));
      } else {
        OffersFirst(rules, j, q, rest, 0);
      }
    }
  }

  lemma FilePicks(rules: Rules, j: GoodJournal, q: Query, scanned: nat, g: Gathered)
    requires scanned < MAX_SCAN && !Past(j, q.since) && |g.kept| < MAX_LINES
    ensures var (n, next) := GatherFile(rules, j, q, scanned, g);
            var seen := First(FileOffers(rules, j, q), MAX_SCAN - scanned);
            n <= |seen| && (|next.kept| < MAX_LINES ==> n == |seen|) &&
            next.kept == First(g.kept + Present(seen), MAX_LINES)
  {
    hide Offers, Walk, Entries, First, UpTo, Feed, Gatherer;
    var limit := MAX_SCAN - scanned;
    WalkFeeds(j, q.since, limit, Gatherer(rules, j, q), g);
    FeedPicks(rules, j, q, First(Entries(j), limit), g);
    UpToFirst(Entries(j), q.since, limit);
    OffersFirst(rules, j, q, UpTo(Entries(j), q.since), limit);
    OffersFirst(rules, j, q, First(UpTo(Entries(j), q.since), limit), 0);
  }

  lemma GatherStep(rules: Rules, js: seq<GoodJournal>, q: Query, scanned: nat, g: Gathered)
    ensures js == [] || |g.kept| >= MAX_LINES || scanned >= MAX_SCAN ==>
              GatherFiles(rules, js, q, scanned, g) == (g, scanned)
    ensures js != [] && |g.kept| < MAX_LINES && scanned < MAX_SCAN ==>
              GatherFiles(rules, js, q, scanned, g) ==
                (if Past(js[0], q.since) then GatherFiles(rules, js[1..], q, scanned, g)
                 else GatherFiles(rules, js[1..], q, scanned + GatherFile(rules, js[0], q, scanned, g).0,
                                  GatherFile(rules, js[0], q, scanned, g).1))
  {
    hide GatherFile;
  }

  lemma OffersStep(rules: Rules, js: seq<GoodJournal>, q: Query)
    ensures js == [] ==> AllOffers(rules, js, q) == []
    ensures js != [] ==>
              AllOffers(rules, js, q) == FileOffers(rules, js[0], q) + AllOffers(rules, js[1..], q) &&
              (Past(js[0], q.since) ==> FileOffers(rules, js[0], q) == [])
  {
  }

  /** Over all files, the first MAX_SCAN of what there is to read are read, or enough of them for twenty. */
  lemma {:induction false} FilesPick(rules: Rules, js: seq<GoodJournal>, q: Query, scanned: nat, g: Gathered)
    requires scanned <= MAX_SCAN && |g.kept| <= MAX_LINES
    ensures var (r, total) := GatherFiles(rules, js, q, scanned, g);
            var seen := First(AllOffers(rules, js, q), MAX_SCAN - scanned);
            total <= scanned + |seen| && (|r.kept| < MAX_LINES ==> total == scanned + |seen|) &&
            r.kept == First(g.kept + Present(seen), MAX_LINES)
    decreases |js|
  {
    hide GatherFile, GatherFiles, FileOffers, AllOffers, Past, Present, First;
    GatherStep(rules, js, q, scanned, g);
    OffersStep(rules, js, q);
    var seen, limit := First(AllOffers(rules, js, q), MAX_SCAN - scanned), MAX_SCAN - scanned;
    Full(g.kept, Present(seen));
    if js == [] || scanned == MAX_SCAN {
      FirstNone(AllOffers(rules, js, q), limit);
      PresentCons(None, []);
      assert g.kept + [] == g.kept;
    } else if |g.kept| < MAX_LINES {
      var own, later := FileOffers(rules, js[0], q), AllOffers(rules, js[1..], q);
      var mine := First(own, limit);
      FirstOfTwo(own, later, limit);
      FirstLength(own, limit);
      if Past(js[0], q.since) {
        FirstNone(own, limit);
        assert [] + First(later, limit) == First(later, limit);
        FilesPick(rules, js[1..], q, scanned, g);
      } else {
        var (n, next) := GatherFile(rules, js[0], q, scanned, g);
        FilePicks(rules, js[0], q, scanned, g);
        var others := First(later, limit - |mine|);
        PresentAppend(mine, others);
        assert g.kept + (Present(mine) + Present(others)) == g.kept + Present(mine) + Present(others);
        FullAlready(g.kept + Present(mine), Present(others));
        if |next.kept| == MAX_LINES {
          GatherStep(rules, js[1..], q, scanned + n, next);
        } else {
          FilesPick(rules, js[1..], q, scanned + n, next);
        }
      }
    }
  }

  /**
   Exactly what is picked, whatever the files hold and in whatever order: of the first MAX_SCAN entries there are to
   read, newest file first, the first twenty eligible, or all of them when there are fewer. No login record, nothing
   debug, nothing outside the span.
   */
  lemma PicksNewest(rules: Rules, js: seq<GoodJournal>, q: Query)
    ensures var (g, scanned) := GatherFiles(rules, js, q, 0, Gathered([], 0));
            var seen := First(AllOffers(rules, js, q), MAX_SCAN);
            scanned <= |seen| <= MAX_SCAN && (|g.kept| < MAX_LINES ==> scanned == |seen|) &&
            g.kept == First(Present(seen), MAX_LINES)
  {
    hide GatherFiles, AllOffers, Present;
    FilesPick(rules, js, q, 0, Gathered([], 0));
    var seen := First(AllOffers(rules, js, q), MAX_SCAN);
    assert [] + Present(seen) == Present(seen);
  }

  // In time order, what is read is the newest.

  lemma {:induction false} OldAreNotEligible(rules: Rules, j: Journal, q: Query, es: seq<Entry>)
    requires forall i | 0 <= i < |es| :: es[i].at < q.since
    ensures Present(Offers(rules, j, q, es)) == []
  {
    if es != [] {
      var rest := es[1..];
      assert es == [es[0]] + rest;
      OffersCons(rules, j, q, es[0], rest);
      OldOffersNothing(rules, j, q, es[0]);
      PresentCons(None, Offers(rules, j, q, rest));
      OldAreNotEligible(rules, j, q, rest);
    }
  }

  /** In time order nothing eligible comes after the first entry that is too old. */
  lemma {:induction false} UpToHasAll(rules: Rules, j: Journal, q: Query, es: seq<Entry>)
    requires Falling(es)
    ensures Present(Offers(rules, j, q, UpTo(es, q.since))) == Present(Offers(rules, j, q, es))
  {
    hide Falling, Offers, Offer, Present;
    if es != [] {
      var e, rest, o := es[0], es[1..], Offer(rules, j, q, es[0]);
      FallingRest(es);
      assert es == [e] + rest;
      OffersCons(rules, j, q, e, rest);
      PresentCons(o, Offers(rules, j, q, rest));
      if e.at < q.since {
        OldAreNotEligible(rules, j, q, rest);
        assert Present([o]) + [] == Present([o]);
      } else {
        OffersCons(rules, j, q, e, UpTo(rest, q.since));
        PresentCons(o, Offers(rules, j, q, UpTo(rest, q.since)));
        UpToHasAll(rules, j, q, rest);
      }
    }
  }

  lemma FileHasAll(rules: Rules, j: GoodJournal, q: Query)
    requires TimeOrdered(j)
    ensures Present(FileOffers(rules, j, q)) == Present(Offers(rules, j, q, Entries(j)))
  {
    hide Entries, Offers, Present;
    PresentCons(None, []);
    if Past(j, q.since) {
      OldAreNotEligible(rules, j, q, Entries(j));
    } else {
      UpToHasAll(rules, j, q, Entries(j));
    }
  }

  lemma {:induction false} OffersAreEligible(rules: Rules, js: seq<GoodJournal>, q: Query)
    requires forall i | 0 <= i < |js| :: TimeOrdered(js[i])
    ensures Present(AllOffers(rules, js, q)) == EligibleIn(rules, js, q)
  {
    hide TimeOrdered, FileOffers, Offers, Present;
    PresentCons(None, []);
    if js != [] {
      FileHasAll(rules, js[0], q);
      OffersAreEligible(rules, js[1..], q);
      PresentAppend(FileOffers(rules, js[0], q), AllOffers(rules, js[1..], q));
    }
  }

  /**
   For files in time order: the twenty newest eligible entries are picked, or all of them, if and only if twenty were
   found within the bound on entries read or none is left past it.
   */
  lemma PickedIff(rules: Rules, js: seq<GoodJournal>, q: Query)
    requires forall i | 0 <= i < |js| :: TimeOrdered(js[i])
    ensures var all := AllOffers(rules, js, q);
            GatherFiles(rules, js, q, 0, Gathered([], 0)).0.kept == First(EligibleIn(rules, js, q), MAX_LINES) <==>
            |Present(First(all, MAX_SCAN))| >= MAX_LINES || Present(After(all, MAX_SCAN)) == []
  {
    hide GatherFiles, AllOffers, EligibleIn, Present, TimeOrdered;
    var all := AllOffers(rules, js, q);
    PicksNewest(rules, js, q);
    OffersAreEligible(rules, js, q);
    assert First(all, MAX_SCAN) + After(all, MAX_SCAN) == all;
    PresentAppend(First(all, MAX_SCAN), After(all, MAX_SCAN));
  }

  /** Later kept entries are no newer. */
  predicate KeptFalling(ks: seq<Kept>) {
    forall i, j | 0 <= i < j < |ks| :: ks[i].at >= ks[j].at
  }

  /** No file holds an entry newer than any of a file before it. */
  ghost predicate Apart(js: seq<GoodJournal>) {
    forall i, k | 0 <= i < k < |js| :: forall e, f | e in Entries(js[i]) && f in Entries(js[k]) :: f.at <= e.at
  }

  /** What entries offer is as old as they are, and in their order. */
  lemma {:induction false} OffersFall(rules: Rules, j: Journal, q: Query, es: seq<Entry>)
    requires Falling(es)
    ensures KeptFalling(Present(Offers(rules, j, q, es)))
    ensures forall k | k in Present(Offers(rules, j, q, es)) :: exists e :: e in es && e.at == k.at
  {
    hide Falling, Offers, Present, Wanted;
    PresentCons(None, []);
    OffersNone(rules, j, q);
    if es != [] {
      var e, rest, o := es[0], es[1..], Offer(rules, j, q, es[0]);
      FallingRest(es);
      assert es == [e] + rest;
      OffersCons(rules, j, q, e, rest);
      PresentCons(o, Offers(rules, j, q, rest));
      OffersFall(rules, j, q, rest);
    }
  }

  lemma {:induction false} EligibleInFalls(rules: Rules, js: seq<GoodJournal>, q: Query)
    requires Apart(js) && forall i | 0 <= i < |js| :: TimeOrdered(js[i])
    ensures KeptFalling(EligibleIn(rules, js, q))
    ensures forall k | k in EligibleIn(rules, js, q) ::
              exists i, e :: 0 <= i < |js| && e in Entries(js[i]) && e.at == k.at
  {
    hide Entries, Offers, Present;
    if js != [] {
      var j, rest := js[0], js[1..];
      var own, later := Present(Offers(rules, j, q, Entries(j))), EligibleIn(rules, rest, q);
      OffersFall(rules, j, q, Entries(j));
      forall i, k, e, f | 0 <= i < k < |rest| && e in Entries(rest[i]) && f in Entries(rest[k]) ensures f.at <= e.at {
        assert rest[i] == js[i + 1] && rest[k] == js[k + 1];
      }
      EligibleInFalls(rules, rest, q);
      forall x | x in later ensures exists i, e :: 0 < i < |js| && e in Entries(js[i]) && e.at == x.at {
        var i, e :| 0 <= i < |rest| && e in Entries(rest[i]) && e.at == x.at;
        assert js[i + 1] == rest[i];
      }
    }
  }

  /**
   With files in time order that do not overlap: what is picked are the first of the eligible entries, and none left out
   is newer than one picked. Fewer than twenty are all there are, unless there was more to read than the bound.
   */
  lemma PickedAreNewest(rules: Rules, js: seq<GoodJournal>, q: Query, a: Kept, b: Kept)
    requires Apart(js) && forall i | 0 <= i < |js| :: TimeOrdered(js[i])
    ensures var picked, all := GatherFiles(rules, js, q, 0, Gathered([], 0)).0.kept, EligibleIn(rules, js, q);
            picked <= all && KeptFalling(picked) &&
            (|picked| < MAX_LINES && |AllOffers(rules, js, q)| <= MAX_SCAN ==> picked == all) &&
            (a in picked && b in all[|picked|..] ==> a.at >= b.at)
  {
    hide TimeOrdered, Apart, GatherFiles, EligibleIn, AllOffers, Present;
    var offers := AllOffers(rules, js, q);
    PicksNewest(rules, js, q);
    OffersAreEligible(rules, js, q);
    EligibleInFalls(rules, js, q);
    assert First(offers, MAX_SCAN) + After(offers, MAX_SCAN) == offers;
    PresentAppend(First(offers, MAX_SCAN), After(offers, MAX_SCAN));
    PresentCons(None, []);
  }

  // ---- lines ----------------------------------------------------------------------------------------------------

  /** A line with the time and priority of the entry it came from. */
  datatype Line = Line(at: int, priority: int, text: bytes)

  function TrimNewlines(s: bytes): bytes {
    if s != [] && s[|s| - 1] == NEWLINE then TrimNewlines(s[..|s| - 1]) else s
  }

  /** The pieces between newlines; one piece when there is none. */
  function Split(s: bytes): (r: seq<bytes>)
    ensures r != []
  {
    var i := IndexOf(s, NEWLINE);
    if i < 0 then [s] else [s[..i]] + Split(s[i + 1..])
  }

  function EntryLines(rules: Rules, k: Kept, pieces: seq<bytes>): seq<Line> {
    if pieces == [] then []
    else [Line(k.at, k.priority, rules.clean(pieces[0]))] + EntryLines(rules, k, pieces[1..])
  }

  function Rejoined(pieces: seq<bytes>): bytes
    requires pieces != []
  {
    if |pieces| == 1 then pieces[0] else pieces[0] + [NEWLINE] + Rejoined(pieces[1..])
  }

  /** The pieces, with the newlines put back, are the message; and no piece holds one. */
  lemma {:induction false} SplitJoins(s: bytes)
    ensures Rejoined(Split(s)) == s && forall i | 0 <= i < |Split(s)| :: NEWLINE !in Split(s)[i]
    decreases |s|
  {
    var i := IndexOf(s, NEWLINE);
    NotBefore(s, NEWLINE);
    if i >= 0 {
      SplitJoins(s[i + 1..]);
      var rest := Split(s[i + 1..]);
      assert ([s[..i]] + rest)[1..] == rest;
      assert s == s[..i] + [s[i]] + s[i + 1..];
    }
  }

  /** A message without the newlines it ends in. */
  lemma {:induction false} TrimSays(s: bytes)
    ensures var kept := TrimNewlines(s);
            kept <= s && (forall i | |kept| <= i < |s| :: s[i] == 10) && (kept == [] || kept[|kept| - 1] != 10)
  {
    if s != [] && s[|s| - 1] == NEWLINE {
      TrimSays(s[..|s| - 1]);
    }
  }

  /** The entries' lines, oldest entry first. */
  function Lay(rules: Rules, newestFirst: seq<Kept>): seq<Line> {
    if newestFirst == [] then []
    else
      Lay(rules, newestFirst[1..]) + EntryLines(rules, newestFirst[0], Split(TrimNewlines(newestFirst[0].message)))
  }

  predicate LinesRise(lines: seq<Line>) {
    forall i, j | 0 <= i < j < |lines| :: lines[i].at <= lines[j].at
  }

  lemma {:induction false} EntryLinesAt(rules: Rules, k: Kept, pieces: seq<bytes>)
    ensures var r := EntryLines(rules, k, pieces);
            |r| == |pieces| && forall i | 0 <= i < |r| :: r[i] == Line(k.at, k.priority, rules.clean(pieces[i]))
  {
    if pieces != [] {
      EntryLinesAt(rules, k, pieces[1..]);
    }
  }

  /** Every line is of a picked entry, with that entry's time and priority; and they come oldest first. */
  lemma {:induction false} LayRises(rules: Rules, newestFirst: seq<Kept>)
    requires KeptFalling(newestFirst)
    ensures LinesRise(Lay(rules, newestFirst))
    ensures forall l | l in Lay(rules, newestFirst) ::
              exists k :: k in newestFirst && l.at == k.at && l.priority == k.priority
  {
    hide Split, TrimNewlines, EntryLines;
    if newestFirst != [] {
      var k, rest := newestFirst[0], newestFirst[1..];
      LayRises(rules, rest);
      var pieces := Split(TrimNewlines(k.message));
      EntryLinesAt(rules, k, pieces);
      var older, own := Lay(rules, rest), EntryLines(rules, k, pieces);
      forall l | l in older ensures l.at <= k.at && exists e ::
          e in newestFirst && l.at == e.at && l.priority == e.priority {
        var e :| e in rest && l.at == e.at && l.priority == e.priority;
        var i :| 0 <= i < |rest| && rest[i] == e;
        assert newestFirst[i + 1] == e;
      }
      var all := older + own;
      forall i, j | 0 <= i < j < |all| ensures all[i].at <= all[j].at {
        if i < |older| {
          assert all[i] == older[i] && older[i] in older;
        }
      }
    }
  }

  /** The entries' lines follow one another, from the last entry given to the first. */
  lemma {:induction false} LayAppend(rules: Rules, a: seq<Kept>, b: seq<Kept>)
    ensures Lay(rules, a + b) == Lay(rules, b) + Lay(rules, a)
  {
    hide EntryLines, Split, TrimNewlines;
    if a == [] {
      assert a + b == b;
      assert Lay(rules, b) + [] == Lay(rules, b);
    } else {
      assert (a + b)[1..] == a[1..] + b;
      LayAppend(rules, a[1..], b);
      var own := EntryLines(rules, a[0], Split(TrimNewlines(a[0].message)));
      assert Lay(rules, b) + Lay(rules, a[1..]) + own == Lay(rules, b) + (Lay(rules, a[1..]) + own);
    }
  }

  /** One entry's lines: what stands between the newlines of its message, made printable, with its time and priority. */
  lemma LayOne(rules: Rules, k: Kept, pieces: seq<bytes>)
    requires pieces != [] && Rejoined(pieces) == TrimNewlines(k.message)
    requires forall i | 0 <= i < |pieces| :: NEWLINE !in pieces[i]
    ensures var r := Lay(rules, [k]);
            |r| == |pieces| && forall i | 0 <= i < |r| :: r[i] == Line(k.at, k.priority, rules.clean(pieces[i]))
  {
    hide Rejoined, Split, TrimNewlines, EntryLines;
    assert [k][1..] == [];
    SplitOnce(TrimNewlines(k.message), pieces);
    EntryLinesAt(rules, k, pieces);
    assert Lay(rules, []) == [] by { LayNothing(rules); }
    assert [] + EntryLines(rules, k, pieces) == EntryLines(rules, k, pieces);
  }

  lemma LayNothing(rules: Rules)
    ensures Lay(rules, []) == []
  {
  }

  /** There is one way to split a text at its newlines. */
  lemma {:induction false} SplitOnce(s: bytes, pieces: seq<bytes>)
    requires pieces != [] && Rejoined(pieces) == s && forall i | 0 <= i < |pieces| :: NEWLINE !in pieces[i]
    ensures Split(s) == pieces
    decreases |pieces|
  {
    NotBefore(s, NEWLINE);
    var p := pieces[0];
    if |pieces| == 1 {
      assert s == p;
    } else {
      var more := Rejoined(pieces[1..]);
      assert s == p + [NEWLINE] + more && s[|p|] == NEWLINE;
      E.FirstThere(p, NEWLINE, more);
      var i := IndexOf(s, NEWLINE);
      assert s[..i] == p && s[i + 1..] == more;
      SplitOnce(more, pieces[1..]);
    }
  }

  /** What is sent is in order of time, for files in time order that do not overlap. */
  lemma LinesAreOldestFirst(rules: Rules, js: seq<GoodJournal>, q: Query)
    requires Apart(js) && forall i | 0 <= i < |js| :: TimeOrdered(js[i])
    ensures LinesRise(AllLines(rules, js, q))
  {
    hide Apart, TimeOrdered, GatherFiles, EligibleIn, Lay, MaskLines;
    PickedAreNewest(rules, js, q, Kept(0, 0, [], false), Kept(0, 0, [], false));
    LayRises(rules, GatherFiles(rules, js, q, 0, Gathered([], 0)).0.kept);
  }

  /** jobs.MaskLines: each line masked, and everything from a private key's first line to its last. */
  function MaskLines(rules: Rules, lines: seq<Line>, inKey: bool): (r: seq<Line>)
    ensures |r| == |lines|
    ensures forall i | 0 <= i < |r| :: r[i].at == lines[i].at && r[i].priority == lines[i].priority
  {
    if lines == [] then []
    else
      var l := lines[0];
      if inKey then [l.(text := MASKED)] + MaskLines(rules, lines[1..], !rules.closes(l.text))
      else [l.(text := rules.mask(l.text))] + MaskLines(rules, lines[1..], rules.opens(l.text) && !rules.closes(l.text))
  }

  /** No line goes out unmasked, and where no private key begins none is hidden whole. */
  lemma {:induction false} NothingGoesUnmasked(rules: Rules, lines: seq<Line>, inKey: bool, k: nat)
    requires k < |lines|
    ensures var text := MaskLines(rules, lines, inKey)[k].text;
            (text == MASKED || text == rules.mask(lines[k].text)) &&
            (!inKey && (forall i | 0 <= i < k :: !rules.opens(lines[i].text)) ==> text == rules.mask(lines[k].text))
    decreases k
  {
    if k > 0 {
      var l := lines[0].text;
      MaskStep(rules, lines, inKey, k);
      hide MaskLines;
      var next := if inKey then !rules.closes(l) else rules.opens(l) && !rules.closes(l);
      NothingGoesUnmasked(rules, lines[1..], next, k - 1);
      if forall i | 0 <= i < k :: !rules.opens(lines[i].text) {
        forall i | 0 <= i < k - 1 ensures !rules.opens(lines[1..][i].text) {
          assert lines[1..][i] == lines[i + 1];
        }
      }
    }
  }

  /** However a private key is spread over lines, everything after its first line up to its last is masked whole. */
  lemma {:induction false} KeyIsMasked(rules: Rules, lines: seq<Line>, inKey: bool, first: nat, k: nat)
    requires first < k < |lines| && rules.opens(lines[first].text)
    requires forall i | first <= i < k :: !rules.closes(lines[i].text)
    ensures MaskLines(rules, lines, inKey)[k].text == MASKED
    decreases k
  {
    hide MaskLines;
    var l := lines[0];
    var next := if inKey then !rules.closes(l.text) else rules.opens(l.text) && !rules.closes(l.text);
    MaskStep(rules, lines, inKey, k);
    if first == 0 {
      assert next;
      forall i | 0 <= i < k - 1 ensures !rules.closes(lines[1..][i].text) {
        assert lines[1..][i] == lines[i + 1];
      }
      InsideKey(rules, lines[1..], k - 1);
    } else {
      forall i | first - 1 <= i < k - 1 ensures !rules.closes(lines[1..][i].text) {
        assert lines[1..][i] == lines[i + 1];
      }
      KeyIsMasked(rules, lines[1..], next, first - 1, k - 1);
    }
  }

  lemma MaskStep(rules: Rules, lines: seq<Line>, inKey: bool, k: nat)
    requires 0 < k < |lines|
    ensures MaskLines(rules, lines, inKey)[k]
         == MaskLines(rules, lines[1..],
                      if inKey then !rules.closes(lines[0].text)
                      else rules.opens(lines[0].text) && !rules.closes(lines[0].text))[k - 1]
  {
  }

  lemma {:induction false} InsideKey(rules: Rules, lines: seq<Line>, k: nat)
    requires k < |lines| && forall i | 0 <= i < k :: !rules.closes(lines[i].text)
    ensures MaskLines(rules, lines, true)[k].text == MASKED
    decreases k
  {
    if k > 0 {
      MaskStep(rules, lines, true, k);
      forall i | 0 <= i < k - 1 ensures !rules.closes(lines[1..][i].text) {
        assert lines[1..][i] == lines[i + 1];
      }
      InsideKey(rules, lines[1..], k - 1);
    }
  }

  /** Inside a private key: after a line that opens one, with none that closes it from there on. */
  ghost predicate InsideAKey(rules: Rules, lines: seq<Line>, inKey: bool, k: nat)
    requires k <= |lines|
  {
    (inKey && forall i | 0 <= i < k :: !rules.closes(lines[i].text)) ||
    exists first | 0 <= first < k ::
      rules.opens(lines[first].text) && forall i | first <= i < k :: !rules.closes(lines[i].text)
  }

  lemma InsideStep(rules: Rules, lines: seq<Line>, inKey: bool, k: nat)
    requires 0 < k <= |lines|
    ensures var l := lines[0].text;
            var next := if inKey then !rules.closes(l) else rules.opens(l) && !rules.closes(l);
            InsideAKey(rules, lines, inKey, k) <==> InsideAKey(rules, lines[1..], next, k - 1)
  {
    var l, rest := lines[0].text, lines[1..];
    var next := if inKey then !rules.closes(l) else rules.opens(l) && !rules.closes(l);
    assert forall i | 0 < i < k :: lines[i] == rest[i - 1];
    if InsideAKey(rules, rest, next, k - 1) {
      if first :| 0 <= first < k - 1 && rules.opens(rest[first].text) &&
                  forall i | first <= i < k - 1 :: !rules.closes(rest[i].text) {
        assert rules.opens(lines[first + 1].text);
        forall i | first + 1 <= i < k ensures !rules.closes(lines[i].text) {
          assert lines[i] == rest[i - 1];
        }
      } else {
        assert next && forall i | 0 <= i < k - 1 :: !rules.closes(rest[i].text);
        forall i | 0 <= i < k ensures !rules.closes(lines[i].text) {
          assert i > 0 ==> lines[i] == rest[i - 1];
        }
        assert !inKey ==> rules.opens(lines[0].text);
      }
    }
    if InsideAKey(rules, lines, inKey, k) {
      assert forall i | 0 <= i < k - 1 :: rest[i] == lines[i + 1];
      if inKey && forall i | 0 <= i < k :: !rules.closes(lines[i].text) {
        assert next;
      } else {
        var first :| 0 <= first < k && rules.opens(lines[first].text) &&
                     forall i | first <= i < k :: !rules.closes(lines[i].text);
        if first > 0 {
          assert rules.opens(rest[first - 1].text);
        } else {
          assert next;
        }
      }
    }
  }

  lemma MaskFirst(rules: Rules, lines: seq<Line>, inKey: bool)
    requires lines != []
    ensures MaskLines(rules, lines, inKey)[0].text == if inKey then MASKED else rules.mask(lines[0].text)
    ensures InsideAKey(rules, lines, inKey, 0) <==> inKey
  {
  }

  /** Exactly: a line is hidden whole if it is inside a private key, and otherwise masked by itself. */
  lemma {:induction false} MaskedIff(rules: Rules, lines: seq<Line>, inKey: bool, k: nat)
    requires k < |lines|
    ensures MaskLines(rules, lines, inKey)[k].text
         == if InsideAKey(rules, lines, inKey, k) then MASKED else rules.mask(lines[k].text)
    decreases k
  {
    hide MaskLines, InsideAKey;
    if k == 0 {
      MaskFirst(rules, lines, inKey);
    } else {
      var l := lines[0].text;
      MaskStep(rules, lines, inKey, k);
      InsideStep(rules, lines, inKey, k);
      var next := if inKey then !rules.closes(l) else rules.opens(l) && !rules.closes(l);
      MaskedIff(rules, lines[1..], next, k - 1);
    }
  }

  /** The longest cut at most n bytes that does not split a UTF-8 character. */
  function ClipAt(s: bytes, n: nat): (r: bytes)
    requires n <= |s|
    ensures |r| <= n && r == s[..|r|]
    ensures |r| == 0 || |r| == |s| || !(128 <= s[|r|] < 192)
    ensures |r| < n ==> forall i | |r| < i <= n :: i < |s| && 128 <= s[i] < 192
  {
    if n > 0 && n < |s| && 128 <= s[n] < 192 then ClipAt(s, n - 1) else s[..n]
  }

  function Clip(s: bytes): (r: bytes)
    ensures |r| <= 300 && |r| <= |s| && r == s[..|r|] && (|s| <= 300 ==> r == s)
    ensures |r| < |s| ==>
              (|r| == 0 || !(128 <= s[|r|] < 192)) && forall i | |r| < i <= 300 :: i < |s| && 128 <= s[i] < 192
  {
    if |s| <= MAX_LINE then s else ClipAt(s, MAX_LINE)
  }

  // ---- the budget -----------------------------------------------------------------------------------------------

  function Clipped(lines: seq<Line>): (r: seq<Line>)
    ensures |r| == |lines| && forall i | 0 <= i < |r| :: r[i] == lines[i].(text := Clip(lines[i].text))
  {
    if lines == [] then [] else [lines[0].(text := Clip(lines[0].text))] + Clipped(lines[1..])
  }

  function Total(lines: seq<Line>): nat {
    if lines == [] then 0 else |lines[0].text| + Total(lines[1..])
  }

  /** The lines from s on, once clipped, are within the budget. */
  predicate Fits(lines: seq<Line>, s: nat)
    requires s <= |lines|
  {
    |lines| - s <= 40 && Total(Clipped(lines[s..])) <= 6144
  }

  lemma {:induction false} FitsLater(lines: seq<Line>, s: nat, t: nat)
    requires s <= t <= |lines| && Fits(lines, s)
    ensures Fits(lines, t)
    decreases t - s
  {
    if s < t {
      assert lines[s..][1..] == lines[s + 1..];
      FitsLater(lines, s + 1, t);
    }
  }

  /** The most lines, counted from the newest, that fit. */
  ghost predicate LongestFit(lines: seq<Line>, s: nat) {
    s <= |lines| && Fits(lines, s) && forall t: nat | t < s :: !Fits(lines, t)
  }

  predicate AnyLong(lines: seq<Line>, s: nat) {
    exists i | 0 <= s <= i < |lines| :: |lines[i].text| > MAX_LINE
  }

  /** Cuts lines to the budget: the newest are kept, and as many as fit. */
  method Budget(lines: seq<Line>) returns (out: seq<Line>, truncated: bool)
    ensures exists start: nat :: start <= |lines| && LongestFit(lines, start) && out == Clipped(lines[start..]) &&
                                 (truncated <==> start > 0 || AnyLong(lines, start))
  {
    hide Clipped, Total, Clip;
    var total := 0;
    var n := |lines|;
    out, truncated := [], false;
    NothingFits(lines);
    while n > 0
      invariant 0 <= n <= |lines|
      invariant out == Clipped(lines[n..]) && total == Total(out) && Fits(lines, n)
      invariant truncated <==> AnyLong(lines, n)
    {
      var l := lines[n - 1];
      var text := Clip(l.text);
      ClipShortens(l.text);
      OneMore(lines, n);
      AnyLongStep(lines, n);
      if total + |text| > MAX_SNIPPET || |lines| - n >= 2 * MAX_LINES {
        forall t: nat | t < n ensures !Fits(lines, t) {
          if Fits(lines, t) {
            FitsLater(lines, t, n - 1);
          }
        }
        truncated := true;
        assert LongestFit(lines, n);
        return;
      }
      if |text| < |l.text| {
        truncated := true;
      }
      out := [l.(text := text)] + out;
      total := total + |text|;
      n := n - 1;
    }
    assert LongestFit(lines, n);
  }

  lemma AnyLongStep(lines: seq<Line>, n: nat)
    requires 0 < n <= |lines|
    ensures AnyLong(lines, n - 1) <==> AnyLong(lines, n) || |lines[n - 1].text| > MAX_LINE
  {
    if AnyLong(lines, n - 1) {
      var i :| n - 1 <= i < |lines| && |lines[i].text| > MAX_LINE;
    }
  }

  lemma ClipShortens(s: bytes)
    ensures |Clip(s)| < |s| <==> |s| > MAX_LINE
  {
  }

  lemma NothingFits(lines: seq<Line>)
    ensures Clipped(lines[|lines|..]) == [] && Fits(lines, |lines|) && Total([]) == 0
  {
    assert lines[|lines|..] == [];
  }

  lemma OneMore(lines: seq<Line>, n: nat)
    requires 0 < n <= |lines|
    ensures var l := lines[n - 1].(text := Clip(lines[n - 1].text));
            Clipped(lines[n - 1..]) == [l] + Clipped(lines[n..]) &&
            Total([l] + Clipped(lines[n..])) == |l.text| + Total(Clipped(lines[n..]))
  {
    hide Clip;
    assert lines[n - 1..][1..] == lines[n..];
    var l := lines[n - 1].(text := Clip(lines[n - 1].text));
    assert ([l] + Clipped(lines[n..]))[1..] == Clipped(lines[n..]);
  }

  datatype Snippet = Snippet(lines: seq<Line>, compressed: nat, truncated: bool, withheld: bool)

  /** Everything that was picked, as masked lines, oldest first. */
  function AllLines(rules: Rules, js: seq<GoodJournal>, q: Query): seq<Line> {
    MaskLines(rules, Lay(rules, GatherFiles(rules, js, q, 0, Gathered([], 0)).0.kept), false)
  }

  /** A picked entry's message was longer than is read of one. */
  ghost predicate AnyCut(rules: Rules, js: seq<GoodJournal>, q: Query) {
    var kept := GatherFiles(rules, js, q, 0, Gathered([], 0)).0.kept;
    exists i | 0 <= i < |kept| :: kept[i].cut
  }

  /** The answer to a question about one unit: withheld, or as many of the newest lines as fit, and what was cut. */
  ghost predicate Answers(rules: Rules, js: seq<GoodJournal>, q: Query, r: Snippet) {
    if rules.loginUnit(q.unit) then r == Snippet([], 0, false, true)
    else
      !r.withheld && r.compressed == GatherFiles(rules, js, q, 0, Gathered([], 0)).0.compressed &&
      var lines := AllLines(rules, js, q);
      exists start: nat | start <= |lines| ::
        LongestFit(lines, start) && r.lines == Clipped(lines[start..]) &&
        (r.truncated <==> start > 0 || AnyLong(lines, start) || AnyCut(rules, js, q))
  }

  method LastLines(rules: Rules, js: seq<GoodJournal>, q: Query) returns (r: Snippet)
    ensures Answers(rules, js, q, r)
  {
    hide GatherFiles, MaskLines, LongestFit, AnyLong, Clipped, Lay;
    if rules.loginUnit(q.unit) {
      return Snippet([], 0, false, true);
    }
    var g := PickEntries(rules, js, q);
    var raw := LayLines(rules, g.kept);
    var masked := MaskLines(rules, raw, false);
    var lines, truncated := Budget(masked);
    ghost var start: nat :| start <= |masked| && LongestFit(masked, start) && lines == Clipped(masked[start..]) &&
                            (truncated <==> start > 0 || AnyLong(masked, start));
    var cut := exists i | 0 <= i < |g.kept| :: g.kept[i].cut;
    r := Snippet(lines, g.compressed, truncated || cut, false);
    assert masked == AllLines(rules, js, q);
    assert cut <==> AnyCut(rules, js, q);
    assert r.truncated <==> start > 0 || AnyLong(masked, start) || AnyCut(rules, js, q);
  }

  /** A question is answered in one way only. */
  lemma AnswersOnce(rules: Rules, js: seq<GoodJournal>, q: Query, r: Snippet, s: Snippet)
    requires Answers(rules, js, q, r) && Answers(rules, js, q, s)
    ensures r == s
  {
    hide GatherFiles, AllLines, AnyLong, Fits, Clipped, AnyCut;
    if !rules.loginUnit(q.unit) {
      var lines := AllLines(rules, js, q);
      var a: nat :| a <= |lines| && LongestFit(lines, a) && r.lines == Clipped(lines[a..]) &&
                    (r.truncated <==> a > 0 || AnyLong(lines, a) || AnyCut(rules, js, q));
      var b: nat :| b <= |lines| && LongestFit(lines, b) && s.lines == Clipped(lines[b..]) &&
                    (s.truncated <==> b > 0 || AnyLong(lines, b) || AnyCut(rules, js, q));
      assert a == b;
    }
  }

  /** There are no lines exactly when nothing was picked, and then nothing is said to be missing. */
  lemma NoLinesIff(rules: Rules, js: seq<GoodJournal>, q: Query, r: Snippet)
    requires Answers(rules, js, q, r) && !rules.loginUnit(q.unit)
    ensures var g := GatherFiles(rules, js, q, 0, Gathered([], 0)).0;
            (r.lines == [] <==> g.kept == []) && (g.kept == [] ==> r == Snippet([], g.compressed, false, false))
  {
    hide GatherFiles, MaskLines, Lay, Split, Fits;
    var kept, lines := GatherFiles(rules, js, q, 0, Gathered([], 0)).0.kept, AllLines(rules, js, q);
    SomeLines(rules, kept);
    if lines != [] {
      LastFits(lines);
    }
  }

  lemma SomeLines(rules: Rules, newestFirst: seq<Kept>)
    ensures Lay(rules, newestFirst) == [] <==> newestFirst == []
  {
    hide TrimNewlines, Split;
    if newestFirst != [] {
      EntryLinesAt(rules, newestFirst[0], Split(TrimNewlines(newestFirst[0].message)));
    }
  }

  /** The last line always fits. */
  lemma LastFits(lines: seq<Line>)
    requires lines != []
    ensures Fits(lines, |lines| - 1)
  {
    hide Clip;
    NothingFits(lines);
    OneMore(lines, |lines|);
  }

  method LayLines(rules: Rules, newestFirst: seq<Kept>) returns (raw: seq<Line>)
    ensures raw == Lay(rules, newestFirst)
  {
    raw := [];
    var i := |newestFirst|;
    assert newestFirst[i..] == [];
    while i > 0
      invariant 0 <= i <= |newestFirst|
      invariant raw == Lay(rules, newestFirst[i..])
    {
      i := i - 1;
      assert newestFirst[i..][1..] == newestFirst[i + 1..];
      var k := newestFirst[i];
      raw := raw + EntryLines(rules, k, Split(TrimNewlines(k.message)));
    }
    assert newestFirst[0..] == newestFirst;
  }
}
