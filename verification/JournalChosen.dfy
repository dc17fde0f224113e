/** Which entries a unit's last lines are taken from, said of the entries themselves. */
module JournalChosen {
  import opened Options
  import opened Bytes
  import opened JournalBlocks
  import opened JournalFormat
  import opened JournalFile
  import opened JournalReads
  import opened JournalLines

  /** Written about a login: facilities 4 and 10, the audit transport, or a program that logs people in. */
  predicate OfLogin(rules: Rules, e: Entry) {
    e.facility == 4 || e.facility == 10 || e.transport == Ascii("audit") || rules.loginProgram(e.identifier)
  }

  /** The unit's, in the span, at info or more urgent or at no priority at all, and not about a login. */
  predicate Asked(rules: Rules, q: Query, e: Entry) {
    q.since <= e.at <= q.until && e.unit == q.unit && e.priority <= 6 && !OfLogin(rules, e)
  }

  /** What is sent of an entry: its time, its priority, or info when it has none, and its message. */
  function Sent(x: Logged): Kept {
    Kept(x.e.at, if x.e.priority < 0 then 6 else x.e.priority, MessageOf(x.j, x.e).0, MessageOf(x.j, x.e).1)
  }

  /** Those that are asked for and can be read. */
  function Chosen(rules: Rules, q: Query, xs: seq<Logged>): seq<Kept> {
    if xs == [] then []
    else (if Asked(rules, q, xs[0].e) && xs[0].e.message > 0 then [Sent(xs[0])] else []) + Chosen(rules, q, xs[1..])
  }

  /** Asked for, and its message stored compressed. */
  function Closed(rules: Rules, q: Query): Logged -> bool {
    (x: Logged) => Asked(rules, q, x.e) && x.e.message <= 0 && x.e.compressed
  }

  function Unread(rules: Rules, q: Query, xs: seq<Logged>): nat {
    HowMany(Closed(rules, q), xs)
  }

  lemma ChosenCons(rules: Rules, q: Query, x: Logged, xs: seq<Logged>)
    ensures Chosen(rules, q, [x] + xs) == Chosen(rules, q, [x]) + Chosen(rules, q, xs)
    ensures Chosen(rules, q, [x]) == if Asked(rules, q, x.e) && x.e.message > 0 then [Sent(x)] else []
    ensures Unread(rules, q, [x] + xs) == Unread(rules, q, [x]) + Unread(rules, q, xs)
    ensures Unread(rules, q, [x]) == if Asked(rules, q, x.e) && x.e.message <= 0 && x.e.compressed then 1 else 0
    ensures Chosen(rules, q, []) == [] && Unread(rules, q, []) == 0
  {
    hide Asked, Sent;
    assert ([x] + xs)[1..] == xs && [x][1..] == [];
    HowManyCons(Closed(rules, q), x, xs);
    HowManyCons(Closed(rules, q), x, []);
    assert [x] + [] == [x];
  }

  lemma {:induction false} ChosenAppend(rules: Rules, q: Query, xs: seq<Logged>, ys: seq<Logged>)
    ensures Chosen(rules, q, xs + ys) == Chosen(rules, q, xs) + Chosen(rules, q, ys)
    ensures Unread(rules, q, xs + ys) == Unread(rules, q, xs) + Unread(rules, q, ys)
  {
    hide Chosen, Unread;
    if xs == [] {
      assert xs + ys == ys;
      ChosenNone(rules, q, xs);
    } else {
      var x, rest := xs[0], xs[1..];
      assert xs == [x] + rest && xs + ys == [x] + (rest + ys);
      ChosenCons(rules, q, x, rest);
      ChosenCons(rules, q, x, rest + ys);
      ChosenAppend(rules, q, rest, ys);
    }
  }

  lemma ChosenNone(rules: Rules, q: Query, xs: seq<Logged>)
    requires xs == []
    ensures Chosen(rules, q, xs) == [] && Unread(rules, q, xs) == 0
  {
  }

  /** What has been gathered after reading these, on top of what there was. */
  ghost predicate Gathers(rules: Rules, q: Query, g: Gathered, next: Gathered, xs: seq<Logged>) {
    next.kept == g.kept + Chosen(rules, q, xs) && next.compressed == g.compressed + Unread(rules, q, xs)
  }

  lemma GathersOn(rules: Rules, q: Query, a: Gathered, b: Gathered, c: Gathered, xs: seq<Logged>, ys: seq<Logged>)
    requires Gathers(rules, q, a, b, xs) && Gathers(rules, q, b, c, ys)
    ensures Gathers(rules, q, a, c, xs + ys)
  {
    hide Chosen, Unread;
    ChosenAppend(rules, q, xs, ys);
    assert a.kept + Chosen(rules, q, xs) + Chosen(rules, q, ys)
        == a.kept + (Chosen(rules, q, xs) + Chosen(rules, q, ys));
  }

  lemma GathersNothing(rules: Rules, q: Query, g: Gathered)
    ensures Gathers(rules, q, g, g, [])
  {
  }

  lemma GathersOne(rules: Rules, j: GoodJournal, q: Query, g: Gathered, e: Entry)
    requires |g.kept| < MAX_LINES
    ensures e.at >= q.since ==>
              Gathers(rules, q, g, Gather(rules, j, q, g, e).0, [Logged(j, e)]) &&
              (Gather(rules, j, q, g, e).1 <==> |Gather(rules, j, q, g, e).0.kept| < MAX_LINES)
    ensures e.at < q.since ==> Gathers(rules, q, g, g, [Logged(j, e)])
  {
    hide MessageOf;
    ChosenCons(rules, q, Logged(j, e), []);
  }

  /** One file's entries, handed over one by one: the first so many of them are read, and gathered. */
  lemma {:induction false} FeedGathers(rules: Rules, j: GoodJournal, q: Query, es: seq<Entry>, g: Gathered)
    requires |g.kept| < MAX_LINES
    ensures var (n, next) := Feed(q.since, Gatherer(rules, j, q), g, es);
            n <= |UpTo(es, q.since)| && (|next.kept| < MAX_LINES ==> n == |UpTo(es, q.since)|) &&
            |next.kept| <= MAX_LINES && Gathers(rules, q, g, next, In(j, UpTo(es, q.since)[..n]))
  {
    hide Gathers, Gather, In;
    if es == [] {
      GathersNothing(rules, q, g);
      assert In(j, []) == [];
    } else {
      var e, rest := es[0], es[1..];
      var read := UpTo(es, q.since);
      GathersOne(rules, j, q, g, e);
      assert read[..1] == [e] && In(j, [e]) == [Logged(j, e)];
      if e.at >= q.since {
        var (next, more) := Gather(rules, j, q, g, e);
        GatherAdds(rules, j, q, g, e);
        if more {
          var (n, last) := Feed(q.since, Gatherer(rules, j, q), next, rest);
          FeedGathers(rules, j, q, rest, next);
          var later := UpTo(rest, q.since)[..n];
          GathersOn(rules, q, g, next, last, [Logged(j, e)], In(j, later));
          assert read[..n + 1] == [e] + later && In(j, [e] + later) == [Logged(j, e)] + In(j, later);
        }
      }
    }
  }

  lemma GatherAdds(rules: Rules, j: GoodJournal, q: Query, g: Gathered, e: Entry)
    requires |g.kept| < MAX_LINES
    ensures |Gather(rules, j, q, g, e).0.kept| <= MAX_LINES
  {
    hide MessageOf, Wanted;
  }

  lemma FileGathers(rules: Rules, j: GoodJournal, q: Query, scanned: nat, g: Gathered)
    requires scanned < MAX_SCAN && !Past(j, q.since) && |g.kept| < MAX_LINES
    ensures var (n, next) := GatherFile(rules, j, q, scanned, g);
            var own := In(j, UpTo(Entries(j), q.since));
            n <= |First(own, MAX_SCAN - scanned)| && |next.kept| <= MAX_LINES &&
            (|next.kept| < MAX_LINES ==> n == |First(own, MAX_SCAN - scanned)|) &&
            Gathers(rules, q, g, next, own[..n])
  {
    hide Walk, Entries, UpTo, Feed, Gatherer, Gathers;
    var limit, es := MAX_SCAN - scanned, Entries(j);
    WalkFeeds(j, q.since, limit, Gatherer(rules, j, q), g);
    FeedGathers(rules, j, q, First(es, limit), g);
    UpToFirst(es, q.since, limit);
    var n := GatherFile(rules, j, q, scanned, g).0;
    var read := UpTo(First(es, limit), q.since);
    assert read == First(UpTo(es, q.since), limit);
    assert In(j, read[..n]) == In(j, UpTo(es, q.since))[..n];
  }

  lemma ReadStep(js: seq<GoodJournal>, since: int)
    ensures js == [] ==> ToRead(js, since) == []
    ensures js != [] ==>
              ToRead(js, since)
                == (if Past(js[0], since) then [] else In(js[0], UpTo(Entries(js[0]), since))) + ToRead(js[1..], since)
  {
  }

  lemma {:induction false} FilesGather(rules: Rules, js: seq<GoodJournal>, q: Query, scanned: nat, g: Gathered)
    requires scanned <= MAX_SCAN && |g.kept| <= MAX_LINES
    ensures var (r, total), all := GatherFiles(rules, js, q, scanned, g), ToRead(js, q.since);
            scanned <= total <= scanned + |First(all, MAX_SCAN - scanned)| && |r.kept| <= MAX_LINES &&
            (|r.kept| < MAX_LINES ==> total == scanned + |First(all, MAX_SCAN - scanned)|) &&
            Gathers(rules, q, g, r, all[..total - scanned])
    decreases |js|
  {
    hide GatherFile, GatherFiles, ToRead, Past, Gathers, Entries, UpTo, In;
    GatherStep(rules, js, q, scanned, g);
    GathersNothing(rules, q, g);
    ReadStep(js, q.since);
    var all := ToRead(js, q.since);
    assert all[..0] == [];
    if js != [] && |g.kept| < MAX_LINES && scanned < MAX_SCAN {
      var later := ToRead(js[1..], q.since);
      if Past(js[0], q.since) {
        assert all == later;
        FilesGather(rules, js[1..], q, scanned, g);
      } else {
        var own := In(js[0], UpTo(Entries(js[0]), q.since));
        var (n, next) := GatherFile(rules, js[0], q, scanned, g);
        FileGathers(rules, js[0], q, scanned, g);
        FilesGather(rules, js[1..], q, scanned + n, next);
        if |next.kept| == MAX_LINES {
          GatherStep(rules, js[1..], q, scanned + n, next);
          assert all[..n] == own[..n];
        } else {
          JoinRead(own, later, n, MAX_SCAN - scanned);
          var (r, total) := GatherFiles(rules, js[1..], q, scanned + n, next);
          var m := total - scanned - n;
          GathersOn(rules, q, g, next, r, own[..n], later[..m]);
          assert m > 0 ==> n == |own|;
          assert own[..n] + later[..m] == all[..n + m];
        }
      }
    }
  }

  lemma JoinRead(own: seq<Logged>, later: seq<Logged>, n: nat, limit: nat)
    requires n == |First(own, limit)|
    ensures |First(own + later, limit)| == n + |First(later, limit - n)|
    ensures n < |own| ==> First(later, limit - n) == []
  {
  }

  /**
   Whatever the files hold: the walk reads the first so many of the entries there are to read, at most 200000, and all
   of those unless it has twenty. What it keeps are exactly the ones among them that are asked for and have a message,
   in that order; and it counts those whose message is compressed.
   */
  lemma PickedFromEntries(rules: Rules, js: seq<GoodJournal>, q: Query)
    ensures var (g, n), all := GatherFiles(rules, js, q, 0, Gathered([], 0)), ToRead(js, q.since);
            n <= |all| && n <= 200_000 && |g.kept| <= 20 &&
            (|g.kept| < 20 ==> n == |all| || n == 200_000) &&
            g.kept == Chosen(rules, q, all[..n]) && g.compressed == Unread(rules, q, all[..n])
  {
    hide GatherFiles, ToRead, Chosen, Unread;
    FilesGather(rules, js, q, 0, Gathered([], 0));
    var n := GatherFiles(rules, js, q, 0, Gathered([], 0)).1;
    assert [] + Chosen(rules, q, ToRead(js, q.since)[..n]) == Chosen(rules, q, ToRead(js, q.since)[..n]);
  }

  /** For files in time order, the entries eligible are those that are asked for, of all that can be read. */
  lemma {:induction false} EligibleAreChosen(rules: Rules, js: seq<GoodJournal>, q: Query)
    ensures EligibleIn(rules, js, q) == Chosen(rules, q, Everything(js))
  {
    hide Entries, Offers, Present, Chosen, In;
    if js == [] {
      ChosenNone(rules, q, []);
    } else {
      EligibleAreChosen(rules, js[1..], q);
      OffersAreChosen(rules, js[0], q, Entries(js[0]));
      ChosenAppend(rules, q, In(js[0], Entries(js[0])), Everything(js[1..]));
    }
  }

  lemma {:induction false} OffersAreChosen(rules: Rules, j: GoodJournal, q: Query, es: seq<Entry>)
    ensures Present(Offers(rules, j, q, es)) == Chosen(rules, q, In(j, es))
  {
    hide Offers, Present, Chosen, Offer;
    if es == [] {
      OffersNone(rules, j, q);
      PresentCons(None, []);
      ChosenNone(rules, q, In(j, es));
    } else {
      var e, rest := es[0], es[1..];
      assert es == [e] + rest && In(j, es) == [Logged(j, e)] + In(j, rest);
      OffersCons(rules, j, q, e, rest);
      PresentCons(Offer(rules, j, q, e), Offers(rules, j, q, rest));
      ChosenCons(rules, q, Logged(j, e), In(j, rest));
      OfferIsChosen(rules, j, q, e);
      OffersAreChosen(rules, j, q, rest);
    }
  }

  lemma OfferIsChosen(rules: Rules, j: GoodJournal, q: Query, e: Entry)
    ensures Offer(rules, j, q, e)
         == if Asked(rules, q, e) && e.message > 0 then Some(Sent(Logged(j, e))) else None
  {
    hide MessageOf;
  }
}
