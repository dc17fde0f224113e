/**
 What holds over every run and every sequence of server answers: readings are conserved, each way of leaving the spool
 is justified, the waits are bounded, and a backlog drains.
 */
module DeliverySafety {
  import opened Bytes
  import opened Sorting
  import opened Decimal
  import opened Sequences
  import opened Spool
  import opened SpoolQueue
  import opened Delivery

  // ---- conservation ---------------------------------------------------------------------------------------------

  /** The readings in a directory. */
  ghost function Contents(dir: Dir): multiset<Entry> {
    multiset(Items(dir))
  }

  ghost function Items(dir: Dir): set<Entry> {
    set n | n in Readings(dir) :: Entry(n, dir[n])
  }

  /** What an event adds to the readings the agent has to account for, and what it takes away. */
  ghost function Gained(e: Event): multiset<Entry> {
    if e.Committed? then multiset{e.entry} else multiset{}
  }

  ghost function Lost(e: Event): multiset<Entry> {
    match e
    case Committed(_) => multiset{}
    case Overwritten(x) => multiset{x}
    case Evicted(xs, _) => multiset(xs)
    case Discarded(xs) => multiset(xs)
    case Answered(xs, _) => multiset(xs)
    case Unanswered(_, _) => multiset{}
  }

  ghost function AllGained(log: seq<Event>): multiset<Entry> {
    if log == [] then multiset{} else Gained(log[0]) + AllGained(log[1..])
  }

  ghost function AllLost(log: seq<Event>): multiset<Entry> {
    if log == [] then multiset{} else Lost(log[0]) + AllLost(log[1..])
  }

  lemma {:induction false} LogAppend(s: seq<Event>, t: seq<Event>)
    ensures AllGained(s + t) == AllGained(s) + AllGained(t) && AllLost(s + t) == AllLost(s) + AllLost(t)
  {
    if s == [] {
      assert s + t == t;
    } else {
      assert (s + t)[1..] == s[1..] + t;
      LogAppend(s[1..], t);
    }
  }

  lemma OneEvent(e: Event)
    ensures AllGained([e]) == Gained(e) && AllLost([e]) == Lost(e)
  {
    assert [e][1..] == [];
  }

  lemma ItemsMember(dir: Dir, e: Entry)
    ensures e in Items(dir) <==> IsReading(e.name) && e.name in dir && dir[e.name] == e.data
  {
    hide IsReading;
    assert e.name in Readings(dir) <==> e.name in dir && IsReading(e.name);
  }

  lemma ContentsPut(dir: Dir, n: bytes, data: bytes)
    requires IsReading(n) && n !in dir
    ensures Contents(dir[n := data]) == Contents(dir) + multiset{Entry(n, data)}
  {
    hide IsReading, Items;
    var x, more := Entry(n, data), dir[n := data];
    forall e ensures e in Items(more) <==> e in Items(dir) || e == x {
      ItemsMember(dir, e);
      ItemsMember(more, e);
    }
    assert Items(more) == Items(dir) + {x};
    ItemsMember(dir, x);
  }

  lemma ContentsRemove(dir: Dir, n: bytes)
    requires n in dir && IsReading(n)
    ensures Contents(dir - {n}) + multiset{Entry(n, dir[n])} == Contents(dir)
  {
    hide IsReading, Contents;
    ContentsPut(dir - {n}, n, dir[n]);
    assert (dir - {n})[n := dir[n]] == dir;
  }

  lemma ContentsReplace(dir: Dir, n: bytes, data: bytes)
    requires n in dir && IsReading(n)
    ensures Contents(dir[n := data]) + multiset{Entry(n, dir[n])} == Contents(dir) + multiset{Entry(n, data)}
  {
    hide IsReading, Contents;
    ContentsRemove(dir, n);
    ContentsPut(dir - {n}, n, data);
    assert (dir - {n})[n := data] == dir[n := data];
  }

  /** A file that is not a reading makes no difference. */
  lemma ContentsIgnore(dir: Dir, n: bytes)
    requires !IsReading(n)
    ensures Contents(dir - {n}) == Contents(dir)
  {
    hide IsReading, Items;
    forall e ensures e in Items(dir - {n}) <==> e in Items(dir) {
      ItemsMember(dir, e);
      ItemsMember(dir - {n}, e);
    }
    assert Items(dir - {n}) == Items(dir);
  }

  lemma {:induction false} ContentsWithout(dir: Dir, names: seq<bytes>)
    requires Distinct(names) && forall n | n in names :: n in dir && IsReading(n)
    ensures Contents(Without(dir, names)) + multiset(EntriesAt(dir, names)) == Contents(dir)
    decreases |names|
  {
    hide Contents, Without, IsReading, EntriesAt;
    EntriesAtNone(dir);
    if names == [] {
      WithoutNothing(dir);
    } else {
      var n, rest := names[0], names[1..];
      var smaller := dir - {n};
      DistinctRest(names);
      ContentsWithout(smaller, rest);
      ContentsRemove(dir, n);
      WithoutHead(dir, n, rest);
      assert names == [n] + rest;
      EntriesAtSame(dir, smaller, rest);
      EntriesAtHead(dir, names);
    }
  }

  lemma EntriesAtNone(dir: Dir)
    ensures EntriesAt(dir, []) == []
  {
  }

  lemma EntriesAtHead(dir: Dir, names: seq<bytes>)
    requires names != [] && forall n | n in names :: n in dir
    ensures multiset(EntriesAt(dir, names))
            == multiset{Entry(names[0], dir[names[0]])} + multiset(EntriesAt(dir, names[1..]))
  {
  }

  lemma WithoutHead(dir: Dir, n: bytes, rest: seq<bytes>)
    ensures Without(dir, [n] + rest) == Without(dir - {n}, rest)
  {
  }

  lemma {:induction false} EntriesAtSame(dir: Dir, other: Dir, names: seq<bytes>)
    requires forall n | n in names :: n in dir && n in other && dir[n] == other[n]
    ensures EntriesAt(dir, names) == EntriesAt(other, names)
  {
    if names != [] {
      EntriesAtSame(dir, other, names[1..]);
    }
  }

  lemma ExcessDistinct(dir: Dir, max: nat)
    ensures Distinct(Excess(dir, max))
  {
    AscendingMeans(Readings(dir));
    forall i, j | 0 <= i < j < |Excess(dir, max)| ensures Excess(dir, max)[i] != Excess(dir, max)[j] {
      assert CompareBytes(Names(dir)[i], Names(dir)[j]) == -1;
    }
  }

  /** Two balanced accounts, one after the other, balance. */
  lemma Balanced(a: multiset<Entry>, g: multiset<Entry>, b: multiset<Entry>, l: multiset<Entry>, h: multiset<Entry>,
                 c: multiset<Entry>, m: multiset<Entry>)
    requires a + g == b + l && b + h == c + m
    ensures a + (g + h) == c + (l + m)
  {
    assert a + (g + h) == a + g + h == b + l + h == b + h + l == c + m + l == c + (l + m);
  }

  /** Collecting: what is committed is in the directory, or took another's name, or pushed the oldest out. */
  lemma CollectConserves(config: Config, a: Agent, t: Tick)
    ensures var (b, log) := Collect(config, a, t);
            Contents(a.dir) + AllGained(log) == Contents(b.dir) + AllLost(log)
  {
    hide Contents, Excess, Without, IsReading, EntriesAt, Name, AllGained, AllLost;
    var (b, log) := Collect(config, a, t);
    LogNothing();
    if t.reading.Some? {
      var e := Entry(Name(a.number + 1), t.reading.value);
      NameIsReading(a.number + 1);
      TmpIsNoReading(e.name);
      ContentsIgnore(a.dir, e.name + TMP);
      var swept := a.dir - {e.name + TMP};
      if Commits(t.addFault) {
        var full := swept[e.name := e.data];
        var over := if e.name in a.dir then [Overwritten(Entry(e.name, a.dir[e.name]))] else [];
        PutConserves(a.dir, swept, e, over);
        if t.addFault.Fine? {
          ExcessInDir(full, config.max);
          var evicted := Evicted(EntriesAt(full, Excess(full, config.max)), b.dir);
          TrimConserves(full, config.max, b.dir);
          LogAppend(over + [Committed(e)], [evicted]);
          Balanced(Contents(swept), AllGained(over + [Committed(e)]), Contents(full), AllLost(over + [Committed(e)]),
                   AllGained([evicted]), Contents(b.dir), AllLost([evicted]));
        } else {
          assert log == over + [Committed(e)] + [];
          assert over + [Committed(e)] + [] == over + [Committed(e)];
        }
      }
    }
  }

  lemma LogNothing()
    ensures AllGained([]) == multiset{} && AllLost([]) == multiset{}
  {
  }

  lemma PutConserves(dir: Dir, swept: Dir, e: Entry, over: seq<Event>)
    requires IsReading(e.name) && swept == dir - {e.name + TMP}
    requires over == if e.name in dir then [Overwritten(Entry(e.name, dir[e.name]))] else []
    ensures var log := over + [Committed(e)];
            Contents(swept) + AllGained(log) == Contents(swept[e.name := e.data]) + AllLost(log)
  {
    hide Contents, IsReading, AllGained, AllLost;
    assert e.name in swept <==> e.name in dir by {
      assert |e.name + TMP| != |e.name|;
    }
    OneEvent(Committed(e));
    LogAppend(over, [Committed(e)]);
    if e.name in dir {
      assert over == [over[0]];
      OneEvent(over[0]);
      ContentsReplace(swept, e.name, e.data);
      assert AllGained(over + [Committed(e)]) == multiset{e};
      assert AllLost(over + [Committed(e)]) == multiset{Entry(e.name, swept[e.name])};
    } else {
      LogNothing();
      ContentsPut(swept, e.name, e.data);
    }
  }

  lemma TrimConserves(full: Dir, max: nat, kept: Dir)
    requires kept == Without(full, Excess(full, max))
    ensures forall n | n in Excess(full, max) :: n in full
    ensures var log := [Evicted(EntriesAt(full, Excess(full, max)), kept)];
            Contents(full) + AllGained(log) == Contents(kept) + AllLost(log)
  {
    hide Contents, Excess, Without, IsReading, EntriesAt, AllGained, AllLost;
    ExcessInDir(full, max);
    ExcessDistinct(full, max);
    ContentsWithout(full, Excess(full, max));
    OneEvent(Evicted(EntriesAt(full, Excess(full, max)), kept));
  }

  /** Sending: what leaves was damaged, or was in a batch that was answered. */
  lemma SendConserves(config: Config, a: Agent, t: Tick)
    ensures var (b, log) := Send(config, a, t);
            Contents(a.dir) + AllGained(log) == Contents(b.dir) + AllLost(log)
  {
    hide Contents, TakenUp, Without, EntriesAt, NamesOf, IsReading, AllGained, AllLost;
    var (b, log) := Send(config, a, t);
    var taken := TakenUp(a.dir, config.valid, MAX_BATCH, t.listed, t.unreadable);
    TakenShape(a.dir, config.valid, MAX_BATCH, t.listed, t.unreadable);
    var discarded := Discarded(EntriesAt(a.dir, taken.damaged));
    ContentsWithout(a.dir, taken.damaged);
    OneEvent(discarded);
    var left := Without(a.dir, taken.damaged);
    if taken.ok && taken.entries != [] {
      TakenStay(a.dir, taken.damaged, taken.entries);
      var last := if Settles(t.answer) then Answered(taken.entries, t.answer) else Unanswered(taken.entries, t.answer);
      AnswerConserves(left, taken.entries, t.answer);
      LogAppend([discarded], [last]);
      Balanced(Contents(a.dir), AllGained([discarded]), Contents(left), AllLost([discarded]), AllGained([last]),
               Contents(b.dir), AllLost([last]));
      assert log == [discarded] + [last];
    } else {
      assert log == [discarded];
    }
  }

  lemma AnswerConserves(left: Dir, entries: seq<Entry>, answer: Answer)
    requires Distinct(NamesOf(entries)) && forall n | n in NamesOf(entries) :: n in left && IsReading(n)
    requires forall e | e in entries :: e.name in left && left[e.name] == e.data
    ensures var log := [if Settles(answer) then Answered(entries, answer) else Unanswered(entries, answer)];
            var after := if Settles(answer) then Without(left, NamesOf(entries)) else left;
            Contents(left) + AllGained(log) == Contents(after) + AllLost(log)
  {
    hide Contents, Without, EntriesAt, NamesOf, IsReading, AllGained, AllLost;
    ContentsWithout(left, NamesOf(entries));
    EntriesBack(left, entries);
    OneEvent(if Settles(answer) then Answered(entries, answer) else Unanswered(entries, answer));
  }

  /** A Take's entries and damaged readings are different readings of the directory, with their own data. */
  lemma TakenShape(dir: Dir, valid: bytes -> bool, n: nat, listed: bool, unreadable: set<bytes>)
    ensures var t := TakenUp(dir, valid, n, listed, unreadable);
            Distinct(t.damaged) && Distinct(NamesOf(t.entries)) && |t.entries| <= n &&
            (forall e | e in t.entries ::
               e.name in dir && e.data == dir[e.name] && IsReading(e.name) && valid(e.data)) &&
            (forall x | x in t.damaged :: x in dir && IsReading(x) && !valid(dir[x]))
  {
    hide IsReading, TakeFrom;
    TakenInDir(dir, valid, n, listed, unreadable);
    OldestInDir(dir, n);
    OldestDiffer(dir, n);
    TakeShape(dir, valid, unreadable, Oldest(dir, n));
    if listed {
      AscendingMeans(Readings(dir));
      forall e | e in TakenUp(dir, valid, n, listed, unreadable).entries ensures IsReading(e.name) {
        assert e.name in Oldest(dir, n);
      }
    }
  }

  lemma {:induction false} TakeShape(dir: Dir, valid: bytes -> bool, unreadable: set<bytes>, names: seq<bytes>)
    requires Distinct(names) && forall n | n in names :: n in dir
    ensures var t := TakeFrom(dir, valid, unreadable, names);
            Distinct(t.damaged) && Distinct(NamesOf(t.entries)) && |t.entries| <= |names| &&
            (forall e | e in t.entries :: e.name in names && e.data == dir[e.name] && valid(e.data)) &&
            (forall x | x in t.damaged :: x in names) && (forall x | x in NamesOf(t.entries) :: x in names)
    decreases |names|
  {
    hide NamesOf;
    NamesOfNone();
    if names != [] && names[0] !in unreadable {
      var x, rest := names[0], names[1..];
      DistinctRest(names);
      TakeShape(dir, valid, unreadable, rest);
      var t := TakeFrom(dir, valid, unreadable, rest);
      if valid(dir[x]) {
        DistinctCons(x, NamesOf(t.entries));
        NamesOfCons(Entry(x, dir[x]), t.entries);
      } else {
        DistinctCons(x, t.damaged);
      }
    }
  }

  lemma DistinctRest(names: seq<bytes>)
    requires Distinct(names) && names != []
    ensures Distinct(names[1..]) && names[0] !in names[1..] && forall n | n in names[1..] :: n in names
  {
    var rest := names[1..];
    assert forall i | 0 <= i < |rest| :: rest[i] == names[i + 1];
  }

  lemma DistinctCons(x: bytes, s: seq<bytes>)
    requires Distinct(s) && x !in s
    ensures Distinct([x] + s)
  {
  }

  lemma NamesOfNone()
    ensures NamesOf([]) == []
  {
  }

  lemma NamesOfCons(e: Entry, s: seq<Entry>)
    ensures NamesOf([e] + s) == [e.name] + NamesOf(s)
  {
    assert ([e] + s)[1..] == s;
  }

  lemma {:induction false} NamesOfMembers(entries: seq<Entry>)
    ensures |NamesOf(entries)| == |entries| && forall i | 0 <= i < |entries| :: NamesOf(entries)[i] == entries[i].name
  {
    if entries != [] {
      NamesOfMembers(entries[1..]);
    }
  }

  /** What was taken is still there after the damaged readings are removed. */
  lemma TakenStay(dir: Dir, damaged: seq<bytes>, entries: seq<Entry>)
    requires forall e | e in entries ::
               e.name in dir && e.data == dir[e.name] && IsReading(e.name) && e.name !in damaged
    ensures forall n | n in NamesOf(entries) :: n in Without(dir, damaged) && IsReading(n)
    ensures forall e | e in entries :: e.name in Without(dir, damaged) && Without(dir, damaged)[e.name] == e.data
  {
    NamesOfMembers(entries);
    forall n | n in NamesOf(entries) ensures n in Without(dir, damaged) && IsReading(n) {
      var k :| 0 <= k < |entries| && NamesOf(entries)[k] == n;
      assert entries[k] in entries;
    }
  }

  lemma EntriesBack(dir: Dir, entries: seq<Entry>)
    requires forall e | e in entries :: e.name in dir && dir[e.name] == e.data
    requires forall n | n in NamesOf(entries) :: n in dir
    ensures EntriesAt(dir, NamesOf(entries)) == entries
  {
    NamesOfMembers(entries);
    var r := EntriesAt(dir, NamesOf(entries));
    forall i | 0 <= i < |entries| ensures r[i] == entries[i] {
      assert entries[i] in entries;
    }
  }

  /**
   Conservation. Over any run: the readings there were, and those committed since, are exactly those still spooled and
   those that left by an event of the log, counted with their data.
   */
  lemma {:induction false} RunConserves(config: Config, a: Agent, ticks: seq<Tick>)
    ensures var (b, log, _) := Run(config, a, ticks);
            Contents(a.dir) + AllGained(log) == Contents(b.dir) + AllLost(log)
    decreases |ticks|
  {
    hide Contents, Collect, Send, Gained, Lost;
    LogNothing();
    if ticks != [] {
      var t := ticks[0];
      var (b, log1) := Collect(config, a, t);
      var (c, log2) := Send(config, b, t);
      CollectConserves(config, a, t);
      SendConserves(config, b, t);
      LogAppend(log1, log2);
      Balanced(Contents(a.dir), AllGained(log1), Contents(b.dir), AllLost(log1), AllGained(log2), Contents(c.dir),
               AllLost(log2));
      RunConserves(config, c, ticks[1..]);
      var (d, log3, _) := Run(config, c, ticks[1..]);
      LogAppend(log1 + log2, log3);
      Balanced(Contents(a.dir), AllGained(log1 + log2), Contents(c.dir), AllLost(log1 + log2), AllGained(log3),
               Contents(d.dir), AllLost(log3));
    }
  }

  /** The same for a run that has ended. */
  lemma FinishedConserves(config: Config, a: Agent, ticks: seq<Tick>, last: Tick)
    ensures var (b, log) := Finished(config, a, ticks, last);
            Contents(a.dir) + AllGained(log) == Contents(b.dir) + AllLost(log)
  {
    hide Contents, Collect, Run;
    var (b, log, _) := Run(config, a, ticks);
    var (c, more) := Collect(config, b, last);
    RunConserves(config, a, ticks);
    CollectConserves(config, b, last);
    LogAppend(log, more);
    Balanced(Contents(a.dir), AllGained(log), Contents(b.dir), AllLost(log), AllGained(more), Contents(c.dir),
             AllLost(more));
  }

  // ---- nothing goes twice ---------------------------------------------------------------------------------------

  /** Sequence numbers still to come name no file yet. */
  ghost predicate Ahead(a: Agent) {
    forall m: nat | a.number < m < Pow10(WIDTH) :: Name(m) !in a.dir
  }

  /** A log that gains only readings numbered from `low` up to `high`, each once. */
  ghost predicate GainsOnce(log: seq<Event>, low: nat, high: nat) {
    forall e ::
      AllGained(log)[e] <= 1 &&
      (AllGained(log)[e] == 1 ==> exists m: nat :: low < m <= high && e.name == Name(m))
  }

  lemma CollectAhead(config: Config, a: Agent, t: Tick)
    requires Ahead(a) && a.number + 1 < Pow10(WIDTH)
    ensures Ahead(Collect(config, a, t).0)
    ensures forall e | e in Collect(config, a, t).1 :: !e.Overwritten?
  {
    hide Name, Pow10, Excess, EntriesAt, Without;
    var b := Collect(config, a, t).0;
    forall m: nat | b.number < m < Pow10(WIDTH) ensures Name(m) !in b.dir {
      NameOrder(b.number, m);
      if t.reading.Some? {
        WithoutKeys((a.dir - {Name(b.number) + TMP})[Name(b.number) := t.reading.value]);
      }
    }
  }

  lemma CollectGains(config: Config, a: Agent, t: Tick)
    requires Name(a.number + 1) !in a.dir
    ensures GainsOnce(Collect(config, a, t).1, a.number, a.number + 1)
  {
    hide Name, Pow10, Excess, EntriesAt, AllGained, Added;
    var log := Collect(config, a, t).1;
    if t.reading.Some? && Commits(t.addFault) {
      var e := Entry(Name(a.number + 1), t.reading.value);
      OneEvent(Committed(e));
      var tail := if t.addFault.Fine? then [log[1]] else [];
      NoCommits(tail);
      LogAppend([Committed(e)], tail);
      assert log == [Committed(e)] + tail;
      assert AllGained(log) == multiset{e};
    } else {
      LogNothing();
    }
  }

  lemma {:induction false} NoCommits(log: seq<Event>)
    requires forall e | e in log :: !e.Committed?
    ensures AllGained(log) == multiset{}
  {
    if log != [] {
      NoCommits(log[1..]);
    }
  }

  lemma WithoutKeys(dir: Dir)
    ensures forall names :: Without(dir, names).Keys <= dir.Keys
  {
  }

  lemma SendGainsNothing(config: Config, a: Agent, t: Tick)
    ensures AllGained(Send(config, a, t).1) == multiset{}
    ensures forall e | e in Send(config, a, t).1 :: !e.Overwritten?
    ensures Send(config, a, t).0.number == a.number && Send(config, a, t).0.dir.Keys <= a.dir.Keys
  {
    hide TakenUp, EntriesAt, NamesOf, AllGained, Without;
    WithoutKeys(a.dir);
    WithoutKeys(Without(a.dir, TakenUp(a.dir, config.valid, MAX_BATCH, t.listed, t.unreadable).damaged));
    NoCommits(Send(config, a, t).1);
  }

  lemma GainsMore(log: seq<Event>, more: seq<Event>, low: nat, mid: nat, high: nat)
    requires GainsOnce(log, low, mid) && GainsOnce(more, mid, high) && low <= mid <= high < Pow10(WIDTH)
    ensures GainsOnce(log + more, low, high)
  {
    hide Name, Pow10, AllGained, AllLost;
    LogAppend(log, more);
    forall e ensures !(AllGained(log)[e] == 1 && AllGained(more)[e] == 1) {
      if AllGained(log)[e] == 1 && AllGained(more)[e] == 1 {
        var m: nat :| low < m <= mid && e.name == Name(m);
        var n: nat :| mid < n <= high && e.name == Name(n);
        NameOrder(m, n);
      }
    }
  }

  /** With numbers that rise above every file there is, no run overwrites a reading or commits one twice. */
  lemma {:induction false} RunGainsOnce(config: Config, a: Agent, ticks: seq<Tick>)
    requires Ahead(a) && a.number + |ticks| < Pow10(WIDTH)
    ensures GainsOnce(Run(config, a, ticks).1, a.number, a.number + |ticks|)
    ensures forall e | e in Run(config, a, ticks).1 :: !e.Overwritten?
    decreases |ticks|
  {
    hide Ahead, GainsOnce, Collect, Send, Pow10, AllGained, AllLost;
    if ticks == [] {
      GainsNone(a.number);
    } else {
      var (b, log1) := Collect(config, a, ticks[0]);
      CollectAhead(config, a, ticks[0]);
      NextIsFree(a);
      CollectGains(config, a, ticks[0]);
      var (c, log2) := Send(config, b, ticks[0]);
      SendGainsNothing(config, b, ticks[0]);
      CollectCounts(config, a, ticks[0]);
      StillAhead(b, c);
      RunGainsOnce(config, c, ticks[1..]);
      var log3 := Run(config, c, ticks[1..]).1;
      LogAppend(log1, log2);
      GainsSame(log1, log1 + log2, a.number, b.number);
      GainsMore(log1 + log2, log3, a.number, b.number, a.number + |ticks|);
    }
  }

  lemma NextIsFree(a: Agent)
    requires Ahead(a) && a.number + 1 < Pow10(WIDTH)
    ensures Name(a.number + 1) !in a.dir
  {
    hide Name, Pow10;
  }

  lemma GainsNone(n: nat)
    ensures GainsOnce([], n, n)
  {
    LogNothing();
  }

  lemma GainsSame(log: seq<Event>, more: seq<Event>, low: nat, high: nat)
    requires GainsOnce(log, low, high) && AllGained(more) == AllGained(log) + multiset{}
    ensures GainsOnce(more, low, high)
  {
    hide AllGained;
    assert AllGained(more) == AllGained(log);
  }

  lemma CollectCounts(config: Config, a: Agent, t: Tick)
    ensures Collect(config, a, t).0.number == a.number + 1
  {
  }

  lemma StillAhead(a: Agent, b: Agent)
    requires Ahead(a) && b.number == a.number && b.dir.Keys <= a.dir.Keys
    ensures Ahead(b)
  {
    hide Name, Pow10;
  }

  lemma {:induction false} RunStaysAhead(config: Config, a: Agent, ticks: seq<Tick>)
    requires Ahead(a) && a.number + |ticks| < Pow10(WIDTH)
    ensures Ahead(Run(config, a, ticks).0) && Run(config, a, ticks).0.number == a.number + |ticks|
    decreases |ticks|
  {
    hide Ahead, Collect, Send, Pow10, AllGained;
    if ticks != [] {
      var b := Collect(config, a, ticks[0]).0;
      CollectAhead(config, a, ticks[0]);
      CollectCounts(config, a, ticks[0]);
      var c := Send(config, b, ticks[0]).0;
      SendGainsNothing(config, b, ticks[0]);
      StillAhead(b, c);
      RunStaysAhead(config, c, ticks[1..]);
    }
  }

  /** The same for a run that has ended. */
  lemma FinishedGainsOnce(config: Config, a: Agent, ticks: seq<Tick>, last: Tick)
    requires Ahead(a) && a.number + |ticks| + 1 < Pow10(WIDTH)
    ensures GainsOnce(Finished(config, a, ticks, last).1, a.number, a.number + |ticks| + 1)
    ensures forall e | e in Finished(config, a, ticks, last).1 :: !e.Overwritten?
  {
    hide Ahead, GainsOnce, Collect, Run, Pow10, AllGained, AllLost;
    var (b, log, _) := Run(config, a, ticks);
    RunGainsOnce(config, a, ticks);
    RunStaysAhead(config, a, ticks);
    CollectAhead(config, b, last);
    NextIsFree(b);
    CollectGains(config, b, last);
    GainsMore(log, Collect(config, b, last).1, a.number, b.number, b.number + 1);
  }

  /** So a reading collected in a run leaves the spool at most once: one answer, one eviction, or neither. */
  lemma LeavesOnce(config: Config, a: Agent, ticks: seq<Tick>, last: Tick, e: Entry)
    requires Ahead(a) && a.number + |ticks| + 1 < Pow10(WIDTH)
    ensures AllLost(Finished(config, a, ticks, last).1)[e] <= 1
  {
    hide Finished, Name, Pow10, AllGained, AllLost, Items;
    var (b, log) := Finished(config, a, ticks, last);
    FinishedConserves(config, a, ticks, last);
    FinishedGainsOnce(config, a, ticks, last);
    assert (Contents(a.dir) + AllGained(log))[e] == (Contents(b.dir) + AllLost(log))[e];
    if AllGained(log)[e] == 1 {
      var m: nat :| a.number < m <= a.number + |ticks| + 1 && e.name == Name(m);
      ItemsMember(a.dir, e);
    }
  }

  // ---- every way out is justified -------------------------------------------------------------------------------

  /**
   Evicted readings are older than every reading kept, and the spool is full; discarded ones are not JSON; answered ones
   went out in one batch of at most sixty valid readings that Send accepted or settled; unanswered ones did not.
   */
  ghost predicate Justified(config: Config, e: Event) {
    match e
    case Committed(_) => true
    case Overwritten(_) => true
    case Evicted(xs, kept) =>
      xs != [] ==>
        |Readings(kept)| == config.max && forall x, n | x in xs && n in Readings(kept) :: CompareBytes(x.name, n) == -1
    case Discarded(xs) => forall x | x in xs :: !config.valid(x.data)
    case Answered(xs, answer) => Settles(answer) && 0 < |xs| <= MAX_BATCH && forall x | x in xs :: config.valid(x.data)
    case Unanswered(xs, answer) => !Settles(answer) && 0 < |xs| <= MAX_BATCH
  }

  lemma SplitAscending(names: seq<bytes>, k: nat)
    requires StrictlyAscending(names) && k <= |names|
    ensures StrictlyAscending(names[k..])
    ensures forall n :: n in names[k..] <==> n in names && n !in names[..k]
    ensures forall x, n | x in names[..k] && n in names[k..] :: CompareBytes(x, n) == -1
  {
    hide CompareBytes;
    var early, later := names[..k], names[k..];
    assert names == early + later;
    forall x, n | x in early && n in later ensures CompareBytes(x, n) == -1 && x != n {
      var i :| 0 <= i < |early| && early[i] == x;
      var j :| 0 <= j < |later| && later[j] == n;
      assert names[i] == x && names[j + k] == n;
      CompareSelf(x);
    }
    forall i, j | 0 <= i < j < |later| ensures CompareBytes(later[i], later[j]) == -1 {
      assert later[i] == names[i + k] && later[j] == names[j + k];
    }
  }

  lemma CompareSelf(x: bytes)
    ensures CompareBytes(x, x) == 0
  {
  }

  lemma EvictedAreOldest(dir: Dir, max: nat)
    requires |Names(dir)| > max
    ensures |Readings(Without(dir, Excess(dir, max)))| == max
    ensures forall x, n | x in Excess(dir, max) && n in Readings(Without(dir, Excess(dir, max))) ::
              CompareBytes(x, n) == -1
  {
    hide CompareBytes, IsReading, Ascending;
    var names, k := Names(dir), |Names(dir)| - max;
    AscendingMeans(Readings(dir));
    SplitAscending(names, k);
    var kept := Readings(Without(dir, Excess(dir, max)));
    assert forall n :: n in names[k..] <==> n in kept;
    AscendingUnique(kept, names[k..]);
    AscendingMeans(kept);
  }

  lemma TrimJustified(config: Config, full: Dir)
    ensures forall n | n in Excess(full, config.max) :: n in full
    ensures var names := Excess(full, config.max);
            Justified(config, Evicted(EntriesAt(full, names), Without(full, names)))
  {
    hide Without, IsReading, CompareBytes, Names;
    ExcessInDir(full, config.max);
    var names := Excess(full, config.max);
    var xs := EntriesAt(full, names);
    if |Names(full)| > config.max {
      EvictedAreOldest(full, config.max);
      forall x | x in xs ensures x.name in names {
        var i :| 0 <= i < |xs| && xs[i] == x;
      }
    }
  }

  lemma CollectJustified(config: Config, a: Agent, t: Tick)
    ensures forall e | e in Collect(config, a, t).1 :: Justified(config, e)
  {
    hide Without, IsReading, Excess, EntriesAt, Name;
    var (b, log) := Collect(config, a, t);
    if t.reading.Some? && t.addFault.Fine? {
      var e := Entry(Name(a.number + 1), t.reading.value);
      TrimJustified(config, (a.dir - {e.name + TMP})[e.name := e.data]);
    }
  }

  lemma SendJustified(config: Config, a: Agent, t: Tick)
    ensures forall e | e in Send(config, a, t).1 :: Justified(config, e)
  {
    hide TakenUp, Without, IsReading, NamesOf;
    var taken := TakenUp(a.dir, config.valid, MAX_BATCH, t.listed, t.unreadable);
    TakenInDir(a.dir, config.valid, MAX_BATCH, t.listed, t.unreadable);
    TakenShape(a.dir, config.valid, MAX_BATCH, t.listed, t.unreadable);
    var xs := EntriesAt(a.dir, taken.damaged);
    forall x | x in xs ensures !config.valid(x.data) {
      var i :| 0 <= i < |xs| && xs[i] == x;
      assert taken.damaged[i] in taken.damaged;
    }
    assert Justified(config, Discarded(xs));
    if taken.entries != [] {
      if Settles(t.answer) {
        assert Justified(config, Answered(taken.entries, t.answer));
      } else {
        assert Justified(config, Unanswered(taken.entries, t.answer));
      }
    }
  }

  /** Over any run, every way a reading left was justified. */
  lemma {:induction false} RunJustified(config: Config, a: Agent, ticks: seq<Tick>)
    ensures forall e | e in Run(config, a, ticks).1 :: Justified(config, e)
    decreases |ticks|
  {
    hide Justified, Collect, Send;
    if ticks != [] {
      var t := ticks[0];
      var b := Collect(config, a, t).0;
      var c := Send(config, b, t).0;
      CollectJustified(config, a, t);
      SendJustified(config, b, t);
      RunJustified(config, c, ticks[1..]);
    }
  }

  /** The same for a run that has ended. */
  lemma FinishedJustified(config: Config, a: Agent, ticks: seq<Tick>, last: Tick)
    ensures forall e | e in Finished(config, a, ticks, last).1 :: Justified(config, e)
  {
    hide Justified, Collect, Run;
    RunJustified(config, a, ticks);
    CollectJustified(config, Run(config, a, ticks).0, last);
  }

  /** A push that failed without settling takes no valid reading away. */
  lemma UnsettledKeeps(config: Config, a: Agent, t: Tick, n: bytes)
    requires t.answer.Refused? && !t.answer.settled
    requires n in Readings(a.dir) && config.valid(a.dir[n])
    ensures n in Send(config, a, t).0.dir && Send(config, a, t).0.dir[n] == a.dir[n]
  {
    TakenInDir(a.dir, config.valid, MAX_BATCH, t.listed, t.unreadable);
  }

  // ---- the bound ------------------------------------------------------------------------------------------------

  lemma TrimBounds(full: Dir, max: nat)
    ensures |Readings(Without(full, Excess(full, max)))| <= max
  {
    hide IsReading, Ascending;
    AscendingMeans(Readings(full));
    if |Names(full)| > max {
      EvictedAreOldest(full, max);
    } else {
      WithoutNothing(full);
    }
  }

  lemma FewerReadings(dir: Dir, other: Dir)
    requires other.Keys <= dir.Keys
    ensures |Readings(other)| <= |Readings(dir)|
  {
    hide IsReading;
    SubsetSize(Readings(other), Readings(dir));
  }

  lemma CollectBounded(config: Config, a: Agent, t: Tick)
    requires |Readings(a.dir)| <= config.max && !t.addFault.NoListing?
    ensures |Readings(Collect(config, a, t).0.dir)| <= config.max
  {
    hide Readings, Excess, Without, EntriesAt, Name;
    var name := Name(a.number + 1);
    FewerReadings(a.dir, a.dir - {name + TMP});
    if t.reading.Some? {
      TrimBounds((a.dir - {name + TMP})[name := t.reading.value], config.max);
    }
  }

  lemma StepBounded(config: Config, a: Agent, t: Tick)
    requires |Readings(a.dir)| <= config.max && !t.addFault.NoListing?
    ensures |Readings(Step(config, a, t).0.dir)| <= config.max
  {
    hide Readings, Collect, Send;
    var b := Collect(config, a, t).0;
    CollectBounded(config, a, t);
    SendGainsNothing(config, b, t);
    FewerReadings(b.dir, Send(config, b, t).0.dir);
  }

  /** The spool never holds more readings than its limit, as long as its directory can be listed when one is added. */
  lemma {:induction false} RunBounded(config: Config, a: Agent, ticks: seq<Tick>)
    requires |Readings(a.dir)| <= config.max && forall i | 0 <= i < |ticks| :: !ticks[i].addFault.NoListing?
    ensures |Readings(Run(config, a, ticks).0.dir)| <= config.max
    decreases |ticks|
  {
    hide Step, Readings;
    if ticks != [] {
      StepBounded(config, a, ticks[0]);
      RunBounded(config, Step(config, a, ticks[0]).0, ticks[1..]);
    }
  }

  lemma FinishedBounded(config: Config, a: Agent, ticks: seq<Tick>, last: Tick)
    requires |Readings(a.dir)| <= config.max && !last.addFault.NoListing?
    requires forall i | 0 <= i < |ticks| :: !ticks[i].addFault.NoListing?
    ensures |Readings(Finished(config, a, ticks, last).0.dir)| <= config.max
  {
    hide Run, Readings, Collect;
    RunBounded(config, a, ticks);
    CollectBounded(config, Run(config, a, ticks).0, last);
  }

  // ---- what a push leaves ---------------------------------------------------------------------------------------

  /**
   What is in the directory after a push: what was there, without the damaged files that were met; and without the batch
   if and only if there was one and the server took it, or named it in its error. A spool that cannot be listed or read
   pushes nothing.
   */
  lemma SendLeaves(config: Config, a: Agent, t: Tick, n: bytes)
    ensures var taken := TakenUp(a.dir, config.valid, 60, t.listed, t.unreadable);
            var left := Send(config, a, t).0.dir;
            var gone := taken.ok && taken.entries != [] && (t.answer.Accepted? || t.answer.settled);
            (!t.listed ==> !taken.ok && taken.damaged == []) &&
            (n in left <==> n in a.dir && n !in taken.damaged && !(gone && n in NamesOf(taken.entries))) &&
            (n in left ==> left[n] == a.dir[n])
  {
    hide TakeFrom, Oldest, EntriesAt;
  }

  // ---- waiting --------------------------------------------------------------------------------------------------

  /** Backoff and cadence stay in range, whatever the server answers. */
  predicate Paced(config: Config, a: Agent) {
    (a.backoff == 0 || MIN_BACKOFF <= a.backoff <= MAX_BACKOFF) &&
    (a.serverInterval == 0 || config.interval < a.serverInterval <= MAX_SERVER_INTERVAL)
  }

  /** Whatever the answers, a wait is at least the configured interval, and at most the larger of it and an hour. */
  lemma {:induction false} WaitsAreBounded(config: Config, a: Agent, ticks: seq<Tick>)
    requires Paced(config, a)
    ensures Paced(config, Run(config, a, ticks).0)
    ensures var waits := Run(config, a, ticks).2;
            |waits| == |ticks| &&
            forall i | 0 <= i < |waits| ::
              config.interval <= waits[i] <= (if config.interval > MAX_SERVER_INTERVAL then config.interval
                                              else MAX_SERVER_INTERVAL)
    decreases |ticks|
  {
    hide TakenUp, Added;
    if ticks != [] {
      var b := Collect(config, a, ticks[0]).0;
      assert Paced(config, b);
      var c := Send(config, b, ticks[0]).0;
      assert Paced(config, c);
      WaitsAreBounded(config, c, ticks[1..]);
    }
  }

  /** The agent goes at the server's pace exactly when that is slower than configured and at most an hour. */
  lemma ServerPace(config: Config, server: int, minInterval: int)
    ensures Interval(config, Cadence(config, server, minInterval))
         == if config.interval < minInterval <= MAX_SERVER_INTERVAL then minInterval else Interval(config, server)
  {
  }

  function Doubling(k: nat): nat {
    if k == 0 then 1 else 2 * Doubling(k - 1)
  }

  function Retries(backoff: nat, k: nat): nat {
    if k == 0 then backoff else NextBackoff(Retries(backoff, k - 1))
  }

  lemma {:induction false} RetriesLater(backoff: nat, k: nat)
    ensures Retries(NextBackoff(backoff), k) == Retries(backoff, k + 1)
  {
    if k == 0 {
      assert Retries(backoff, 1) == NextBackoff(Retries(backoff, 0));
    } else {
      RetriesLater(backoff, k - 1);
    }
  }

  lemma {:induction false} RetriesDouble(k: nat)
    requires k > 0
    ensures Retries(0, k)
         == if MIN_BACKOFF * Doubling(k - 1) > MAX_BACKOFF then MAX_BACKOFF else MIN_BACKOFF * Doubling(k - 1)
    decreases k
  {
    if k > 1 {
      RetriesDouble(k - 1);
      assert Doubling(k - 1) == 2 * Doubling(k - 2);
    } else {
      assert Retries(0, 0) == 0 && Doubling(0) == 1;
    }
  }

  /** A tick whose push fails, for no reason of the server's that is known to last. */
  ghost predicate FailsPlainly(config: Config, a: Agent, t: Tick) {
    var taken := TakenUp(Collect(config, a, t).0.dir, config.valid, MAX_BATCH, t.listed, t.unreadable);
    !taken.ok || (taken.entries != [] && t.answer.Refused? && t.answer.reason == OtherReason)
  }

  ghost predicate AllFail(config: Config, a: Agent, ticks: seq<Tick>)
    decreases |ticks|
  {
    ticks == [] || (FailsPlainly(config, a, ticks[0]) && AllFail(config, Step(config, a, ticks[0]).0, ticks[1..]))
  }

  lemma FailureBacksOff(config: Config, a: Agent, t: Tick)
    requires FailsPlainly(config, a, t)
    ensures Step(config, a, t).0.backoff == NextBackoff(a.backoff)
  {
    hide TakenUp, Without, EntriesAt, NextBackoff, Added, Excess;
  }

  lemma {:induction false} FailuresAddUp(config: Config, a: Agent, ticks: seq<Tick>)
    requires AllFail(config, a, ticks)
    ensures Run(config, a, ticks).0.backoff == Retries(a.backoff, |ticks|)
    decreases |ticks|
  {
    hide FailsPlainly, Step, Collect, NextBackoff;
    if ticks != [] {
      FailureBacksOff(config, a, ticks[0]);
      FailuresAddUp(config, Step(config, a, ticks[0]).0, ticks[1..]);
      RetriesLater(a.backoff, |ticks| - 1);
    }
  }

  /** After k plain failures in a row the agent holds off for thirty seconds doubled k - 1 times, or fifteen minutes. */
  lemma BackoffDoubles(config: Config, a: Agent, ticks: seq<Tick>)
    requires a.backoff == 0 && ticks != [] && AllFail(config, a, ticks)
    ensures var doubled := MIN_BACKOFF * Doubling(|ticks| - 1);
            Run(config, a, ticks).0.backoff == if doubled > MAX_BACKOFF then MAX_BACKOFF else doubled
  {
    hide AllFail, Run, Retries;
    FailuresAddUp(config, a, ticks);
    RetriesDouble(|ticks|);
  }

  // ---- draining -------------------------------------------------------------------------------------------------

  /** A tick in which everything works. */
  predicate Good(config: Config, t: Tick) {
    t.reading.Some? && config.valid(t.reading.value) && t.addFault.Fine? && t.listed && t.unreadable == {} &&
      t.answer.Accepted?
  }

  /** The queue after a good tick: one reading in, up to sixty of the oldest out. */
  function Drained(config: Config, q: seq<Item>, number: nat, data: bytes): seq<Item> {
    Rest(Newest(q + [Item(number, data)], config.max), MAX_BATCH)
  }

  ghost predicate Holds(config: Config, a: Agent, q: seq<Item>) {
    a.dir == DirOf(q) && Rising(q) && AllValid(config.valid, q) && (forall i | 0 <= i < |q| :: q[i].number <= a.number)
  }

  lemma GoodCollect(config: Config, a: Agent, t: Tick, q: seq<Item>)
    requires Holds(config, a, q) && Good(config, t) && a.number + 1 < Pow10(WIDTH)
    ensures Holds(config, Collect(config, a, t).0, Newest(q + [Item(a.number + 1, t.reading.value)], config.max))
  {
    hide Rising, Name, DirOf, Added, Excess, EntriesAt, Pow10;
    var x := Item(a.number + 1, t.reading.value);
    var p := q + [x];
    Extends(q, x);
    AddRefines(q, config.max, x.number, x.data);
    var kept := Newest(p, config.max);
    var k := |p| - |kept|;
    assert kept == p[k..];
    RisingDrop(p, k);
    var b := Collect(config, a, t).0;
    forall i | 0 <= i < |kept| ensures config.valid(kept[i].data) && kept[i].number <= b.number {
      assert kept[i] == p[i + k];
    }
  }

  lemma GoodSend(config: Config, a: Agent, t: Tick, q: seq<Item>)
    requires Holds(config, a, q) && Good(config, t)
    ensures Holds(config, Send(config, a, t).0, Rest(q, MAX_BATCH))
  {
    hide Rising, Name, DirOf, TakenUp, Without, EntriesAt, NamesOf, Pow10;
    TakeRefines(q, config.valid, MAX_BATCH);
    DropRefines(q, MAX_BATCH);
    WithoutNothing(DirOf(q));
    EntriesLength(First(q, MAX_BATCH));
    var rest := Rest(q, MAX_BATCH);
    var m := if |q| <= MAX_BATCH then |q| else MAX_BATCH;
    assert rest == q[m..];
    RisingDrop(q, m);
    forall i | 0 <= i < |rest| ensures config.valid(rest[i].data) && rest[i].number <= a.number {
      assert rest[i] == q[i + m];
    }
  }

  lemma GoodTick(config: Config, a: Agent, t: Tick, q: seq<Item>)
    requires Holds(config, a, q) && Good(config, t) && a.number + 1 < Pow10(WIDTH)
    ensures var next := Drained(config, q, a.number + 1, t.reading.value);
            Holds(config, Step(config, a, t).0, next) && Step(config, a, t).0.number == a.number + 1
  {
    hide Holds, Added, TakenUp, Without, Pow10, EntriesAt;
    GoodCollect(config, a, t, q);
    GoodSend(config, Collect(config, a, t).0, t, Newest(q + [Item(a.number + 1, t.reading.value)], config.max));
  }

  lemma EntriesLength(q: seq<Item>)
    ensures |Entries(q)| == |q|
  {
  }

  lemma Extends(q: seq<Item>, x: Item)
    requires Rising(q) && x.number < Pow10(WIDTH) && forall i | 0 <= i < |q| :: q[i].number < x.number
    ensures Rising(q + [x])
  {
  }

  /** How many readings wait after k good ticks. */
  function Backlog(config: Config, waiting: nat, k: nat): nat
    decreases k
  {
    if k == 0 then waiting
    else
      var full := if waiting + 1 > config.max then config.max else waiting + 1;
      Backlog(config, if full > MAX_BATCH then full - MAX_BATCH else 0, k - 1)
  }

  lemma {:induction false} GoodRun(config: Config, a: Agent, ticks: seq<Tick>, q: seq<Item>) returns (r: seq<Item>)
    requires Holds(config, a, q) && (forall i | 0 <= i < |ticks| :: Good(config, ticks[i]))
    requires a.number + |ticks| < Pow10(WIDTH)
    ensures Holds(config, Run(config, a, ticks).0, r) && |r| == Backlog(config, |q|, |ticks|)
    decreases |ticks|
  {
    hide Holds, Good, Step, Pow10;
    if ticks == [] {
      r := q;
    } else {
      GoodTick(config, a, ticks[0], q);
      var next := Drained(config, q, a.number + 1, GoodReading(config, ticks[0]));
      r := GoodRun(config, Step(config, a, ticks[0]).0, ticks[1..], next);
    }
  }

  function GoodReading(config: Config, t: Tick): bytes
    requires Good(config, t)
  {
    t.reading.value
  }

  /** What a good tick starts from: in a full spool the oldest reading gives way to the new one. */
  function Left(config: Config, waiting: nat): int {
    if waiting >= config.max then config.max - 1 else waiting
  }

  /** A backlog is gone after k good ticks exactly when 59k is at least that. */
  lemma {:induction false} BacklogEmpties(config: Config, waiting: nat, k: nat)
    ensures Backlog(config, waiting, k) == 0 <==> if k == 0 then waiting == 0 else Left(config, waiting) <= 59 * k
    decreases k
  {
    if k > 0 {
      var full := if waiting + 1 > config.max then config.max else waiting + 1;
      var next := if full > MAX_BATCH then full - MAX_BATCH else 0;
      BacklogEmpties(config, next, k - 1);
    }
  }

  lemma EmptyDir(q: seq<Item>)
    ensures DirOf(q) == map[] <==> q == []
  {
    if q != [] {
      assert Name(q[0].number) in DirOf(q);
    }
  }

  /**
   After an outage the spool empties: whatever is waiting, after any number of good ticks the directory is empty if and
   only if there were ticks enough for 59 readings each. In a full spool one reading less is waiting than there are.
   */
  lemma SpoolDrains(config: Config, a: Agent, ticks: seq<Tick>, q: seq<Item>)
    requires Holds(config, a, q) && (forall i | 0 <= i < |ticks| :: Good(config, ticks[i]))
    requires a.number + |ticks| < Pow10(WIDTH)
    ensures Run(config, a, ticks).0.dir == map[] <==>
              if ticks == [] then q == [] else Left(config, |q|) <= 59 * |ticks|
  {
    hide Run, Good, DirOf;
    var r := GoodRun(config, a, ticks, q);
    BacklogEmpties(config, |q|, |ticks|);
    EmptyDir(r);
  }
}
