/** What the journal watch tells, said in terms of the services it was shown, and of the journal. */
module JournalWatchTold {
  import opened Options
  import opened Sequences
  import opened JournalWatch
  import opened JournalWatchSafety

  const SECOND: nat := 1_000_000_000

  // ---- events ---------------------------------------------------------------------------------------------------

  /**
   An event says what fell due, of which unit and when, under the unit's reported name; and with it go the unit's lines
   from an hour before until a minute after. A login unit's lines are withheld.
   */
  predicate Tells(host: Host, d: Due, e: JournalEvent) {
    e.unit == host.reported(d.unit) && e.what == d.what && e.at == d.at &&
    if host.login(d.unit) then e.lines == [] && e.compressed == 0 && !e.truncated && e.withheld == "login"
    else
      var s := host.lines(d.unit, d.at - 3600 * SECOND, d.at + 60 * SECOND);
      e.lines == s.lines && e.compressed == s.compressed && e.truncated == s.truncated && e.withheld == s.withheld
  }

  lemma {:induction false} EventsTell(host: Host, due: seq<Due>, i: nat)
    requires i < |due|
    ensures Tells(host, due[i], EventsOf(host, due)[i])
  {
    if i < |due| - 1 {
      EventsTell(host, due[..|due| - 1], i);
    }
  }

  /** What a collection adds to the events that wait: one for each of the first five that fell due. */
  ghost predicate AddsTold(host: Host, due: seq<Due>, added: seq<JournalEvent>) {
    |added| == Least(5, |due|) && forall i | 0 <= i < |added| :: Tells(host, due[i], added[i])
  }

  /** Only the last ten wait. When the services did not answer or the journal cannot be read, nothing is told. */
  lemma CollectionTells(host: Host, st: State, c: Collection)
    ensures c.services.Some? && c.status.readable ==>
              exists added ::
                AddsTold(host, Collect(st.memory, c).1, added) &&
                var all := st.events + added;
                Observe(host, st, c).events == all[|all| - Least(10, |all|)..]
    ensures c.services.None? || !c.status.readable ==> Observe(host, st, c).events == st.events
    ensures Observe(host, st, c).status == c.status && Observe(host, st, c).hours == st.hours &&
            Observe(host, st, c).counted == st.counted
  {
    hide Collect, EventsOf, Tells;
    if c.services.Some? && c.status.readable {
      var due := Collect(st.memory, c).1;
      var told := FirstReads(due);
      var added := EventsOf(host, told);
      forall i | 0 <= i < |added| ensures Tells(host, due[i], added[i]) {
        EventsTell(host, told, i);
      }
      assert AddsTold(host, due, added);
    }
  }

  // ---- failures -------------------------------------------------------------------------------------------------

  /** A failure falls due when a unit is shown failed, and was not just before, failed since the same moment. */
  lemma EpisodeAt(xs: seq<Seen>, n: nat)
    requires n < |xs|
    ensures var failed := (x: Seen) => x.Seen? && x.s.active == "failed";
            Episodes(xs[..n + 1]) == Episodes(xs[..n]) +
              if failed(xs[n]) && !(n > 0 && failed(xs[n - 1]) && xs[n - 1].s.changedAt == xs[n].s.changedAt) then
                [Due(xs[n].s.unit, if xs[n].s.result == "oom-kill" then OomKill else Failed,
                     if xs[n].s.changedAt.Some? then xs[n].s.changedAt.value else xs[n].now)]
              else []
  {
    assert xs[..n + 1][..n] == xs[..n];
  }

  lemma {:induction false} LookAllServices(m: Memory, services: seq<Service>, now: Time, d: Due)
    requires d in LookAll(m, services, now).1
    ensures exists s :: s in services && s.unit == d.unit && IsService(s.unit)
  {
    hide LookRestarts, LookFailed, IsService;
    var front, s := services[..|services| - 1], services[|services| - 1];
    assert services == front + [s];
    if d in LookAll(m, front, now).1 {
      LookAllServices(m, front, now, d);
    } else {
      LookIsLocal(LookAll(m, front, now).0, s, now, d);
    }
  }

  lemma LookIsLocal(m: Memory, s: Service, now: Time, d: Due)
    requires d in Look(m, s, now).1
    ensures d.unit == s.unit && IsService(s.unit)
  {
    hide Recent, Stamps, Jump, IsService;
  }

  /** Whatever falls due is a unit of the services just shown, and a service. */
  lemma OnlyServices(m: Memory, c: Collection, d: Due)
    requires d in Collect(m, c).1
    ensures c.services.Some? && exists s :: s in c.services.value && s.unit == d.unit
    ensures |d.unit| >= 8 && d.unit[|d.unit| - 8..] == ".service"
  {
    hide LookAll, Forget;
    LookAllServices(m, c.services.value, c.now, d);
  }

  // ---- restart loops --------------------------------------------------------------------------------------------

  /** By how much the counter was seen to rise in the last day, since the unit was last gone. */
  function RisesInDay(xs: seq<Seen>, now: Time): nat {
    if xs == [] || xs[|xs| - 1].Gone? then 0
    else
      var x, front := xs[|xs| - 1], xs[..|xs| - 1];
      var was := Counter(front);
      RisesInDay(front, now) +
      if was.Some? && x.s.restarts.Some? && x.s.restarts.value > was.value && now - x.now < 86_400 * SECOND
      then x.s.restarts.value - was.value
      else 0
  }

  lemma {:induction false} RecentStamps(now: Time, k: nat, later: Time)
    ensures |Recent(Stamps(now, k), later)| == if later - now < 86_400 * SECOND then k else 0
  {
    if k > 0 {
      RecentStamps(now, k - 1, later);
      assert Stamps(now, k)[..k - 1] == Stamps(now, k - 1);
    }
  }

  /** Counting at most three restarts a collection never makes a difference to whether there were three in a day. */
  lemma {:induction false} RecentRises(xs: seq<Seen>, now: Time)
    ensures var n := |Recent(Increments(xs), now)|;
            n <= RisesInDay(xs, now) && (n < 3 ==> n == RisesInDay(xs, now))
  {
    hide Recent, Stamps;
    NothingRecent(now);
    if xs != [] && xs[|xs| - 1].Seen? {
      var x, front := xs[|xs| - 1], xs[..|xs| - 1];
      RecentRises(front, now);
      var was := Counter(front);
      if was.Some? && x.s.restarts.Some? {
        var more := Stamps(x.now, Jump(was.value, x.s.restarts.value));
        RecentAppend(Increments(front), more, now);
        RecentStamps(x.now, Jump(was.value, x.s.restarts.value), now);
      } else {
        assert Increments(front) + [] == Increments(front);
      }
    }
  }

  lemma NothingRecent(now: Time)
    ensures Recent([], now) == []
  {
  }

  /**
   When a restart loop is due: the unit is there with its counter, the counter rose by three or more in the last day,
   and no loop of the unit, watched without a gap since, is younger than six hours.
   */
  lemma LoopDueWhen(xs: seq<Seen>, i: nat)
    requires Ordered(xs) && i < |xs|
    ensures LoopAt(xs, i) <==>
              xs[i].Seen? && xs[i].s.restarts.Some? && RisesInDay(xs[..i + 1], xs[i].now) >= 3 &&
              forall k: nat | k < i && Watched(xs, k, i) && LoopAt(xs, k) ::
                xs[i].now - xs[k].now >= 6 * 3600 * SECOND
  {
    hide LoopAt, Watched, Recent, Increments, RisesInDay;
    LoopWhen(xs, i);
    if xs[i].Seen? {
      RecentRises(xs[..i + 1], xs[i].now);
    }
  }

  // ---- hours ----------------------------------------------------------------------------------------------------

  /** The hours told since the last push that landed. */
  function HoursPending(host: Host, count: Time -> string, ops: seq<Op>): seq<Time> {
    if ops == [] then []
    else
      var front, op := ops[..|ops| - 1], ops[|ops| - 1];
      if op.Landed? then []
      else
        HoursPending(host, count, front) +
        if op.Pushed? && Counts(RunOps(host, count, front), op.status, op.now) then [HourBefore(op.now)] else []
  }

  function CountsOf(count: Time -> string, hours: seq<Time>): (r: seq<HourCount>)
    ensures |r| == |hours| && forall i | 0 <= i < |r| :: r[i] == HourCount(hours[i], count(hours[i]))
  {
    if hours == [] then []
    else CountsOf(count, hours[..|hours| - 1]) + [HourCount(hours[|hours| - 1], count(hours[|hours| - 1]))]
  }

  lemma CountsOfSnoc(count: Time -> string, hours: seq<Time>, hour: Time)
    ensures CountsOf(count, hours + [hour]) == CountsOf(count, hours) + [HourCount(hour, count(hour))]
  {
    assert (hours + [hour])[..|hours|] == hours;
  }

  /** Over any run, what waits are the counts of the last six hours told since a push landed. */
  lemma {:induction false} HoursAreNewest(host: Host, count: Time -> string, ops: seq<Op>)
    ensures RunOps(host, count, ops).hours == Newest(CountsOf(count, HoursPending(host, count, ops)), 6)
  {
    hide CountsOf, HourBefore, Counts, StatusForPush, Observe;
    if ops == [] {
      NoCounts(count);
    } else {
      var front, op := ops[..|ops| - 1], ops[|ops| - 1];
      HoursAreNewest(host, count, front);
      var st, hours := RunOps(host, count, front), HoursPending(host, count, front);
      assert hours + [] == hours;
      match op
      case Observed(c) =>
        CollectionTells(host, st, c);
      case Pushed(status, now) =>
        var hour := HourBefore(now);
        CountsOfSnoc(count, hours, hour);
        NewestTwice(CountsOf(count, hours), [HourCount(hour, count(hour))], 6);
      case Landed =>
        NoCounts(count);
    }
  }

  lemma NoCounts(count: Time -> string)
    ensures CountsOf(count, []) == []
  {
  }

  /**
   A push counts the last full hour if and only if the journal can be read, as was found at the last collection or else
   now, and every hour counted before, over the whole run, is an earlier one. It changes nothing else.
   */
  lemma PushCounts(host: Host, count: Time -> string, ops: seq<Op>, status: Status, now: Time)
    ensures var st := RunOps(host, count, ops);
            var next := RunOps(host, count, ops + [Pushed(status, now)]);
            var hour := (now / (3600 * SECOND) - 1) * (3600 * SECOND);
            var readable := if st.status.reason == "" then status.readable else st.status.readable;
            var due := readable && forall h | h in Counted(host, count, ops) :: h < hour;
            next.hours == (if due then Newest(st.hours + [HourCount(hour, count(hour))], 6) else st.hours) &&
            Counted(host, count, ops + [Pushed(status, now)])
              == Counted(host, count, ops) + (if due then [hour] else []) &&
            next.memory == st.memory && next.events == st.events
  {
    var all := ops + [Pushed(status, now)];
    assert all[..|all| - 1] == ops;
    HoursRise(host, count, ops);
    HourAligned(now);
    WholeHour(now);
    var counted := Counted(host, count, ops);
    assert counted != [] ==> counted[|counted| - 1] in counted;
    assert counted + [] == counted;
  }

  lemma WholeHour(now: Time)
    ensures HourBefore(now) == (now / (3600 * SECOND) - 1) * (3600 * SECOND)
  {
  }
}
