/**
 What the journal watch does over any sequence of collections, said of each unit by what was seen of it: its failures
 are due once an episode, its restart loops exactly when three restarts show in a day and none was told for six hours;
 and what waits for a push is the newest of what was told since the last one that landed.
 */
module JournalWatchSafety {
  import opened Options
  import opened Sequences
  import opened JournalWatch

  // ---- one unit at a time ---------------------------------------------------------------------------------------

  /** What a collection shows of one unit. */
  datatype Seen = Seen(s: Service, now: Time) | Gone

  /** What the watch remembers of one unit. */
  datatype Recall = Recall(failed: Option<Option<Time>>, restarts: Option<nat>, times: seq<Time>,
                           loopSent: Option<Time>)

  const BLANK: Recall := Recall(None, None, [], None)

  function RecallOf(m: Memory, u: string): Recall {
    Recall(if u in m.failed then Some(m.failed[u]) else None, if u in m.restarts then Some(m.restarts[u]) else None,
           if u in m.times then m.times[u] else [], if u in m.loopSent then Some(m.loopSent[u]) else None)
  }

  function TimesAfter(r: Recall, n: nat, now: Time): seq<Time> {
    Recent(if r.restarts.Some? then r.times + Stamps(now, Jump(r.restarts.value, n)) else r.times, now)
  }

  predicate LoopsNow(r: Recall, x: Seen) {
    x.Seen? && x.s.restarts.Some? && |TimesAfter(r, x.s.restarts.value, x.now)| >= LOOP_RESTARTS &&
    (r.loopSent.Some? ==> x.now - r.loopSent.value >= QUIET)
  }

  function FailureNow(s: Service): Option<Option<Time>> {
    if IsFailed(s) then Some(s.changedAt) else None
  }

  function After(r: Recall, x: Seen): Recall {
    if x.Gone? then BLANK
    else if x.s.restarts.None? then r.(failed := FailureNow(x.s))
    else
      Recall(FailureNow(x.s), x.s.restarts, TimesAfter(r, x.s.restarts.value, x.now),
             if LoopsNow(r, x) then Some(x.now) else r.loopSent)
  }

  function FailsNow(r: Recall, x: Seen): seq<Due> {
    if x.Seen? && IsFailed(x.s) && r.failed != Some(x.s.changedAt) then [FailureOf(x.s, x.now)] else []
  }

  function DueAt(r: Recall, x: Seen): seq<Due> {
    FailsNow(r, x) + if LoopsNow(r, x) then [Due(x.s.unit, RestartLoop, x.now)] else []
  }

  function Follow(r: Recall, xs: seq<Seen>): (Recall, seq<Due>) {
    if xs == [] then (r, [])
    else
      var (before, due) := Follow(r, xs[..|xs| - 1]);
      (After(before, xs[|xs| - 1]), due + DueAt(before, xs[|xs| - 1]))
  }

  function DuesFor(u: string, due: seq<Due>): seq<Due> {
    if due == [] then []
    else DuesFor(u, due[..|due| - 1]) + if due[|due| - 1].unit == u then [due[|due| - 1]] else []
  }

  lemma {:induction false} DuesForAppend(u: string, a: seq<Due>, b: seq<Due>)
    ensures DuesFor(u, a + b) == DuesFor(u, a) + DuesFor(u, b)
  {
    if b == [] {
      assert a + b == a;
    } else {
      assert (a + b)[..|a + b| - 1] == a + b[..|b| - 1];
      DuesForAppend(u, a, b[..|b| - 1]);
    }
  }

  lemma {:induction false} DuesForAll(u: string, due: seq<Due>)
    ensures (forall d | d in due :: d.unit == u) ==> DuesFor(u, due) == due
    ensures (forall d | d in due :: d.unit != u) ==> DuesFor(u, due) == []
  {
    if due != [] {
      DuesForAll(u, due[..|due| - 1]);
      assert due == due[..|due| - 1] + [due[|due| - 1]];
    }
  }

  /** The maps of counters stand together. */
  predicate Linked(m: Memory) {
    m.times.Keys == m.restarts.Keys && m.loopSent.Keys <= m.restarts.Keys
  }

  lemma LookFailedLocal(failed: map<string, Option<Time>>, s: Service, now: Time, u: string)
    ensures var (f, due) := LookFailed(failed, s, now);
            var was := if u in failed then Some(failed[u]) else None;
            (u in f <==> if s.unit == u then IsFailed(s) else u in failed) &&
            (u in f ==> f[u] == if s.unit == u then s.changedAt else failed[u]) &&
            (s.unit == u ==> due == if IsFailed(s) && was != Some(s.changedAt) then [FailureOf(s, now)] else []) &&
            forall d | d in due :: d.unit == s.unit
  {
  }

  lemma LookRestartsLocal(m: Memory, s: Service, now: Time, u: string)
    requires Linked(m)
    ensures var (n, due) := LookRestarts(m, s, now);
            var x := Seen(s, now);
            Linked(n) && n.failed == m.failed &&
            (s.unit != u ==> RecallOf(n, u) == RecallOf(m, u)) &&
            (s.unit == u ==> RecallOf(n, u) == After(RecallOf(m, u), x).(failed := RecallOf(m, u).failed)) &&
            (s.unit == u ==> due == if LoopsNow(RecallOf(m, u), x) then [Due(s.unit, RestartLoop, now)] else []) &&
            forall d | d in due :: d.unit == s.unit
  {
    hide Recent, Stamps, Jump;
  }

  lemma CountersIgnoreFailure(r: Recall, f: Option<Option<Time>>, s: Service, now: Time)
    ensures var x := Seen(s, now);
            After(r.(failed := f), x) == After(r, x) && LoopsNow(r.(failed := f), x) == LoopsNow(r, x) &&
            After(r, x).failed == FailureNow(s)
  {
    hide Recent, Stamps, Jump;
  }

  lemma LookLinked(m: Memory, s: Service, now: Time)
    requires Linked(m)
    ensures Linked(Look(m, s, now).0)
  {
    hide LookFailed, LookRestarts, IsService;
    if IsService(s.unit) {
      LookRestartsLocal(m.(failed := LookFailed(m.failed, s, now).0), s, now, s.unit);
    }
  }

  /** Looking at one service does to its unit what one sighting does. */
  lemma LookThis(m: Memory, s: Service, now: Time)
    requires Linked(m) && IsService(s.unit)
    ensures RecallOf(Look(m, s, now).0, s.unit) == After(RecallOf(m, s.unit), Seen(s, now))
    ensures DuesFor(s.unit, Look(m, s, now).1) == DueAt(RecallOf(m, s.unit), Seen(s, now))
  {
    hide LookFailed, LookRestarts, IsService, DuesFor, After, LoopsNow;
    LookFailedLocal(m.failed, s, now, s.unit);
    var between := m.(failed := LookFailed(m.failed, s, now).0);
    LookRestartsLocal(between, s, now, s.unit);
    var r := RecallOf(m, s.unit);
    assert RecallOf(between, s.unit) == r.(failed := RecallOf(between, s.unit).failed);
    CountersIgnoreFailure(r, RecallOf(between, s.unit).failed, s, now);
    DuesForAll(s.unit, Look(m, s, now).1);
  }

  /** And nothing to any other unit. */
  lemma LookOther(m: Memory, s: Service, now: Time, u: string)
    requires Linked(m) && s.unit != u
    ensures RecallOf(Look(m, s, now).0, u) == RecallOf(m, u) && DuesFor(u, Look(m, s, now).1) == []
  {
    hide LookFailed, LookRestarts, IsService, DuesFor;
    if IsService(s.unit) {
      LookFailedLocal(m.failed, s, now, u);
      var between := m.(failed := LookFailed(m.failed, s, now).0);
      LookRestartsLocal(between, s, now, u);
    }
    DuesForAll(u, Look(m, s, now).1);
  }

  lemma FollowNothing(r: Recall)
    ensures Follow(r, []) == (r, [])
  {
  }

  lemma FollowSnoc(r: Recall, xs: seq<Seen>, x: Seen)
    ensures var (before, due) := Follow(r, xs);
            Follow(r, xs + [x]) == (After(before, x), due + DueAt(before, x))
  {
    assert (xs + [x])[..|xs + [x]| - 1] == xs;
  }

  lemma FollowGone(r: Recall)
    ensures Follow(r, [Gone]) == (BLANK, [])
  {
    FollowSnoc(r, [], Gone);
    assert [] + [Gone] == [Gone];
  }

  /** The sightings of one unit in one collection. */
  function SightingsIn(u: string, services: seq<Service>, now: Time): seq<Seen> {
    if services == [] then []
    else
      var s := services[|services| - 1];
      SightingsIn(u, services[..|services| - 1], now) + if s.unit == u then [Seen(s, now)] else []
  }

  lemma {:induction false} LookAllLocal(m: Memory, services: seq<Service>, now: Time, u: string)
    requires Linked(m) && IsService(u)
    ensures Linked(LookAll(m, services, now).0)
    ensures var (r, due) := Follow(RecallOf(m, u), SightingsIn(u, services, now));
            RecallOf(LookAll(m, services, now).0, u) == r && DuesFor(u, LookAll(m, services, now).1) == due
  {
    hide Look, After, DueAt, RecallOf, IsService, Linked, Follow, DuesFor;
    FollowNothing(RecallOf(m, u));
    if services == [] {
      DuesForAll(u, []);
    } else {
      var s, front := services[|services| - 1], services[..|services| - 1];
      LookAllLocal(m, front, now, u);
      var (before, due) := LookAll(m, front, now);
      LookLinked(before, s, now);
      if s.unit == u {
        LookThis(before, s, now);
      } else {
        LookOther(before, s, now, u);
      }
      DuesForAppend(u, due, Look(before, s, now).1);
      var xs := SightingsIn(u, front, now);
      if s.unit == u {
        FollowSnoc(RecallOf(m, u), xs, Seen(s, now));
        assert SightingsIn(u, services, now) == xs + [Seen(s, now)];
      } else {
        assert SightingsIn(u, services, now) == xs + [] == xs;
        assert DuesFor(u, due) + [] == DuesFor(u, due);
      }
    }
  }

  lemma {:induction false} NoSightings(u: string, services: seq<Service>, now: Time)
    requires IsService(u) && u !in Units(services)
    ensures SightingsIn(u, services, now) == []
  {
    if services != [] {
      var s := services[|services| - 1];
      assert s in services;
      NoSightings(u, services[..|services| - 1], now);
    }
  }

  /** What one collection shows of a unit: nothing when the collector did not answer, its absence when it did. */
  function SeenIn(u: string, c: Collection): seq<Seen> {
    if c.services.None? then []
    else if u in Units(c.services.value) then SightingsIn(u, c.services.value, c.now)
    else [Gone]
  }

  function SeenOf(u: string, cs: seq<Collection>): seq<Seen> {
    if cs == [] then [] else SeenOf(u, cs[..|cs| - 1]) + SeenIn(u, cs[|cs| - 1])
  }

  lemma ForgetLocal(m: Memory, seen: set<string>, u: string)
    requires Linked(m)
    ensures Linked(Forget(m, seen))
    ensures RecallOf(Forget(m, seen), u) == if u in seen then RecallOf(m, u) else BLANK
  {
  }

  lemma CollectLocal(m: Memory, c: Collection, u: string)
    requires Linked(m) && IsService(u)
    ensures Linked(Collect(m, c).0)
    ensures var (r, due) := Follow(RecallOf(m, u), SeenIn(u, c));
            RecallOf(Collect(m, c).0, u) == r && DuesFor(u, Collect(m, c).1) == due
  {
    hide RecallOf, IsService, Linked, LookAll, Forget, Units, Follow, SightingsIn, After, DueAt, DuesFor;
    FollowNothing(RecallOf(m, u));
    DuesForAll(u, []);
    if c.services.Some? {
      var services := c.services.value;
      LookAllLocal(m, services, c.now, u);
      var (looked, due) := LookAll(m, services, c.now);
      ForgetLocal(looked, Units(services), u);
      if u !in Units(services) {
        NoSightings(u, services, c.now);
        FollowGone(RecallOf(m, u));
      }
    }
  }

  lemma {:induction false} FollowAppend(r: Recall, xs: seq<Seen>, ys: seq<Seen>)
    ensures var (b, due) := Follow(r, xs);
            var (c, more) := Follow(b, ys);
            Follow(r, xs + ys) == (c, due + more)
  {
    hide After, DueAt, Follow;
    var (b, due) := Follow(r, xs);
    if ys == [] {
      FollowNothing(b);
      assert xs + ys == xs;
      assert due + [] == due;
    } else {
      var front, y := ys[..|ys| - 1], ys[|ys| - 1];
      assert ys == front + [y] && xs + ys == xs + front + [y];
      FollowAppend(r, xs, front);
      FollowSnoc(r, xs + front, y);
      FollowSnoc(b, front, y);
      var (c, more) := Follow(b, front);
      assert due + (more + DueAt(c, y)) == due + more + DueAt(c, y);
    }
  }

  /**
   Units do not disturb each other: over any run, what is remembered of a unit, and what fell due for it, follow from
   what was seen of that unit alone.
   */
  lemma {:induction false} UnitsAreSeparate(cs: seq<Collection>, u: string)
    requires IsService(u)
    ensures Linked(CollectAll(EMPTY, cs).0)
    ensures var (r, due) := Follow(BLANK, SeenOf(u, cs));
            RecallOf(CollectAll(EMPTY, cs).0, u) == r && DuesFor(u, CollectAll(EMPTY, cs).1) == due
  {
    hide Collect, Follow, SeenIn, IsService;
    if cs == [] {
      FollowNothing(BLANK);
    } else {
      var front, c := cs[..|cs| - 1], cs[|cs| - 1];
      UnitsAreSeparate(front, u);
      var (before, due) := CollectAll(EMPTY, front);
      CollectLocal(before, c, u);
      DuesForAppend(u, due, Collect(before, c).1);
      FollowAppend(BLANK, SeenOf(u, front), SeenIn(u, c));
    }
  }

  /** The maps never hold a unit the last answer did not name. */
  lemma OnlyUnitsSeen(m: Memory, c: Collection)
    requires Linked(m) && c.services.Some?
    ensures var n := Collect(m, c).0;
            n.failed.Keys + n.restarts.Keys + n.times.Keys + n.loopSent.Keys <= Units(c.services.value)
  {
    hide LookAll;
    LookAllLinked(m, c.services.value, c.now);
  }

  lemma {:induction false} LookAllLinked(m: Memory, services: seq<Service>, now: Time)
    requires Linked(m)
    ensures Linked(LookAll(m, services, now).0)
  {
    hide Linked, Look;
    if services != [] {
      LookAllLinked(m, services[..|services| - 1], now);
      LookLinked(LookAll(m, services[..|services| - 1], now).0, services[|services| - 1], now);
    }
  }

  // ---- failures -------------------------------------------------------------------------------------------------

  /** The same failure as before: still failed, since the same moment. */
  predicate SameFailure(x: Seen, y: Seen) {
    x.Seen? && y.Seen? && IsFailed(x.s) && IsFailed(y.s) && x.s.changedAt == y.s.changedAt
  }

  /** A failure for each time the unit is seen failed and was not, just before, seen with the same failure. */
  function Episodes(xs: seq<Seen>): seq<Due> {
    if xs == [] then []
    else
      var n := |xs| - 1;
      Episodes(xs[..n]) +
      if xs[n].Seen? && IsFailed(xs[n].s) && !(n > 0 && SameFailure(xs[n - 1], xs[n]))
      then [FailureOf(xs[n].s, xs[n].now)]
      else []
  }

  function Failures(due: seq<Due>): seq<Due> {
    if due == [] then []
    else Failures(due[..|due| - 1]) + if due[|due| - 1].what == RestartLoop then [] else [due[|due| - 1]]
  }

  lemma {:induction false} FailuresAppend(a: seq<Due>, b: seq<Due>)
    ensures Failures(a + b) == Failures(a) + Failures(b)
  {
    if b == [] {
      assert a + b == a;
    } else {
      assert (a + b)[..|a + b| - 1] == a + b[..|b| - 1];
      FailuresAppend(a, b[..|b| - 1]);
    }
  }

  lemma FailuresAt(r: Recall, x: Seen)
    ensures Failures(DueAt(r, x)) == FailsNow(r, x)
  {
    var a, b := FailsNow(r, x), if LoopsNow(r, x) then [Due(x.s.unit, RestartLoop, x.now)] else [];
    FailuresAppend(a, b);
    assert b != [] ==> b[..0] == [];
    assert a != [] ==> a[..0] == [];
  }

  lemma {:induction false} FollowFailed(xs: seq<Seen>)
    ensures var (r, due) := Follow(BLANK, xs);
            r.failed == (if xs != [] && xs[|xs| - 1].Seen? then FailureNow(xs[|xs| - 1].s) else None) &&
            Failures(due) == Episodes(xs)
  {
    hide TimesAfter, LoopsNow, DueAt;
    if xs != [] {
      var n := |xs| - 1;
      FollowFailed(xs[..n]);
      var (r, due) := Follow(BLANK, xs[..n]);
      FailuresAppend(due, DueAt(r, xs[n]));
      FailuresAt(r, xs[n]);
    }
  }

  /** Over any run a unit's failures fall due exactly once an episode. */
  lemma FailuresAreEpisodes(cs: seq<Collection>, u: string)
    requires IsService(u)
    ensures Failures(DuesFor(u, CollectAll(EMPTY, cs).1)) == Episodes(SeenOf(u, cs))
  {
    hide IsService, CollectAll, Follow, DuesFor, Failures, SeenOf, Episodes;
    UnitsAreSeparate(cs, u);
    FollowFailed(SeenOf(u, cs));
  }

  // ---- restart loops --------------------------------------------------------------------------------------------

  /** The unit's counter as last seen since it was last gone. */
  function Counter(xs: seq<Seen>): Option<nat> {
    if xs == [] then None
    else
      var n := |xs| - 1;
      if xs[n].Gone? then None else if xs[n].s.restarts.Some? then xs[n].s.restarts else Counter(xs[..n])
  }

  /** When the counter was seen to rise, since the unit was last gone: at most three times a sighting. */
  function Increments(xs: seq<Seen>): seq<Time> {
    if xs == [] then []
    else
      var n := |xs| - 1;
      if xs[n].Gone? then []
      else
        Increments(xs[..n]) +
        if xs[n].s.restarts.Some? && Counter(xs[..n]).Some? then
          Stamps(xs[n].now, Jump(Counter(xs[..n]).value, xs[n].s.restarts.value))
        else []
  }

  /** The clock does not step back. */
  ghost predicate Ordered(xs: seq<Seen>) {
    forall i, j | 0 <= i < j < |xs| && xs[i].Seen? && xs[j].Seen? :: xs[i].now <= xs[j].now
  }

  predicate LoopAt(xs: seq<Seen>, i: nat)
    requires i < |xs|
  {
    LoopsNow(Follow(BLANK, xs[..i]).0, xs[i])
  }

  /** From one sighting to another the unit was never gone. */
  ghost predicate Watched(xs: seq<Seen>, k: nat, i: nat)
    requires i <= |xs|
  {
    forall j | k <= j < i :: xs[j].Seen?
  }

  lemma {:induction false} RecentAppend(a: seq<Time>, b: seq<Time>, now: Time)
    ensures Recent(a + b, now) == Recent(a, now) + Recent(b, now)
  {
    if b == [] {
      assert a + b == a;
    } else {
      assert (a + b)[..|a + b| - 1] == a + b[..|b| - 1];
      RecentAppend(a, b[..|b| - 1], now);
    }
  }

  lemma {:induction false} RecentTwice(a: seq<Time>, early: Time, now: Time)
    requires early <= now
    ensures Recent(Recent(a, early), now) == Recent(a, now)
  {
    if a != [] {
      var front, last := a[..|a| - 1], a[|a| - 1];
      RecentTwice(front, early, now);
      RecentAppend(Recent(front, early), if early - last < DAY then [last] else [], now);
      assert [last][..0] == [];
    }
  }

  ghost predicate Past(xs: seq<Seen>, now: Time) {
    forall i | 0 <= i < |xs| && xs[i].Seen? :: xs[i].now <= now
  }

  /** Forgetting old restarts as time goes by loses none that still counts. */
  lemma {:induction false} TimesAreIncrements(xs: seq<Seen>, now: Time)
    requires Ordered(xs) && Past(xs, now)
    ensures Follow(BLANK, xs).0.restarts == Counter(xs)
    ensures Recent(Follow(BLANK, xs).0.times, now) == Recent(Increments(xs), now)
  {
    hide Recent, Stamps, Jump, LoopsNow, DueAt;
    if xs != [] {
      var n := |xs| - 1;
      var front, x := xs[..n], xs[n];
      TimesAreIncrements(front, now);
      if x.Seen? && x.s.restarts.Some? {
        var r := Follow(BLANK, front).0;
        TimesAreIncrements(front, x.now);
        var more := if r.restarts.Some? then Stamps(x.now, Jump(r.restarts.value, x.s.restarts.value)) else [];
        assert r.times + [] == r.times;
        RecentTwice(r.times + more, x.now, now);
        RecentAppend(r.times, more, now);
        RecentAppend(Increments(front), more, now);
        assert Increments(xs) == Increments(front) + more;
      } else {
        assert Increments(front) + [] == Increments(front);
      }
    }
  }

  lemma TimesNow(xs: seq<Seen>, i: nat)
    requires Ordered(xs) && i < |xs| && xs[i].Seen? && xs[i].s.restarts.Some?
    ensures TimesAfter(Follow(BLANK, xs[..i]).0, xs[i].s.restarts.value, xs[i].now)
            == Recent(Increments(xs[..i + 1]), xs[i].now)
  {
    hide Recent, Stamps, Jump, LoopsNow, DueAt, Follow;
    var x, r := xs[i], Follow(BLANK, xs[..i]).0;
    TimesAreIncrements(xs[..i], x.now);
    var more := if r.restarts.Some? then Stamps(x.now, Jump(r.restarts.value, x.s.restarts.value)) else [];
    assert r.times + [] == r.times;
    assert xs[..i + 1][..i] == xs[..i];
    assert Increments(xs[..i + 1]) == Increments(xs[..i]) + more;
    RecentAppend(r.times, more, x.now);
    RecentAppend(Increments(xs[..i]), more, x.now);
  }

  /** The last loop told since the unit was last gone, by position. */
  function LastLoop(xs: seq<Seen>): Option<nat> {
    if xs == [] then None
    else
      var n: nat := |xs| - 1;
      if xs[n].Gone? then None else if LoopAt(xs, n) then Some(n) else LastLoop(xs[..n])
  }

  lemma LoopAtPrefix(xs: seq<Seen>, n: nat, i: nat)
    requires i < n <= |xs|
    ensures LoopAt(xs[..n], i) == LoopAt(xs, i)
  {
    assert xs[..n][..i] == xs[..i];
  }

  lemma {:induction false} LastLoopMeans(xs: seq<Seen>)
    ensures var k := LastLoop(xs);
            (k.Some? ==> k.value < |xs| && LoopAt(xs, k.value) && xs[k.value].Seen? && Watched(xs, k.value, |xs|)) &&
            Follow(BLANK, xs).0.loopSent == (if k.Some? then Some(xs[k.value].now) else None) &&
            forall j: nat | j < |xs| && LoopAt(xs, j) && Watched(xs, j, |xs|) :: k.Some? && j <= k.value
  {
    hide LoopsNow, TimesAfter, DueAt;
    if xs != [] {
      var n: nat := |xs| - 1;
      var front := xs[..n];
      LastLoopMeans(front);
      forall j: nat | j < n ensures LoopAt(front, j) == LoopAt(xs, j) {
        LoopAtPrefix(xs, n, j);
      }
      assert LoopAt(xs, n) == LoopsNow(Follow(BLANK, front).0, xs[n]);
      forall j: nat | j < n && Watched(xs, j, |xs|) ensures Watched(front, j, n) {
      }
      LoopsAreSeen(Follow(BLANK, front).0, xs[n]);
    }
  }

  lemma LoopsAreSeen(r: Recall, x: Seen)
    ensures LoopsNow(r, x) ==> x.Seen? && x.s.restarts.Some?
  {
  }

  /**
   When a restart loop is due, exactly: the counter is there, it was seen to rise three times in the last day, and no
   loop of this unit, watched without a gap since, is younger than six hours.
   */
  lemma LoopWhen(xs: seq<Seen>, i: nat)
    requires Ordered(xs) && i < |xs|
    ensures LoopAt(xs, i) <==>
              xs[i].Seen? && xs[i].s.restarts.Some? &&
              |Recent(Increments(xs[..i + 1]), xs[i].now)| >= LOOP_RESTARTS &&
              forall k: nat | k < i && Watched(xs, k, i) && LoopAt(xs, k) :: xs[i].now - xs[k].now >= QUIET
  {
    hide Recent, Increments, TimesAfter, Follow, LastLoop;
    if xs[i].Seen? && xs[i].s.restarts.Some? {
      TimesNow(xs, i);
      LastLoopMeans(xs[..i]);
      var last := LastLoop(xs[..i]);
      forall k: nat | k < i ensures LoopAt(xs[..i], k) == LoopAt(xs, k) &&
        (Watched(xs, k, i) <==> Watched(xs[..i], k, i)) {
        LoopAtPrefix(xs, i, k);
      }
    }
  }

  /** Whatever the clock does, a loop told again while the unit stays watched comes six hours later or more. */
  lemma {:induction false} LoopsAreApart(xs: seq<Seen>, k: nat, i: nat)
    requires k < i < |xs| && Watched(xs, k, i) && LoopAt(xs, k) && LoopAt(xs, i)
    ensures xs[i].now - xs[k].now >= QUIET
    decreases i
  {
    hide TimesAfter, Follow, LastLoop;
    LastLoopMeans(xs[..i]);
    LoopAtPrefix(xs, i, k);
    assert Watched(xs[..i], k, i);
    var last := LastLoop(xs[..i]).value;
    LoopAtPrefix(xs, i, last);
    if last > k {
      LoopsAreApart(xs, k, last);
    }
  }

  function Loops(due: seq<Due>): seq<Due> {
    if due == [] then []
    else Loops(due[..|due| - 1]) + if due[|due| - 1].what == RestartLoop then [due[|due| - 1]] else []
  }

  /** A due for each sighting at which a loop is to be told. */
  function LoopDues(xs: seq<Seen>): seq<Due> {
    if xs == [] then []
    else
      var n: nat := |xs| - 1;
      LoopDues(xs[..n]) + if LoopAt(xs, n) then [Due(xs[n].s.unit, RestartLoop, xs[n].now)] else []
  }

  lemma {:induction false} LoopsAppend(a: seq<Due>, b: seq<Due>)
    ensures Loops(a + b) == Loops(a) + Loops(b)
  {
    if b == [] {
      assert a + b == a;
    } else {
      assert (a + b)[..|a + b| - 1] == a + b[..|b| - 1];
      LoopsAppend(a, b[..|b| - 1]);
    }
  }

  lemma LoopsAmong(r: Recall, x: Seen)
    ensures Loops(DueAt(r, x)) == if LoopsNow(r, x) then [Due(x.s.unit, RestartLoop, x.now)] else []
  {
    var a, b := FailsNow(r, x), if LoopsNow(r, x) then [Due(x.s.unit, RestartLoop, x.now)] else [];
    LoopsAppend(a, b);
    assert b != [] ==> b[..0] == [];
    assert a != [] ==> a[..0] == [];
  }

  lemma {:induction false} FollowLoops(xs: seq<Seen>)
    ensures Loops(Follow(BLANK, xs).1) == LoopDues(xs)
  {
    hide LoopsNow, DueAt, After;
    if xs != [] {
      var n := |xs| - 1;
      FollowLoops(xs[..n]);
      var (r, due) := Follow(BLANK, xs[..n]);
      LoopsAppend(due, DueAt(r, xs[n]));
      LoopsAmong(r, xs[n]);
    }
  }

  /** Over any run a unit's loops fall due at exactly the sightings of which LoopWhen says so. */
  lemma LoopsAreDue(cs: seq<Collection>, u: string)
    requires IsService(u)
    ensures Loops(DuesFor(u, CollectAll(EMPTY, cs).1)) == LoopDues(SeenOf(u, cs))
  {
    hide IsService, CollectAll, Follow, DuesFor, Loops, SeenOf, LoopDues;
    UnitsAreSeparate(cs, u);
    FollowLoops(SeenOf(u, cs));
  }

  // ---- the queues -----------------------------------------------------------------------------------------------

  datatype Op = Observed(c: Collection) | Pushed(status: Status, now: Time) | Landed

  function After1(host: Host, count: Time -> string, st: State, op: Op): State {
    match op
    case Observed(c) => Observe(host, st, c)
    case Pushed(status, now) => ForPush(st, status, now, count)
    case Landed => Delivered(st)
  }

  function RunOps(host: Host, count: Time -> string, ops: seq<Op>): State {
    if ops == [] then START else After1(host, count, RunOps(host, count, ops[..|ops| - 1]), ops[|ops| - 1])
  }

  function Collections(ops: seq<Op>): seq<Collection> {
    if ops == [] then []
    else Collections(ops[..|ops| - 1]) + if ops[|ops| - 1].Observed? then [ops[|ops| - 1].c] else []
  }

  /** What one collection adds to the queue. */
  function Adds(m: Memory, c: Collection): seq<Due> {
    if c.services.Some? && c.status.readable then FirstReads(Collect(m, c).1) else []
  }

  /** What was told since the last push that landed. */
  function Pending(ops: seq<Op>): seq<Due> {
    if ops == [] then []
    else
      var front, op := ops[..|ops| - 1], ops[|ops| - 1];
      match op
      case Observed(c) => Pending(front) + Adds(CollectAll(EMPTY, Collections(front)).0, c)
      case Pushed(_, _) => Pending(front)
      case Landed => []
  }

  lemma {:induction false} EventsAppend(host: Host, a: seq<Due>, b: seq<Due>)
    ensures EventsOf(host, a + b) == EventsOf(host, a) + EventsOf(host, b)
  {
    if b == [] {
      assert a + b == a;
    } else {
      assert (a + b)[..|a + b| - 1] == a + b[..|b| - 1];
      EventsAppend(host, a, b[..|b| - 1]);
    }
  }

  /** The events waiting are the newest ten of what was told since the last push that landed. */
  lemma {:induction false} EventsAreNewest(host: Host, count: Time -> string, ops: seq<Op>)
    ensures var st := RunOps(host, count, ops);
            st.memory == CollectAll(EMPTY, Collections(ops)).0 &&
            st.events == Newest(EventsOf(host, Pending(ops)), MAX_EVENTS) && |st.events| <= MAX_EVENTS
  {
    hide Collect, FirstReads, EventsOf;
    if ops == [] {
      EventsNothing(host);
    } else {
      var front, op := ops[..|ops| - 1], ops[|ops| - 1];
      EventsAreNewest(host, count, front);
      if op.Observed? {
        var cs := Collections(front);
        assert (cs + [op.c])[..|cs|] == cs;
        var more := Adds(CollectAll(EMPTY, cs).0, op.c);
        EventsAppend(host, Pending(front), more);
        NewestTwice(EventsOf(host, Pending(front)), EventsOf(host, more), MAX_EVENTS);
        if op.c.services.None? {
          CollectNothing(CollectAll(EMPTY, cs).0, op.c);
        }
        EventsNothing(host);
      } else {
        assert Collections(front) + [] == Collections(front);
        EventsNothing(host);
      }
    }
  }

  /** A login unit's event is the same whatever the journal holds, and carries no line. */
  lemma LoginLinesStayUnread(host: Host, other: (string, Time, Time) -> Snippet, d: Due)
    requires host.login(d.unit)
    ensures EventOf(host, d) == EventOf(host.(lines := other), d) && EventOf(host, d).lines == []
  {
  }

  lemma EventsNothing(host: Host)
    ensures EventsOf(host, []) == []
  {
  }

  lemma CollectNothing(m: Memory, c: Collection)
    requires c.services.None?
    ensures Collect(m, c) == (m, [])
  {
  }

  lemma FirstAreSome(due: seq<Due>)
    ensures multiset(FirstReads(due)) <= multiset(due)
  {
    if |due| > MAX_READS {
      assert due == due[..MAX_READS] + due[MAX_READS..];
    }
  }

  /** Everything told since the start, whatever became of it. */
  function Told(ops: seq<Op>): seq<Due> {
    if ops == [] then []
    else
      var front, op := ops[..|ops| - 1], ops[|ops| - 1];
      Told(front) + if op.Observed? then Adds(CollectAll(EMPTY, Collections(front)).0, op.c) else []
  }

  /** Over the whole run nothing is told more often than it fell due. */
  lemma {:induction false} ToldIsDue(ops: seq<Op>)
    ensures multiset(Told(ops)) <= multiset(CollectAll(EMPTY, Collections(ops)).1)
  {
    hide Collect, FirstReads;
    if ops != [] {
      var front, op := ops[..|ops| - 1], ops[|ops| - 1];
      ToldIsDue(front);
      if op.Observed? {
        var cs := Collections(front);
        assert (cs + [op.c])[..|cs|] == cs;
        FirstAreSome(Collect(CollectAll(EMPTY, cs).0, op.c).1);
      } else {
        assert Collections(front) + [] == Collections(front);
        assert Told(front) + [] == Told(front);
      }
    }
  }

  /** What waits for a push is the end of what was told. */
  lemma {:induction false} PendingIsTold(ops: seq<Op>)
    ensures |Pending(ops)| <= |Told(ops)| && Pending(ops) == Told(ops)[|Told(ops)| - |Pending(ops)|..]
  {
    hide Adds, CollectAll, Collections;
    if ops != [] {
      var front, op := ops[..|ops| - 1], ops[|ops| - 1];
      PendingIsTold(front);
      assert Told(front) + [] == Told(front);
    }
  }

  /** The hours counted, oldest first. */
  function Counted(host: Host, count: Time -> string, ops: seq<Op>): seq<Time> {
    if ops == [] then []
    else
      var front, op := ops[..|ops| - 1], ops[|ops| - 1];
      Counted(host, count, front) +
      if op.Pushed? && Counts(RunOps(host, count, front), op.status, op.now) then [HourBefore(op.now)] else []
  }

  /** Hours that rise, whole hours all, the last of them known and the counts that wait among them. */
  ghost predicate Tidy(count: Time -> string, hours: seq<Time>, st: State) {
    (forall i, j | 0 <= i < j < |hours| :: hours[i] < hours[j]) &&
    (forall i | 0 <= i < |hours| :: hours[i] % HOUR == 0) &&
    st.counted == (if hours == [] then None else Some(hours[|hours| - 1])) &&
    |st.hours| <= MAX_HOURS &&
    (forall h | h in st.hours :: h.hour in hours && h.told == count(h.hour))
  }

  lemma PushTidy(count: Time -> string, hours: seq<Time>, st: State, status: Status, now: Time)
    requires Tidy(count, hours, st)
    ensures Tidy(count, hours + (if Counts(st, status, now) then [HourBefore(now)] else []),
                 ForPush(st, status, now, count))
  {
    hide HourBefore, StatusForPush;
    HourAligned(now);
    var next := ForPush(st, status, now, count);
    if Counts(st, status, now) {
      var hour := HourBefore(now);
      var more := hours + [hour];
      forall h | h in next.hours ensures h.hour in more && h.told == count(h.hour) {
        assert h in st.hours + [HourCount(hour, count(hour))];
        assert h in st.hours || h == HourCount(hour, count(hour));
        assert more[|hours|] == hour;
      }
    } else {
      assert hours + [] == hours;
    }
  }

  /** Every hour is counted at most once, and never one before it; at most six counts wait. */
  lemma {:induction false} HoursRise(host: Host, count: Time -> string, ops: seq<Op>)
    ensures Tidy(count, Counted(host, count, ops), RunOps(host, count, ops))
  {
    hide Collect, EventsOf, FirstReads, HourBefore, ForPush, Counts;
    if ops != [] {
      var front, op := ops[..|ops| - 1], ops[|ops| - 1];
      HoursRise(host, count, front);
      var hours := Counted(host, count, front);
      if op.Pushed? {
        PushTidy(count, hours, RunOps(host, count, front), op.status, op.now);
      } else {
        assert hours + [] == hours;
      }
    }
  }

  /** The hour counted is the last whole one. */
  lemma HourAligned(now: Time)
    ensures HourBefore(now) % HOUR == 0 && HourBefore(now) + HOUR <= now < HourBefore(now) + 2 * HOUR
  {
    assert HourBefore(now) == (now / HOUR - 1) * HOUR;
  }
}
