/**
 internal/agent/journal.go: what the agent remembers of each unit between collections, so that a failure is told once
 and a restart loop at most every six hours, and the bounded queues of what waits for a push that lands. Times are
 nanoseconds on the agent's clock.
 */
module JournalWatch {
  import opened Options
  import opened Sequences

  type Time = int

  const MINUTE: nat := 60_000_000_000
  const HOUR: nat := 60 * MINUTE
  const DAY: nat := 24 * HOUR
  const QUIET: nat := 6 * HOUR
  const LOOP_RESTARTS: nat := 3
  const MAX_READS: nat := 5
  const MAX_EVENTS: nat := 10
  const MAX_HOURS: nat := 6

  datatype Service = Service(unit: string, active: string, result: string, changedAt: Option<Time>,
                             restarts: Option<nat>)

  datatype What = Failed | OomKill | RestartLoop

  /** A unit whose last lines are due, and the moment they lead up to. */
  datatype Due = Due(unit: string, what: What, at: Time)

  /** The watch's maps: the failure already told, the restart counter, when restarts were seen, when a loop was told. */
  datatype Memory = Memory(failed: map<string, Option<Time>>, restarts: map<string, nat>, times: map<string, seq<Time>>,
                           loopSent: map<string, Time>)

  const EMPTY: Memory := Memory(map[], map[], map[], map[])

  predicate IsService(unit: string) {
    |unit| >= 8 && unit[|unit| - 8..] == ".service"
  }

  // ---- one service ----------------------------------------------------------------------------------------------

  predicate IsFailed(s: Service) {
    s.active == "failed"
  }

  function FailureOf(s: Service, now: Time): Due {
    Due(s.unit, if s.result == "oom-kill" then OomKill else Failed,
        if s.changedAt.Some? then s.changedAt.value else now)
  }

  function LookFailed(failed: map<string, Option<Time>>, s: Service, now: Time): (map<string, Option<Time>>, seq<Due>) {
    if !IsFailed(s) then (failed - {s.unit}, [])
    else if s.unit in failed && failed[s.unit] == s.changedAt then (failed, [])
    else (failed[s.unit := s.changedAt], [FailureOf(s, now)])
  }

  function Stamps(now: Time, k: nat): (r: seq<Time>)
    ensures |r| == k && forall t | t in r :: t == now
  {
    if k == 0 then [] else Stamps(now, k - 1) + [now]
  }

  /** The times less than a day before now. */
  function Recent(times: seq<Time>, now: Time): (r: seq<Time>)
    ensures |r| <= |times|
  {
    if times == [] then []
    else
      var last := times[|times| - 1];
      Recent(times[..|times| - 1], now) + (if now - last < DAY then [last] else [])
  }

  /** How many new restarts a counter shows: at most three in one collection, however far it jumped. */
  function Jump(was: nat, n: nat): nat {
    if n <= was then 0 else if n - was < LOOP_RESTARTS then n - was else LOOP_RESTARTS
  }

  function LookRestarts(m: Memory, s: Service, now: Time): (Memory, seq<Due>) {
    if s.restarts.None? then (m, [])
    else
      var n := s.restarts.value;
      var before := if s.unit in m.times then m.times[s.unit] else [];
      var more := if s.unit in m.restarts then before + Stamps(now, Jump(m.restarts[s.unit], n)) else before;
      var recent := Recent(more, now);
      var next := m.(restarts := m.restarts[s.unit := n], times := m.times[s.unit := recent]);
      if |recent| >= LOOP_RESTARTS && (s.unit !in m.loopSent || now - m.loopSent[s.unit] >= QUIET) then
        (next.(loopSent := m.loopSent[s.unit := now]), [Due(s.unit, RestartLoop, now)])
      else (next, [])
  }

  function Look(m: Memory, s: Service, now: Time): (Memory, seq<Due>) {
    if !IsService(s.unit) then (m, [])
    else
      var (failed, due) := LookFailed(m.failed, s, now);
      var (next, more) := LookRestarts(m.(failed := failed), s, now);
      (next, due + more)
  }

  // ---- one collection -------------------------------------------------------------------------------------------

  function LookAll(m: Memory, services: seq<Service>, now: Time): (Memory, seq<Due>) {
    if services == [] then (m, [])
    else
      var (before, due) := LookAll(m, services[..|services| - 1], now);
      var (after, more) := Look(before, services[|services| - 1], now);
      (after, due + more)
  }

  function Units(services: seq<Service>): set<string> {
    set s | s in services && IsService(s.unit) :: s.unit
  }

  /** Units that left the watch set are forgotten. */
  function Forget(m: Memory, seen: set<string>): Memory {
    var gone := m.restarts.Keys - seen;
    Memory(m.failed - (m.failed.Keys - seen), m.restarts - gone, m.times - gone, m.loopSent - gone)
  }

  datatype Status = Status(readable: bool, reason: string)

  /** One collection as the watch sees it; services is None when the collector did not answer. */
  datatype Collection = Collection(now: Time, status: Status, services: Option<seq<Service>>)

  function Collect(m: Memory, c: Collection): (Memory, seq<Due>) {
    if c.services.None? then (m, [])
    else
      var (looked, due) := LookAll(m, c.services.value, c.now);
      (Forget(looked, Units(c.services.value)), due)
  }

  /** A run of collections: the memory afterwards and everything that fell due. */
  function CollectAll(m: Memory, cs: seq<Collection>): (Memory, seq<Due>) {
    if cs == [] then (m, [])
    else
      var (before, due) := CollectAll(m, cs[..|cs| - 1]);
      var (after, more) := Collect(before, cs[|cs| - 1]);
      (after, due + more)
  }

  // ---- what is told ---------------------------------------------------------------------------------------------

  type Line = string

  datatype Snippet = Snippet(lines: seq<Line>, compressed: nat, truncated: bool, withheld: string)

  datatype JournalEvent = JournalEvent(unit: string, what: What, at: Time, lines: seq<Line>, compressed: nat,
                                       truncated: bool, withheld: string)

  /** The machine's journal, and which units are login services. */
  datatype Host = Host(login: string -> bool, reported: string -> string, lines: (string, Time, Time) -> Snippet)

  function EventOf(host: Host, d: Due): JournalEvent {
    var s := if host.login(d.unit) then Snippet([], 0, false, "login")
      else host.lines(d.unit, d.at - HOUR, d.at + MINUTE);
    JournalEvent(host.reported(d.unit), d.what, d.at, s.lines, s.compressed, s.truncated, s.withheld)
  }

  function EventsOf(host: Host, due: seq<Due>): (r: seq<JournalEvent>)
    ensures |r| == |due|
  {
    if due == [] then [] else EventsOf(host, due[..|due| - 1]) + [EventOf(host, due[|due| - 1])]
  }

  function FirstReads(due: seq<Due>): seq<Due> {
    if |due| <= MAX_READS then due else due[..MAX_READS]
  }

  datatype HourCount = HourCount(hour: Time, told: string)

  /** The start of the last full hour. */
  function HourBefore(now: Time): Time {
    now - now % HOUR - HOUR
  }

  datatype Payload = Payload(status: Status, events: seq<JournalEvent>, hours: seq<HourCount>)

  /** The whole state of the watch. */
  datatype State = State(memory: Memory, status: Status, events: seq<JournalEvent>, hours: seq<HourCount>,
                         counted: Option<Time>)

  const START: State := State(EMPTY, Status(false, ""), [], [], None)

  function Observe(host: Host, st: State, c: Collection): State {
    if c.services.None? then st.(status := c.status)
    else
      var (memory, due) := Collect(st.memory, c);
      if !c.status.readable then st.(memory := memory, status := c.status)
      else st.(memory := memory, status := c.status,
               events := Newest(st.events + EventsOf(host, FirstReads(due)), MAX_EVENTS))
  }

  function StatusForPush(st: State, status: Status): Status {
    if st.status.reason == "" then status else st.status
  }

  /** Whether the last full hour is still to be counted. */
  predicate Counts(st: State, status: Status, now: Time) {
    StatusForPush(st, status).readable && (st.counted.None? || st.counted.value < HourBefore(now))
  }

  function ForPush(st: State, status: Status, now: Time, count: Time -> string): State {
    var hour := HourBefore(now);
    if !Counts(st, status, now) then st.(status := StatusForPush(st, status))
    else st.(status := StatusForPush(st, status), hours := Newest(st.hours + [HourCount(hour, count(hour))], MAX_HOURS),
             counted := Some(hour))
  }

  function Delivered(st: State): State {
    st.(events := [], hours := [])
  }

  // ---- the watch ------------------------------------------------------------------------------------------------

  class Watch {
    const host: Host
    const count: Time -> string
    var failed: map<string, Option<Time>>
    var restarts: map<string, nat>
    var times: map<string, seq<Time>>
    var loopSent: map<string, Time>
    var status: Status
    var events: seq<JournalEvent>
    var hours: seq<HourCount>
    var counted: Option<Time>

    ghost function Remembered(): Memory
      reads this
    {
      Memory(failed, restarts, times, loopSent)
    }

    ghost function Now(): State
      reads this
    {
      State(Remembered(), status, events, hours, counted)
    }

    constructor (h: Host, c: Time -> string)
      ensures Now() == START && host == h && count == c
    {
      host, count := h, c;
      failed, restarts, times, loopSent := map[], map[], map[], map[];
      status, events, hours, counted := Status(false, ""), [], [], None;
    }

    method LookAt(s: Service, now: Time) returns (found: seq<Due>)
      modifies this`failed, this`restarts, this`times, this`loopSent
      ensures (Remembered(), found) == Look(old(Remembered()), s, now)
    {
      hide LookFailed, LookRestarts;
      found := [];
      if !IsService(s.unit) {
        return;
      }
      var due := LookAtState(s, now);
      var more := LookAtCounter(s, now);
      found := due + more;
    }

    method LookAtState(s: Service, now: Time) returns (found: seq<Due>)
      modifies this`failed
      ensures (failed, found) == LookFailed(old(failed), s, now)
    {
      found := [];
      if s.active != "failed" {
        failed := failed - {s.unit};
        return;
      }
      if s.unit !in failed || failed[s.unit] != s.changedAt {
        failed := failed[s.unit := s.changedAt];
        var what := if s.result == "oom-kill" then OomKill else Failed;
        var at := if s.changedAt.Some? then s.changedAt.value else now;
        found := [Due(s.unit, what, at)];
      }
    }

    method LookAtCounter(s: Service, now: Time) returns (found: seq<Due>)
      modifies this`restarts, this`times, this`loopSent
      ensures (Remembered(), found) == LookRestarts(old(Remembered()), s, now)
    {
      found := [];
      if s.restarts.None? {
        return;
      }
      var n := s.restarts.value;
      var seen := if s.unit in times then times[s.unit] else [];
      if s.unit in restarts {
        seen := AddRestarts(seen, restarts[s.unit], n, now);
      }
      restarts := restarts[s.unit := n];
      var recent := OnlyRecent(seen, now);
      times := times[s.unit := recent];
      if |recent| >= LOOP_RESTARTS && (s.unit !in loopSent || now - loopSent[s.unit] >= QUIET) {
        loopSent := loopSent[s.unit := now];
        found := [Due(s.unit, RestartLoop, now)];
      }
    }

    /** Looks at one collection's units. */
    method LookAtAll(services: seq<Service>, now: Time) returns (found: seq<Due>, seen: set<string>)
      modifies this`failed, this`restarts, this`times, this`loopSent
      ensures (Remembered(), found) == LookAll(old(Remembered()), services, now)
      ensures seen == Units(services)
    {
      found, seen := [], {};
      var i := 0;
      while i < |services|
        invariant 0 <= i <= |services|
        invariant (Remembered(), found) == LookAll(old(Remembered()), services[..i], now)
        invariant seen == Units(services[..i])
      {
        assert services[..i + 1] == services[..i] + [services[i]];
        if IsService(services[i].unit) {
          seen := seen + {services[i].unit};
        }
        assert seen == Units(services[..i + 1]);
        var due := LookAt(services[i], now);
        found := found + due;
        i := i + 1;
      }
      assert services[..i] == services;
    }

    method ForgetUnseen(seen: set<string>)
      modifies this`failed, this`restarts, this`times, this`loopSent
      ensures Remembered() == Forget(old(Remembered()), seen)
    {
      var gone := restarts.Keys - seen;
      restarts, times, loopSent := restarts - gone, times - gone, loopSent - gone;
      failed := failed - (failed.Keys - seen);
    }

    method ObserveJournal(c: Collection)
      modifies this
      ensures Now() == Observe(host, old(Now()), c)
    {
      hide LookAll, Forget, EventsOf;
      status := c.status;
      if c.services.None? {
        return;
      }
      var found, seen := LookAtAll(c.services.value, c.now);
      ForgetUnseen(seen);
      if !status.readable {
        return;
      }
      Tell(found);
      if |events| > MAX_EVENTS {
        events := events[|events| - MAX_EVENTS..];
      }
    }

    /** Reads the last lines of the first few units that are due. */
    method Tell(found: seq<Due>)
      modifies this`events
      ensures events == old(events) + EventsOf(host, FirstReads(found))
    {
      ghost var told := FirstReads(found);
      var i := 0;
      while i < |found| && i < MAX_READS
        invariant 0 <= i <= |told|
        invariant events == old(events) + EventsOf(host, told[..i])
      {
        var s := Snippet([], 0, false, "login");
        var d := found[i];
        if !host.login(d.unit) {
          s := host.lines(d.unit, d.at - HOUR, d.at + MINUTE);
        }
        assert told[..i + 1][..i] == told[..i];
        var e := JournalEvent(host.reported(d.unit), d.what, d.at, s.lines, s.compressed, s.truncated, s.withheld);
        events := events + [e];
        i := i + 1;
      }
      assert told[..i] == told;
    }

    /** Counts the hour that just ended, once, and says what the push carries. */
    method JournalForPush(check: Status, now: Time) returns (p: Payload)
      modifies this`status, this`hours, this`counted
      ensures Now() == ForPush(old(Now()), check, now, count)
      ensures p == Payload(status, events, hours)
    {
      if status.reason == "" {
        status := check;
      }
      if status.readable {
        var hour := now - now % HOUR - HOUR;
        if counted.None? || counted.value < hour {
          hours := hours + [HourCount(hour, count(hour))];
          counted := Some(hour);
          if |hours| > MAX_HOURS {
            hours := hours[|hours| - MAX_HOURS..];
          }
        }
      }
      p := Payload(status, events, hours);
    }

    method JournalDelivered()
      modifies this`events, this`hours
      ensures Now() == Delivered(old(Now()))
    {
      events, hours := [], [];
    }
  }

  /** The new restarts a counter shows, all seen now. */
  method AddRestarts(seen: seq<Time>, was: nat, n: nat, now: Time) returns (more: seq<Time>)
    ensures more == seen + Stamps(now, Jump(was, n))
  {
    more := seen;
    if n > was {
      var i := 0;
      while i < n - was && i < LOOP_RESTARTS
        invariant 0 <= i <= Jump(was, n)
        invariant more == seen + Stamps(now, i)
      {
        more := more + [now];
        i := i + 1;
      }
    }
  }

  method OnlyRecent(seen: seq<Time>, now: Time) returns (recent: seq<Time>)
    ensures recent == Recent(seen, now)
  {
    var room := new Time[|seen|](i requires 0 <= i < |seen| => seen[i]);
    assert room[..] == seen;
    var kept := KeepRecent(room, now);
    recent := room[..kept];
  }

  /** The filter writes over the times it reads: what it keeps moves to the front. */
  method KeepRecent(a: array<Time>, now: Time) returns (n: nat)
    modifies a
    ensures n <= a.Length && a[..n] == Recent(old(a[..]), now)
  {
    ghost var was := a[..];
    n := 0;
    var i := 0;
    assert was[..0] == [];
    while i < a.Length
      invariant 0 <= n <= i <= a.Length
      invariant a[..n] == Recent(was[..i], now)
      invariant forall k | i <= k < a.Length :: a[k] == was[k]
    {
      assert was[..i + 1][..i] == was[..i];
      if now - a[i] < DAY {
        a[n] := a[i];
        n := n + 1;
      }
      i := i + 1;
    }
    assert was[..i] == was;
  }
}
