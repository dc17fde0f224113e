/**
 internal/agent/run.go: collect, spool, wait, push, drop, for ever. One pass of the loop is a tick; what the world does
 in it (the reading collected, the file system, the server's answer) is the tick's data, and any sequence of ticks is a
 run. A reading is delivered when Send returned no error, or an error with Settled set.
 */
module Delivery {
  import opened Options
  import opened Bytes
  import opened Sorting
  import opened Spool
  import opened SpoolQueue

  const MAX_BATCH: nat := 60
  const SECOND: nat := 1_000_000_000
  const MIN_BACKOFF: nat := 30 * SECOND
  const MAX_BACKOFF: nat := 900 * SECOND
  const MAX_SERVER_INTERVAL: nat := 3600 * SECOND

  datatype Reason = NotActivated | TokenRejected | OtherReason

  /** What Send gave back: no error and a cadence, or an error and whether it named the readings. */
  datatype Answer = Accepted(minInterval: int) | Refused(reason: Reason, settled: bool)

  predicate Settles(a: Answer) {
    a.Accepted? || a.settled
  }

  datatype Tick = Tick(reading: Option<bytes>, addFault: AddFault, listed: bool, unreadable: set<bytes>, answer: Answer)

  datatype Config = Config(interval: nat, max: nat, valid: bytes -> bool)

  /** What the loop holds between ticks. */
  datatype Agent = Agent(dir: Dir, number: nat, backoff: nat, serverInterval: int)

  /** What happened to readings. */
  datatype Event =
    | Committed(entry: Entry)
    | Overwritten(entry: Entry)
    | Evicted(entries: seq<Entry>, kept: Dir)
    | Discarded(entries: seq<Entry>)
    | Answered(batch: seq<Entry>, answer: Answer)
    | Unanswered(batch: seq<Entry>, answer: Answer)

  // ---- pure helpers ---------------------------------------------------------------------------------------------

  function NextBackoff(current: nat): nat {
    if current == 0 then MIN_BACKOFF else if 2 * current > MAX_BACKOFF then MAX_BACKOFF else 2 * current
  }

  function AfterError(reason: Reason, backoff: nat): nat {
    match reason
    case NotActivated => MAX_BACKOFF
    case TokenRejected => MAX_BACKOFF
    case OtherReason => NextBackoff(backoff)
  }

  function Cadence(config: Config, server: int, minInterval: int): int {
    if minInterval > MAX_SERVER_INTERVAL then server
    else if minInterval > config.interval && minInterval != server then minInterval
    else server
  }

  function Interval(config: Config, server: int): int {
    if server > config.interval then server else config.interval
  }

  /** How long a tick waits before it sends. */
  function Wait(config: Config, a: Agent): int {
    if a.backoff > Interval(config, a.serverInterval) then a.backoff else Interval(config, a.serverInterval)
  }

  // ---- one tick -------------------------------------------------------------------------------------------------

  function EntriesAt(dir: Dir, names: seq<bytes>): (r: seq<Entry>)
    requires forall n | n in names :: n in dir
    ensures |r| == |names| && forall i | 0 <= i < |r| :: r[i] == Entry(names[i], dir[names[i]])
  {
    if names == [] then [] else [Entry(names[0], dir[names[0]])] + EntriesAt(dir, names[1..])
  }

  lemma ExcessInDir(dir: Dir, max: nat)
    ensures forall n | n in Excess(dir, max) :: n in dir && IsReading(n)
  {
    AscendingMeans(Readings(dir));
    forall n | n in Excess(dir, max) ensures n in dir && IsReading(n) {
      assert n in Names(dir);
    }
  }

  ghost function Collect(config: Config, a: Agent, t: Tick): (Agent, seq<Event>) {
    var number := a.number + 1;
    if t.reading.None? then (a.(number := number), [])
    else
      var e := Entry(Name(number), t.reading.value);
      var dir := Added(a.dir, config.max, e.name, e.data, t.addFault);
      var full := (a.dir - {e.name + TMP})[e.name := e.data];
      ExcessInDir(full, config.max);
      (a.(number := number, dir := dir),
       if !Commits(t.addFault) then []
       else
         (if e.name in a.dir then [Overwritten(Entry(e.name, a.dir[e.name]))] else []) + [Committed(e)] +
         (if t.addFault.Fine? then [Evicted(EntriesAt(full, Excess(full, config.max)), dir)] else []))
  }

  lemma DamagedInDir(dir: Dir, valid: bytes -> bool, unreadable: set<bytes>, names: seq<bytes>)
    requires forall n | n in names :: n in dir
    ensures forall n | n in TakeFrom(dir, valid, unreadable, names).damaged :: n in names && !valid(dir[n])
    decreases |names|
  {
    if names != [] {
      DamagedInDir(dir, valid, unreadable, names[1..]);
    }
  }

  lemma TakenInDir(dir: Dir, valid: bytes -> bool, n: nat, listed: bool, unreadable: set<bytes>)
    ensures forall x | x in TakenUp(dir, valid, n, listed, unreadable).damaged ::
              x in dir && IsReading(x) && !valid(dir[x])
  {
    OldestInDir(dir, n);
    DamagedInDir(dir, valid, unreadable, Oldest(dir, n));
  }

  ghost function Send(config: Config, a: Agent, t: Tick): (Agent, seq<Event>) {
    var taken := TakenUp(a.dir, config.valid, MAX_BATCH, t.listed, t.unreadable);
    TakenInDir(a.dir, config.valid, MAX_BATCH, t.listed, t.unreadable);
    var log := [Discarded(EntriesAt(a.dir, taken.damaged))];
    var left := a.(dir := Without(a.dir, taken.damaged));
    if !taken.ok then (left.(backoff := NextBackoff(a.backoff)), log)
    else if taken.entries == [] then (left.(backoff := 0), log)
    else
      var dropped := Without(left.dir, NamesOf(taken.entries));
      match t.answer
      case Accepted(m) =>
        (left.(dir := dropped, backoff := 0, serverInterval := Cadence(config, a.serverInterval, m)),
         log + [Answered(taken.entries, t.answer)])
      case Refused(reason, settled) =>
        (left.(dir := if settled then dropped else left.dir, backoff := AfterError(reason, a.backoff)),
         log + [if settled then Answered(taken.entries, t.answer) else Unanswered(taken.entries, t.answer)])
  }

  ghost function Step(config: Config, a: Agent, t: Tick): (Agent, seq<Event>) {
    var (b, log) := Collect(config, a, t);
    var (c, more) := Send(config, b, t);
    (c, log + more)
  }

  /** A run: the agent afterwards, everything that happened to readings, and how long each tick waited. */
  ghost function Run(config: Config, a: Agent, ticks: seq<Tick>): (Agent, seq<Event>, seq<int>)
    decreases |ticks|
  {
    if ticks == [] then (a, [], [])
    else
      var (b, log) := Step(config, a, ticks[0]);
      var (c, more, waits) := Run(config, b, ticks[1..]);
      (c, log + more, [Wait(config, Collect(config, a, ticks[0]).0)] + waits)
  }

  /**
   A run that has ended: whole ticks, and then the collection whose wait was interrupted, which is where the loop ends.
   */
  ghost function Finished(config: Config, a: Agent, ticks: seq<Tick>, last: Tick): (Agent, seq<Event>) {
    var (b, log, _) := Run(config, a, ticks);
    var (c, more) := Collect(config, b, last);
    (c, log + more)
  }

  class Runner {
    const config: Config
    const store: Store
    var number: nat
    var backoff: nat
    var serverInterval: int

    ghost function Now(): Agent
      reads this, store
    {
      Agent(store.dir, number, backoff, serverInterval)
    }

    ghost predicate Valid() {
      store.max == config.max && store.valid == config.valid
    }

    /** The first sequence number comes from the clock. */
    constructor (c: Config, files: Dir, clock: nat)
      ensures Valid() && config == c && fresh(store)
      ensures number == clock && backoff == 0 && serverInterval == 0
      ensures store.dir == map n | n in files && !EndsWith(n, TMP) :: files[n]
    {
      config := c;
      store := new Store(files, c.max, c.valid);
      number, backoff, serverInterval := clock, 0, 0;
    }

    method CollectOnce(t: Tick)
      requires Valid()
      modifies this`number, store
      ensures Now() == Collect(config, old(Now()), t).0
    {
      number := number + 1;
      if t.reading.Some? {
        var _ := store.Add(Name(number), t.reading.value, t.addFault);
      }
    }

    /** The error of the push, if there is one. */
    method SendOnce(t: Tick) returns (failed: bool, reason: Reason)
      requires Valid()
      modifies this`serverInterval, store
      ensures Send(config, old(Now()), t).0
           == Now().(backoff := if failed then AfterError(reason, old(backoff)) else 0)
      ensures backoff == old(backoff)
    {
      reason := OtherReason;
      TakenInDir(store.dir, config.valid, MAX_BATCH, t.listed, t.unreadable);
      var entries, ok := store.Take(MAX_BATCH, t.listed, t.unreadable);
      if !ok {
        return true, OtherReason;
      }
      if entries == [] {
        return false, OtherReason;
      }
      match t.answer {
        case Refused(r, settled) =>
          if settled {
            store.Drop(entries);
          }
          return true, r;
        case Accepted(m) =>
          store.Drop(entries);
          ApplyCadence(m);
          failed := false;
      }
    }

    method ApplyCadence(m: int)
      modifies this`serverInterval
      ensures serverInterval == Cadence(config, old(serverInterval), m)
    {
      if m > MAX_SERVER_INTERVAL {
        return;
      }
      if m > config.interval && m != serverInterval {
        serverInterval := m;
      }
    }

    /** One pass of the loop: collect, wait, send, and decide how long to hold off after an error. */
    method OneTick(t: Tick) returns (wait: int)
      requires Valid()
      modifies this, store
      ensures Now() == Step(config, old(Now()), t).0
      ensures wait == Wait(config, Collect(config, old(Now()), t).0)
    {
      hide Collect, Send;
      CollectOnce(t);
      wait := if serverInterval > config.interval then serverInterval else config.interval;
      if backoff > wait {
        wait := backoff;
      }
      var failed, reason := SendOnce(t);
      if !failed {
        backoff := 0;
      } else {
        match reason {
          case NotActivated => backoff := MAX_BACKOFF;
          case TokenRejected => backoff := MAX_BACKOFF;
          case OtherReason => backoff := NextBackoff(backoff);
        }
      }
    }

    /** The loop: as many whole passes as it lives, and a last collection, in whose wait it is stopped. */
    method RunLoop(ticks: seq<Tick>, last: Tick) returns (waits: seq<int>)
      requires Valid()
      modifies this, store
      ensures Now() == Finished(config, old(Now()), ticks, last).0 && waits == Run(config, old(Now()), ticks).2
    {
      hide Collect, Step, Wait;
      waits := [];
      ghost var start := Now();
      var i := 0;
      while i < |ticks|
        invariant 0 <= i <= |ticks| && Valid()
        invariant Run(config, start, ticks).0 == Run(config, Now(), ticks[i..]).0
        invariant Run(config, start, ticks).2 == waits + Run(config, Now(), ticks[i..]).2
      {
        assert ticks[i..][0] == ticks[i] && ticks[i..][1..] == ticks[i + 1..];
        var wait := OneTick(ticks[i]);
        ghost var later := Run(config, Now(), ticks[i + 1..]).2;
        assert waits + ([wait] + later) == waits + [wait] + later;
        waits := waits + [wait];
        i := i + 1;
      }
      assert ticks[i..] == [];
      assert waits + [] == waits;
      CollectOnce(last);
    }
  }
}
