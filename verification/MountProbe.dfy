/**
 internal/collect/mountwatch.go: every mount is measured in its own goroutine, and whoever has not answered by the
 deadline is given up on. The machine below is every interleaving of probes returning, probes sending on the buffered
 channel, the collector receiving, and the deadline.
 */
module MountProbe {
  import opened Options
  import opened Bytes
  import opened Sorting
  import opened Sequences

  /** A measured filesystem: where it is mounted, and the rest. */
  datatype Mount = Mount(point: bytes, rest: string)

  /** What is probed, and what each probe says if it ever returns; None is a mount that is no disk to fill. */
  datatype Scan = Scan(points: seq<bytes>, answer: nat -> Option<Mount>)

  predicate ByPoint(a: Mount, b: Mount) {
    BytesLeq(a.point, b.point)
  }

  // ---- the machine ----------------------------------------------------------------------------------------------

  /** A probe is inside its system call, about to send, or done. */
  datatype Stage = Asking | Sending | Sent

  datatype Phase = Waiting | AllIn | TimedOut

  /** The goroutines, the channel between them, and the collector's own variables; `received` is what it has taken. */
  datatype State = State(probes: seq<Stage>, channel: seq<nat>, received: seq<nat>, started: set<bytes>,
                         mounts: seq<Mount>, phase: Phase)

  datatype Move = Return(i: nat) | Send(i: nat) | Receive | Expire

  predicate Enabled(scan: Scan, st: State, m: Move) {
    match m
    case Return(i) => i < |st.probes| && st.probes[i] == Asking
    case Send(i) => i < |st.probes| && st.probes[i] == Sending && |st.channel| < |scan.points|
    case Receive => st.phase == Waiting && st.channel != [] && st.channel[0] < |scan.points|
    case Expire => st.phase == Waiting
  }

  function Found(scan: Scan, i: nat): seq<Mount> {
    if scan.answer(i).Some? then [scan.answer(i).value] else []
  }

  function Next(scan: Scan, st: State, m: Move): State {
    if !Enabled(scan, st, m) then st
    else
      match m
      case Return(i) => st.(probes := st.probes[i := Sending])
      case Send(i) => st.(probes := st.probes[i := Sent], channel := st.channel + [i])
      case Receive =>
        var i := st.channel[0];
        var received := st.received + [i];
        st.(channel := st.channel[1..], received := received, started := st.started - {scan.points[i]},
            mounts := st.mounts + Found(scan, i),
            phase := if |received| == |scan.points| then AllIn else Waiting)
      case Expire => st.(phase := TimedOut)
  }

  function Points(points: seq<bytes>): set<bytes> {
    set p | p in points
  }

  function AllAsking(n: nat): (r: seq<Stage>)
    ensures |r| == n && forall i | 0 <= i < n :: r[i] == Asking
  {
    if n == 0 then [] else AllAsking(n - 1) + [Asking]
  }

  function Start(scan: Scan): State {
    State(AllAsking(|scan.points|), [], [], Points(scan.points), [], if scan.points == [] then AllIn else Waiting)
  }

  /** Any sequence of moves is a run; one that is not enabled does nothing. */
  function Run(scan: Scan, moves: seq<Move>): State {
    if moves == [] then Start(scan) else Next(scan, Run(scan, moves[..|moves| - 1]), moves[|moves| - 1])
  }

  // ---- what every run keeps -------------------------------------------------------------------------------------

  function MountsOf(scan: Scan, received: seq<nat>): seq<Mount> {
    if received == [] then []
    else MountsOf(scan, received[..|received| - 1]) + Found(scan, received[|received| - 1])
  }

  /** The points some probe of which has been heard. */
  function Heard(scan: Scan, received: seq<nat>): set<bytes> {
    set i | 0 <= i < |scan.points| && i in received :: scan.points[i]
  }

  /** Every answer sent is in the channel or received, once; the collector's variables say what it received. */
  ghost predicate Sound(scan: Scan, st: State) {
    var out := st.received + st.channel;
    |st.probes| == |scan.points| &&
    Distinct(out) &&
    (forall i: nat :: i in out <==> i < |st.probes| && st.probes[i] == Sent) &&
    st.started == Points(scan.points) - Heard(scan, st.received) &&
    st.mounts == MountsOf(scan, st.received) &&
    (st.phase == AllIn <==> |st.received| == |scan.points|)
  }

  lemma StartSound(scan: Scan)
    ensures Sound(scan, Start(scan))
  {
    assert Heard(scan, []) == {};
  }

  lemma HeardMore(scan: Scan, received: seq<nat>, i: nat)
    requires i < |scan.points|
    ensures Heard(scan, received + [i]) == Heard(scan, received) + {scan.points[i]}
  {
    forall p ensures p in Heard(scan, received + [i]) <==> p in Heard(scan, received) + {scan.points[i]} {
      if p == scan.points[i] {
        assert i in received + [i];
      }
    }
  }

  lemma SendSound(scan: Scan, st: State, i: nat)
    requires Sound(scan, st) && i < |st.probes| && st.probes[i] == Sending
    ensures |st.channel| < |scan.points|
    ensures Sound(scan, Next(scan, st, Send(i)))
  {
    hide MountsOf, Heard, Points;
    var out := st.received + st.channel;
    var more := out + [i];
    forall k | 0 <= k < |more| ensures more[k] < |scan.points| {
      assert k < |out| ==> out[k] in out;
    }
    assert i !in out;
    assert Distinct(more);
    DistinctBelow(more, |scan.points|);
    var next := Next(scan, st, Send(i));
    assert next.received + next.channel == more;
    forall k: nat ensures k in more <==> k < |next.probes| && next.probes[k] == Sent {
      assert k in more <==> k in out || k == i;
    }
  }

  lemma ReceiveSound(scan: Scan, st: State)
    requires Sound(scan, st)
    ensures st.channel != [] ==> st.channel[0] < |scan.points|
    ensures Sound(scan, Next(scan, st, Receive))
  {
    hide Heard, Points, Found;
    var out := st.received + st.channel;
    if st.channel != [] {
      assert out[|st.received|] == st.channel[0];
      assert st.channel[0] in out;
      var i := st.channel[0];
      var next := Next(scan, st, Receive);
      if st.phase == Waiting {
        assert st.channel == [i] + st.channel[1..];
        assert next.received + next.channel == out;
        HeardMore(scan, st.received, i);
        assert next.received[..|st.received|] == st.received;
      }
    }
  }

  lemma {:induction false} RunSound(scan: Scan, moves: seq<Move>)
    ensures Sound(scan, Run(scan, moves))
  {
    hide Sound, Next, Start;
    if moves == [] {
      StartSound(scan);
    } else {
      var st, m := Run(scan, moves[..|moves| - 1]), moves[|moves| - 1];
      RunSound(scan, moves[..|moves| - 1]);
      NextSound(scan, st, m);
    }
  }

  lemma NextSound(scan: Scan, st: State, m: Move)
    requires Sound(scan, st)
    ensures Sound(scan, Next(scan, st, m))
  {
    hide MountsOf, Heard, Points;
    match m {
      case Return(i) =>
      case Send(i) =>
        if Enabled(scan, st, m) {
          SendSound(scan, st, i);
        }
      case Receive => ReceiveSound(scan, st);
      case Expire =>
    }
  }

  /** No probe ever waits to send: not while the collector listens, and not after it has gone. */
  lemma SendsNeverBlock(scan: Scan, moves: seq<Move>, i: nat)
    requires i < |Run(scan, moves).probes| && Run(scan, moves).probes[i] == Sending
    ensures Enabled(scan, Run(scan, moves), Send(i))
  {
    hide Run;
    RunSound(scan, moves);
    SendSound(scan, Run(scan, moves), i);
  }

  /** In every state, a point is unanswered exactly when none of its probes was heard; nothing is heard twice. */
  lemma EveryPointIsAccountedFor(scan: Scan, moves: seq<Move>)
    ensures var st := Run(scan, moves);
            st.started + Heard(scan, st.received) == Points(scan.points) && st.started !! Heard(scan, st.received) &&
            Distinct(st.received) && st.mounts == MountsOf(scan, st.received) &&
            (st.phase == AllIn ==> st.started == {})
  {
    hide Run, MountsOf;
    RunSound(scan, moves);
    var st := Run(scan, moves);
    var out := st.received + st.channel;
    assert forall k | 0 <= k < |st.received| :: out[k] == st.received[k];
    if st.phase == AllIn {
      forall k | 0 <= k < |st.received| ensures st.received[k] < |scan.points| {
        assert out[k] in out;
      }
      DistinctBelow(st.received, |scan.points|);
      assert Heard(scan, st.received) == Points(scan.points);
    }
  }

  /** With distinct mount points, an unanswered point is one whose own probe was not heard. */
  lemma UnansweredAreTheSilent(scan: Scan, moves: seq<Move>, i: nat)
    requires Distinct(scan.points) && i < |scan.points|
    ensures scan.points[i] in Run(scan, moves).started <==> i !in Run(scan, moves).received
  {
    hide Run;
    EveryPointIsAccountedFor(scan, moves);
    var st := Run(scan, moves);
    if i !in st.received {
      forall k: nat | k < |scan.points| && k in st.received ensures scan.points[k] != scan.points[i] {
        DistinctOne(scan.points, i, k);
      }
    }
  }

  // ---- the result -----------------------------------------------------------------------------------------------

  /** What the collector returns once it has stopped waiting. */
  function Result(st: State): seq<Mount> {
    if st.phase == AllIn then Sort(ByPoint, st.mounts) else st.mounts
  }

  function Indices(n: nat): (r: seq<nat>)
    ensures |r| == n && forall i | 0 <= i < n :: r[i] == i
  {
    if n == 0 then [] else Indices(n - 1) + [n - 1]
  }

  lemma {:induction false} MountsAppend(scan: Scan, a: seq<nat>, b: seq<nat>)
    ensures MountsOf(scan, a + b) == MountsOf(scan, a) + MountsOf(scan, b)
  {
    if b == [] {
      assert a + b == a;
    } else {
      assert (a + b)[..|a + b| - 1] == a + b[..|b| - 1];
      MountsAppend(scan, a, b[..|b| - 1]);
    }
  }

  lemma MountsOfOne(scan: Scan, i: nat)
    ensures MountsOf(scan, [i]) == Found(scan, i)
  {
    assert [i][..0] == [];
  }

  lemma MountsWithout(scan: Scan, s: seq<nat>, k: nat)
    requires k < |s|
    ensures multiset(MountsOf(scan, s)) == multiset(MountsOf(scan, s[..k] + s[k + 1..])) + multiset(Found(scan, s[k]))
  {
    hide MountsOf, Found;
    assert s == s[..k] + [s[k]] + s[k + 1..];
    MountsAppend(scan, s[..k] + [s[k]], s[k + 1..]);
    MountsAppend(scan, s[..k], [s[k]]);
    MountsAppend(scan, s[..k], s[k + 1..]);
    MountsOfOne(scan, s[k]);
  }

  lemma {:induction false} MountsRearranged(scan: Scan, a: seq<nat>, b: seq<nat>)
    requires multiset(a) == multiset(b)
    ensures multiset(MountsOf(scan, a)) == multiset(MountsOf(scan, b))
    decreases |a|
  {
    hide MountsOf, Found;
    assert |multiset(a)| == |a| && |multiset(b)| == |b|;
    if a == [] {
      assert b == [];
    } else {
      var n := |a| - 1;
      assert a[n] in multiset(b);
      var k :| 0 <= k < |b| && b[k] == a[n];
      RemoveAt(a, n);
      RemoveAt(b, k);
      assert a[..n] + a[n + 1..] == a[..n];
      MountsRearranged(scan, a[..n], b[..k] + b[k + 1..]);
      MountsWithout(scan, a, n);
      MountsWithout(scan, b, k);
    }
  }

  lemma ByPointOrders()
    ensures Orders(ByPoint)
  {
    forall x, y ensures ByPoint(x, y) || ByPoint(y, x) {
      CompareAntisymmetric(x.point, y.point);
    }
    forall x, y, z | ByPoint(x, y) && ByPoint(y, z) ensures ByPoint(x, z) {
      CompareTransitive(x.point, y.point, z.point);
    }
  }

  /** The mounts there are to report, each of a point of its own. */
  ghost predicate OwnPoints(scan: Scan) {
    Separates(ByPoint, MountsOf(scan, Indices(|scan.points|)))
  }

  lemma AllInIsEveryone(scan: Scan, received: seq<nat>)
    requires Distinct(received) && |received| == |scan.points|
    requires forall i | 0 <= i < |received| :: received[i] < |scan.points|
    ensures multiset(received) == multiset(Indices(|scan.points|))
  {
    DistinctBelow(received, |scan.points|);
    DistinctBelow(Indices(|scan.points|), |scan.points|);
  }

  /** When everyone answers in time the result is one sorted list, whatever order the answers came in. */
  lemma AnswersInAnyOrder(scan: Scan, moves: seq<Move>)
    requires OwnPoints(scan) && Run(scan, moves).phase == AllIn
    ensures Result(Run(scan, moves)) == Sort(ByPoint, MountsOf(scan, Indices(|scan.points|)))
    ensures SortedBy(ByPoint, Result(Run(scan, moves)))
  {
    hide Run, MountsOf;
    RunSound(scan, moves);
    var st := Run(scan, moves);
    var out := st.received + st.channel;
    forall k | 0 <= k < |st.received| ensures st.received[k] < |scan.points| {
      assert out[k] in out;
    }
    assert Distinct(st.received) by {
      assert forall k | 0 <= k < |st.received| :: out[k] == st.received[k];
    }
    AllInIsEveryone(scan, st.received);
    MountsRearranged(scan, Indices(|scan.points|), st.received);
    ByPointOrders();
    SortIgnoresOrder(ByPoint, MountsOf(scan, Indices(|scan.points|)), st.mounts);
    SortSorted(ByPoint, st.mounts);
  }

  /** What is reported then is what the probes found, no more and no less, from the first mount point to the last. */
  lemma ReportedAre(scan: Scan, moves: seq<Move>, m: Mount)
    requires OwnPoints(scan) && Run(scan, moves).phase == AllIn
    ensures var r := Result(Run(scan, moves));
            (m in r <==> exists i :: 0 <= i < |scan.points| && scan.answer(i) == Some(m)) &&
            forall i, k | 0 <= i < k < |r| :: CompareBytes(r[i].point, r[k].point) <= 0
  {
    hide Run, MountsOf, Found, Sort;
    var all := MountsOf(scan, Indices(|scan.points|));
    AnswersInAnyOrder(scan, moves);
    SortSorted(ByPoint, all) by { ByPointOrders(); }
    MountsOfHas(scan, Indices(|scan.points|), m);
    var r := Result(Run(scan, moves));
    assert m in r <==> m in multiset(r);
    assert m in all <==> m in multiset(all);
    forall i | 0 <= i < |scan.points| ensures i in Indices(|scan.points|) {
      assert Indices(|scan.points|)[i] == i;
    }
  }

  lemma {:induction false} MountsOfHas(scan: Scan, received: seq<nat>, m: Mount)
    ensures m in MountsOf(scan, received) <==> exists i :: i in received && scan.answer(i) == Some(m)
  {
    if received != [] {
      var front, last := received[..|received| - 1], received[|received| - 1];
      MountsOfHas(scan, front, m);
      assert received == front + [last];
    }
  }

  // ---- the collector --------------------------------------------------------------------------------------------

  /**
   The collector's own loop, given which answers reach it before the deadline, in order. Ranging over the points still
   started has no fixed order.
   */
  method ProbeMounts(scan: Scan, arrivals: seq<nat>) returns (mounts: seq<Mount>, unanswered: seq<bytes>)
    requires Distinct(arrivals) && |arrivals| <= |scan.points|
    requires forall i | 0 <= i < |arrivals| :: arrivals[i] < |scan.points|
    ensures |arrivals| == |scan.points| ==> mounts == Sort(ByPoint, MountsOf(scan, arrivals)) && unanswered == []
    ensures |arrivals| < |scan.points| ==>
              mounts == MountsOf(scan, arrivals) &&
              multiset(unanswered) == multiset(Points(scan.points) - Heard(scan, arrivals))
  {
    hide MountsOf, Heard;
    var started: set<bytes> := {};
    for k := 0 to |scan.points|
      invariant started == Points(scan.points[..k])
    {
      assert scan.points[..k + 1] == scan.points[..k] + [scan.points[k]];
      started := started + {scan.points[k]};
    }
    assert scan.points[..|scan.points|] == scan.points;
    mounts, unanswered := [], [];
    NothingHeard(scan);
    assert arrivals[..0] == [];
    for k := 0 to |scan.points|
      invariant k <= |arrivals|
      invariant started == Points(scan.points) - Heard(scan, arrivals[..k])
      invariant mounts == MountsOf(scan, arrivals[..k]) && unanswered == []
    {
      if k == |arrivals| {
        assert arrivals[..k] == arrivals;
        unanswered := ListPoints(started);
        return;
      }
      var i := arrivals[k];
      assert arrivals[..k + 1] == arrivals[..k] + [i];
      HeardMore(scan, arrivals[..k], i);
      MountsAppend(scan, arrivals[..k], [i]);
      MountsOfOne(scan, i);
      started := started - {scan.points[i]};
      if scan.answer(i).Some? {
        mounts := mounts + [scan.answer(i).value];
      }
    }
    assert arrivals[..|scan.points|] == arrivals;
    mounts := Sort(ByPoint, mounts);
  }

  lemma NothingHeard(scan: Scan)
    ensures MountsOf(scan, []) == [] && Heard(scan, []) == {}
  {
  }

  method ListPoints(points: set<bytes>) returns (r: seq<bytes>)
    ensures multiset(r) == multiset(points)
  {
    r := [];
    var left := points;
    while left != {}
      invariant left <= points && multiset(r) + multiset(left) == multiset(points)
      decreases |left|
    {
      var p :| p in left;
      assert left == left - {p} + {p};
      r := r + [p];
      left := left - {p};
    }
  }

  /** What the machine returns is what the collector's loop makes of the answers received. */
  lemma MachineIsTheLoop(scan: Scan, moves: seq<Move>)
    requires Run(scan, moves).phase != Waiting
    ensures var st := Run(scan, moves);
            var n := |st.received|;
            Distinct(st.received) && n <= |scan.points| && (forall i | 0 <= i < n :: st.received[i] < |scan.points|) &&
            (n == |scan.points| <==> st.phase == AllIn) &&
            Result(st) == (if n == |scan.points| then Sort(ByPoint, MountsOf(scan, st.received))
                           else MountsOf(scan, st.received)) &&
            st.started == Points(scan.points) - Heard(scan, st.received)
  {
    hide Run, MountsOf, Heard;
    RunSound(scan, moves);
    var st := Run(scan, moves);
    var out := st.received + st.channel;
    forall k | 0 <= k < |st.received| ensures st.received[k] < |scan.points| {
      assert out[k] in out;
    }
    assert Distinct(st.received) by {
      assert forall k | 0 <= k < |st.received| :: out[k] == st.received[k];
    }
    DistinctBelow(st.received, |scan.points|);
  }

  // ---- the blocklist --------------------------------------------------------------------------------------------

  type Time = int

  const RETRY: nat := 600_000_000_000

  type Blocks = map<bytes, Time>

  predicate IsBlocked(until: Blocks, point: bytes, now: Time) {
    point in until && now <= until[point]
  }

  /** Looking up a point forgets a block that has run out. */
  function Looked(until: Blocks, point: bytes, now: Time): Blocks {
    if IsBlocked(until, point, now) then until else until - {point}
  }

  function LookedAll(until: Blocks, points: seq<bytes>, now: Time): Blocks {
    if points == [] then until else Looked(LookedAll(until, points[..|points| - 1], now), points[|points| - 1], now)
  }

  /** The points to probe now. */
  function Live(until: Blocks, points: seq<bytes>, now: Time): seq<bytes> {
    if points == [] then []
    else
      var p := points[|points| - 1];
      Live(until, points[..|points| - 1], now) + if IsBlocked(until, p, now) then [] else [p]
  }

  function BlockedAll(until: Blocks, points: seq<bytes>, now: Time): Blocks {
    if points == [] then until else BlockedAll(until, points[..|points| - 1], now)[points[|points| - 1] := now + RETRY]
  }

  class Blocklist {
    var until: Blocks

    constructor ()
      ensures until == map[]
    {
      until := map[];
    }

    method Blocked(point: bytes, now: Time) returns (r: bool)
      modifies this
      ensures r == IsBlocked(old(until), point, now) && until == Looked(old(until), point, now)
    {
      if point !in until {
        assert until - {point} == until;
        return false;
      }
      if now > until[point] {
        until := until - {point};
        return false;
      }
      r := true;
    }

    method Block(point: bytes, now: Time)
      modifies this
      ensures until == old(until)[point := now + RETRY]
    {
      until := until[point := now + RETRY];
    }

    /** The mounts worth probing: not those that were silent lately. */
    method LiveMounts(points: seq<bytes>, now: Time) returns (live: seq<bytes>)
      modifies this
      ensures live == Live(old(until), points, now) && until == LookedAll(old(until), points, now)
    {
      live := [];
      for k := 0 to |points|
        invariant live == Live(old(until), points[..k], now) && until == LookedAll(old(until), points[..k], now)
      {
        assert points[..k + 1][..k] == points[..k];
        LookedSame(old(until), points[..k], points[k], now);
        var blocked := Blocked(points[k], now);
        if !blocked {
          live := live + [points[k]];
        }
      }
      assert points[..|points|] == points;
    }

    method BlockMounts(unanswered: seq<bytes>, now: Time)
      modifies this
      ensures until == BlockedAll(old(until), unanswered, now)
    {
      for k := 0 to |unanswered|
        invariant until == BlockedAll(old(until), unanswered[..k], now)
      {
        assert unanswered[..k + 1][..k] == unanswered[..k];
        Block(unanswered[k], now);
      }
      assert unanswered[..|unanswered|] == unanswered;
    }

    /** One collection: what is blocked is not probed, and what stays silent is blocked. */
    method ReadMounts(c: Cycle) returns (live: seq<bytes>)
      modifies this
      ensures live == Live(old(until), c.points, c.now)
      ensures until == BlockedAll(LookedAll(old(until), c.points, c.now), c.silent, c.later)
    {
      live := LiveMounts(c.points, c.now);
      BlockMounts(c.silent, c.later);
    }

    /** Any number of collections, each from what the ones before it blocked. */
    method ReadAll(cycles: seq<Cycle>) returns (live: seq<seq<bytes>>)
      modifies this
      ensures until == Blocking(old(until), cycles) && |live| == |cycles|
      ensures forall j | 0 <= j < |cycles| ::
                live[j] == Live(Blocking(old(until), cycles[..j]), cycles[j].points, cycles[j].now)
      ensures old(until) == map[] && InOrder(cycles) ==>
                forall j, p | 0 <= j < |cycles| && p in cycles[j].points ::
                  p in live[j] <==> Rested(cycles[..j], p, cycles[j].now)
    {
      hide Live, BlockedAll, LookedAll, Rested, InOrder;
      live := [];
      assert cycles[..0] == [];
      for k := 0 to |cycles|
        invariant until == Blocking(old(until), cycles[..k]) && |live| == k
        invariant forall j | 0 <= j < k ::
                    live[j] == Live(Blocking(old(until), cycles[..j]), cycles[j].points, cycles[j].now)
      {
        assert cycles[..k + 1][..k] == cycles[..k];
        var probed := ReadMounts(cycles[k]);
        live := live + [probed];
      }
      assert cycles[..|cycles|] == cycles;
      if old(until) == map[] && InOrder(cycles) {
        forall j, p | 0 <= j < |cycles| && p in cycles[j].points
          ensures p in live[j] <==> Rested(cycles[..j], p, cycles[j].now)
        {
          ProbedIff(cycles, j, p);
        }
      }
    }
  }

  /** Looking changes no answer at the same moment. */
  lemma {:induction false} LookedSame(until: Blocks, points: seq<bytes>, p: bytes, now: Time)
    ensures IsBlocked(LookedAll(until, points, now), p, now) == IsBlocked(until, p, now)
    ensures IsBlocked(until, p, now) ==> LookedAll(until, points, now)[p] == until[p]
  {
    if points != [] {
      LookedSame(until, points[..|points| - 1], p, now);
      LookedSame(until, points[..|points| - 1], points[|points| - 1], now);
    }
  }

  /** Blocks that have run out are forgotten, so the list does not outgrow the mounts that were silent lately. */
  lemma {:induction false} LookedForgets(until: Blocks, points: seq<bytes>, p: bytes, now: Time)
    ensures p in LookedAll(until, points, now) ==>
              p in until && LookedAll(until, points, now)[p] == until[p] && (p in points ==> now <= until[p])
  {
    if points != [] {
      var front, last := points[..|points| - 1], points[|points| - 1];
      LookedForgets(until, front, p, now);
      assert points == front + [last];
    }
  }

  /** One collection: when it looks, what is mounted, which probed points stay silent, and when it gives up on them. */
  datatype Cycle = Cycle(now: Time, points: seq<bytes>, silent: seq<bytes>, later: Time)

  function Blocking(until: Blocks, cycles: seq<Cycle>): Blocks {
    if cycles == [] then until
    else
      var c := cycles[|cycles| - 1];
      BlockedAll(LookedAll(Blocking(until, cycles[..|cycles| - 1]), c.points, c.now), c.silent, c.later)
  }

  ghost predicate InOrder(cycles: seq<Cycle>) {
    (forall i | 0 <= i < |cycles| :: cycles[i].now <= cycles[i].later) &&
    forall i, j | 0 <= i < j < |cycles| :: cycles[i].later <= cycles[j].now
  }

  lemma {:induction false} BlockedLater(until: Blocks, silent: seq<bytes>, p: bytes, now: Time)
    ensures p in silent ==> p in BlockedAll(until, silent, now) && BlockedAll(until, silent, now)[p] == now + RETRY
    ensures p !in silent ==> (p in BlockedAll(until, silent, now) <==> p in until)
    ensures p !in silent && p in until ==> BlockedAll(until, silent, now)[p] == until[p]
  {
    if silent != [] {
      BlockedLater(until, silent[..|silent| - 1], p, now);
      assert silent == silent[..|silent| - 1] + [silent[|silent| - 1]];
    }
  }

  /**
   A silent mount rests: after a cycle that gave up on it, it is still blocked for ten minutes, whatever the cycles in
   between found.
   */
  lemma {:induction false} SilentMountsRest(until: Blocks, cycles: seq<Cycle>, i: nat, p: bytes, now: Time)
    requires InOrder(cycles) && i < |cycles| && p in cycles[i].silent
    requires cycles[|cycles| - 1].later <= now <= cycles[i].later + RETRY
    ensures IsBlocked(Blocking(until, cycles), p, now) && Blocking(until, cycles)[p] >= cycles[i].later + RETRY
    decreases |cycles|
  {
    var n := |cycles| - 1;
    var c, front := cycles[n], cycles[..n];
    var looked := LookedAll(Blocking(until, front), c.points, c.now);
    BlockedLater(looked, c.silent, p, c.later);
    if p !in c.silent {
      SilentMountsRest(until, front, i, p, c.now);
      LookedSame(Blocking(until, front), c.points, p, c.now);
    }
  }

  lemma {:induction false} LiveIsUnblocked(until: Blocks, points: seq<bytes>, p: bytes, now: Time)
    ensures p in Live(until, points, now) <==> p in points && !IsBlocked(until, p, now)
  {
    if points != [] {
      LiveIsUnblocked(until, points[..|points| - 1], p, now);
      assert points == points[..|points| - 1] + [points[|points| - 1]];
    }
  }

  /** So no collection probes a mount within ten minutes of one that gave up on it. */
  lemma NotProbedAgain(until: Blocks, cycles: seq<Cycle>, i: nat, j: nat, p: bytes)
    requires InOrder(cycles) && i < j < |cycles| && p in cycles[i].silent && cycles[j].now <= cycles[i].later + RETRY
    ensures p !in Live(Blocking(until, cycles[..j]), cycles[j].points, cycles[j].now)
  {
    SilentMountsRest(until, cycles[..j], i, p, cycles[j].now);
    LiveIsUnblocked(Blocking(until, cycles[..j]), cycles[j].points, p, cycles[j].now);
  }

  /** No collection gave up on the mount in the ten minutes before. */
  ghost predicate Rested(cycles: seq<Cycle>, p: bytes, now: Time) {
    forall i | 0 <= i < |cycles| && p in cycles[i].silent :: now > cycles[i].later + 600_000_000_000
  }

  lemma RestedSnoc(front: seq<Cycle>, c: Cycle, p: bytes, now: Time)
    ensures Rested(front + [c], p, now) <==>
            Rested(front, p, now) && (p in c.silent ==> now > c.later + 600_000_000_000)
  {
    var all := front + [c];
    assert all[|front|] == c;
    assert forall i | 0 <= i < |front| :: all[i] == front[i];
  }

  /** Forgetting what has run out changes no answer then or later. */
  lemma {:induction false} LookedLater(until: Blocks, points: seq<bytes>, p: bytes, earlier: Time, now: Time)
    requires earlier <= now
    ensures IsBlocked(LookedAll(until, points, earlier), p, now) == IsBlocked(until, p, now)
  {
    if points != [] {
      LookedLater(until, points[..|points| - 1], p, earlier, now);
    }
  }

  /** From an empty list on, a mount is blocked at a later moment if and only if it has not rested. */
  lemma {:induction false} BlockedIff(cycles: seq<Cycle>, p: bytes, now: Time)
    requires InOrder(cycles) && (cycles != [] ==> cycles[|cycles| - 1].later <= now)
    ensures IsBlocked(Blocking(map[], cycles), p, now) <==> !Rested(cycles, p, now)
    decreases |cycles|
  {
    if cycles != [] {
      var n := |cycles| - 1;
      var c, front := cycles[n], cycles[..n];
      var before := Blocking(map[], front);
      var looked := LookedAll(before, c.points, c.now);
      assert cycles == front + [c];
      RestedSnoc(front, c, p, now);
      BlockedLater(looked, c.silent, p, c.later);
      LookedLater(before, c.points, p, c.now, now);
      BlockedIff(front, p, now);
      if p in c.silent && !Rested(front, p, now) {
        var i :| 0 <= i < |front| && p in front[i].silent && now <= front[i].later + 600_000_000_000;
        assert cycles[i].later <= c.now;
      }
    }
  }

  lemma {:induction false} LiveIsKept(until: Blocks, points: seq<bytes>, now: Time, keep: bytes -> bool)
    requires forall p | p in points :: keep(p) <==> !IsBlocked(until, p, now)
    ensures Live(until, points, now) == Kept(keep, points)
  {
    if points != [] {
      var front, p := points[..|points| - 1], points[|points| - 1];
      assert points == front + [p];
      LiveIsKept(until, front, now, keep);
      KeptAppend(keep, front, [p]);
    }
  }

  lemma ProbedIff(cycles: seq<Cycle>, j: nat, p: bytes)
    requires InOrder(cycles) && j < |cycles| && p in cycles[j].points
    ensures p in Live(Blocking(map[], cycles[..j]), cycles[j].points, cycles[j].now)
       <==> Rested(cycles[..j], p, cycles[j].now)
  {
    hide Rested, Live, IsBlocked, Blocking;
    BlockedIff(cycles[..j], p, cycles[j].now);
    LiveIsUnblocked(Blocking(map[], cycles[..j]), cycles[j].points, p, cycles[j].now);
  }

  /**
   From an empty list on, whatever the collections find: each probes exactly the mounts that have rested, in order. A
   mount that was silent is left alone for ten minutes, and is probed again after them.
   */
  lemma ProbedWhenRested(cycles: seq<Cycle>, j: nat, keep: bytes -> bool)
    requires InOrder(cycles) && j < |cycles|
    requires forall p | p in cycles[j].points :: keep(p) <==> Rested(cycles[..j], p, cycles[j].now)
    ensures Live(Blocking(map[], cycles[..j]), cycles[j].points, cycles[j].now) == Kept(keep, cycles[j].points)
  {
    hide Rested, Live, IsBlocked, Blocking;
    forall p | p in cycles[j].points
      ensures keep(p) <==> !IsBlocked(Blocking(map[], cycles[..j]), p, cycles[j].now)
    {
      BlockedIff(cycles[..j], p, cycles[j].now);
    }
    LiveIsKept(Blocking(map[], cycles[..j]), cycles[j].points, cycles[j].now, keep);
  }

  /** How many collections probed this mount in vain: each leaves one probe stuck on it. */
  function Stuck(until: Blocks, cycles: seq<Cycle>, p: bytes): nat {
    if cycles == [] then 0
    else
      var c, front := cycles[|cycles| - 1], cycles[..|cycles| - 1];
      Stuck(until, front, p) + if p in Live(Blocking(until, front), c.points, c.now) && p in c.silent then 1 else 0
  }

  /** The last collection that probed the mount in vain comes ten minutes after the first for each of them but one. */
  lemma {:induction false} LastStuck(until: Blocks, cycles: seq<Cycle>, p: bytes) returns (i: nat)
    requires InOrder(cycles) && Stuck(until, cycles, p) > 0
    ensures i < |cycles| && p in cycles[i].silent
    ensures (Stuck(until, cycles, p) - 1) * RETRY <= cycles[i].later - cycles[0].later
  {
    hide Live, Blocking;
    var n := |cycles| - 1;
    var c, front := cycles[n], cycles[..n];
    var before := Stuck(until, front, p);
    var counted := p in Live(Blocking(until, front), c.points, c.now) && p in c.silent;
    if before == 0 {
      i := n;
    } else {
      i := LastStuck(until, front, p);
      if counted {
        if c.now <= cycles[i].later + RETRY {
          NotProbedAgain(until, cycles, i, n, p);
        }
        i := n;
      }
    }
  }

  /**
   Probes stuck on a silent mount grow by one in ten minutes at most: over any stretch of collections, from any blocks,
   no more are in vain than there are ten minutes between the first end and the last, and one.
   */
  lemma StuckProbesAreFew(until: Blocks, cycles: seq<Cycle>, p: bytes)
    requires InOrder(cycles) && cycles != []
    ensures Stuck(until, cycles, p) <= (cycles[|cycles| - 1].later - cycles[0].later) / RETRY + 1
  {
    hide Stuck;
    if Stuck(until, cycles, p) > 0 {
      var i := LastStuck(until, cycles, p);
      assert i < |cycles| - 1 ==> cycles[i].later <= cycles[|cycles| - 1].now;
    }
  }
}
