/**
 How long each pass of the loop waits, said of what happened in the passes before it: the configured interval, the
 server's pace in force and the hold-off earned by failures, whichever is longest.
 */
module DeliveryWaits {
  import opened Sequences
  import opened Spool
  import opened Delivery

  /**
   How the push at the end of a tick went: it had nothing to send; it worked, and the server named a pace; the server
   said that it will not take readings; or it failed in any other way.
   */
  datatype Outcome = Idle | Worked(pace: int) | Denied | Failed

  ghost function OutcomeOf(config: Config, a: Agent, t: Tick): Outcome {
    var taken := TakenUp(Collect(config, a, t).0.dir, config.valid, MAX_BATCH, t.listed, t.unreadable);
    if !taken.ok then Failed
    else if taken.entries == [] then Idle
    else if t.answer.Accepted? then Worked(t.answer.minInterval)
    else if t.answer.reason.OtherReason? then Failed
    else Denied
  }

  /** The outcomes of a run, one for each tick. */
  ghost function Outcomes(config: Config, a: Agent, ticks: seq<Tick>): (r: seq<Outcome>)
    ensures |r| == |ticks|
    decreases |ticks|
  {
    if ticks == [] then []
    else [OutcomeOf(config, a, ticks[0])] + Outcomes(config, Step(config, a, ticks[0]).0, ticks[1..])
  }

  /** How many plain failures these end with. */
  function FailuresAtEnd(os: seq<Outcome>): (k: nat)
    ensures k <= |os| && (forall i | |os| - k <= i < |os| :: os[i].Failed?) && (k < |os| ==> !os[|os| - k - 1].Failed?)
  {
    if os != [] && os[|os| - 1].Failed? then 1 + FailuresAtEnd(os[..|os| - 1]) else 0
  }

  /** Thirty seconds, doubled with each further failure, and never more than fifteen minutes. */
  function Doubled(k: nat): nat
    requires k > 0
  {
    Least(900 * SECOND, 30 * SECOND * Power2(k - 1))
  }

  function Power2(k: nat): nat {
    if k == 0 then 1 else 2 * Power2(k - 1)
  }

  /**
   What is held off after these outcomes: nothing unless the last failed; fifteen minutes from a denial on, through any
   failures after it; and otherwise the doubling with the failures in a row.
   */
  function HoldOff(os: seq<Outcome>): nat {
    var k := FailuresAtEnd(os);
    if k < |os| && os[|os| - k - 1].Denied? then 900 * SECOND
    else if k == 0 then 0
    else Doubled(k)
  }

  /** A pace the server may set: slower than configured, and at most an hour. */
  predicate InRange(config: Config, pace: int) {
    config.interval < pace <= 3600 * SECOND
  }

  /** The pace in force: the last one in range that a push was answered with, or the configured interval. */
  function PaceInForce(config: Config, os: seq<Outcome>): int {
    if os == [] then config.interval
    else
      var o := os[|os| - 1];
      if o.Worked? && InRange(config, o.pace) then o.pace else PaceInForce(config, os[..|os| - 1])
  }

  function Largest(a: int, b: int, c: int): (r: int)
    ensures r >= a && r >= b && r >= c && (r == a || r == b || r == c)
  {
    if a >= b && a >= c then a else if b >= c then b else c
  }

  /** What the agent holds between ticks, by the outcomes so far. */
  ghost predicate Follows(config: Config, a: Agent, os: seq<Outcome>) {
    a.backoff == HoldOff(os) &&
    PaceInForce(config, os) == (if a.serverInterval > config.interval then a.serverInterval else config.interval)
  }

  lemma HoldOffStep(os: seq<Outcome>, o: Outcome)
    ensures HoldOff(os + [o]) ==
              if o.Denied? then MAX_BACKOFF else if o.Failed? then NextBackoff(HoldOff(os)) else 0
  {
    var all := os + [o];
    assert all[..|all| - 1] == os;
    if o.Failed? {
      var k := FailuresAtEnd(os);
      assert FailuresAtEnd(all) == k + 1;
      assert k < |os| ==> all[|all| - (k + 1) - 1] == os[|os| - k - 1];
      if k > 0 {
        assert Power2(k) == 2 * Power2(k - 1);
        assert Power2(k - 1) > 0 by { Power2Positive(k - 1); }
      } else {
        assert Power2(0) == 1;
      }
    }
  }

  lemma {:induction false} Power2Positive(k: nat)
    ensures Power2(k) > 0
  {
    if k > 0 {
      Power2Positive(k - 1);
    }
  }

  lemma PaceStep(config: Config, os: seq<Outcome>, o: Outcome)
    ensures PaceInForce(config, os + [o])
         == if o.Worked? && InRange(config, o.pace) then o.pace else PaceInForce(config, os)
  {
    assert (os + [o])[..|os|] == os;
  }

  /** One tick follows its outcome. */
  lemma StepFollows(config: Config, a: Agent, t: Tick, os: seq<Outcome>)
    requires Follows(config, a, os)
    ensures Follows(config, Step(config, a, t).0, os + [OutcomeOf(config, a, t)])
  {
    hide TakenUp, Without, EntriesAt, NextBackoff, Added, Excess, HoldOff, PaceInForce;
    HoldOffStep(os, OutcomeOf(config, a, t));
    PaceStep(config, os, OutcomeOf(config, a, t));
  }

  lemma {:induction false} WaitsFollow(config: Config, a: Agent, ticks: seq<Tick>, os: seq<Outcome>, i: nat)
    requires Follows(config, a, os) && i < |ticks|
    ensures |Run(config, a, ticks).2| == |ticks|
    ensures var past := os + Outcomes(config, a, ticks)[..i];
            Run(config, a, ticks).2[i] == Largest(config.interval, PaceInForce(config, past), HoldOff(past))
    decreases |ticks|
  {
    hide Step, Collect, OutcomeOf, Follows, HoldOff, PaceInForce;
    WaitsAreThere(config, a, ticks);
    if i == 0 {
      assert os + Outcomes(config, a, ticks)[..0] == os;
      FirstWait(config, a, ticks[0], os);
    } else {
      var b, o := Step(config, a, ticks[0]).0, OutcomeOf(config, a, ticks[0]);
      StepFollows(config, a, ticks[0], os);
      WaitsFollow(config, b, ticks[1..], os + [o], i - 1);
      assert os + Outcomes(config, a, ticks)[..i] == os + [o] + Outcomes(config, b, ticks[1..])[..i - 1];
    }
  }

  lemma {:induction false} WaitsAreThere(config: Config, a: Agent, ticks: seq<Tick>)
    ensures |Run(config, a, ticks).2| == |ticks|
    decreases |ticks|
  {
    hide Step, Collect;
    if ticks != [] {
      WaitsAreThere(config, Step(config, a, ticks[0]).0, ticks[1..]);
    }
  }

  lemma FirstWait(config: Config, a: Agent, t: Tick, os: seq<Outcome>)
    requires Follows(config, a, os)
    ensures Wait(config, Collect(config, a, t).0) == Largest(config.interval, PaceInForce(config, os), HoldOff(os))
  {
    hide HoldOff, PaceInForce, Added, Excess, EntriesAt;
  }

  /**
   Over every run from a start, whatever is in the spool: each wait is the longest of the configured interval, the
   server's pace in force and the hold-off earned by the ticks before.
   */
  lemma EachWait(config: Config, a: Agent, ticks: seq<Tick>, i: nat)
    requires a.backoff == 0 && a.serverInterval == 0 && i < |ticks|
    ensures |Run(config, a, ticks).2| == |ticks|
    ensures var past := Outcomes(config, a, ticks)[..i];
            Run(config, a, ticks).2[i] == Largest(config.interval, PaceInForce(config, past), HoldOff(past))
  {
    hide Run, Outcomes;
    assert PaceInForce(config, []) == config.interval && HoldOff([]) == 0;
    WaitsFollow(config, a, ticks, [], i);
    assert [] + Outcomes(config, a, ticks)[..i] == Outcomes(config, a, ticks)[..i];
  }
}
