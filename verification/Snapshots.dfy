/**
 internal/agent/batch.go: of the readings in one batch, only the newest keeps what describes the present moment. The
 server reads those parts from the reading with the greatest timestamp, so it must read the same before and after.
 */
module Snapshots {
  import opened Options

  type Value = seq<char>

  /** A reading: an object of fields, or text that is none. */
  datatype Sample = Object(fields: map<string, Value>) | Unparsed(text: string)

  /** The moment a `collected_at` value stands for; None when it is no time, or the zero time. */
  type Clock = Value -> Option<int>

  const STAMP: string := "collected_at"
  const SNAPSHOT: seq<string> := ["services", "containers", "processes", "system", "renewers", "listening", "cron"]

  lemma StampIsNoSnapshot()
    ensures STAMP !in SNAPSHOT
  {
    forall i | 0 <= i < |SNAPSHOT| ensures SNAPSHOT[i] != STAMP {
      assert |SNAPSHOT[i]| != |STAMP|;
    }
  }

  function StampOf(s: Sample, clock: Clock): Option<int> {
    if s.Object? && STAMP in s.fields then clock(s.fields[STAMP]) else None
  }

  /** A reading without what describes the present moment: its measurements. */
  function Measurements(s: Sample): Sample {
    match s
    case Object(fields) => Object(map k | k in fields && k !in SNAPSHOT :: fields[k])
    case Unparsed(_) => s
  }

  /** What the server takes from one reading as the present moment. */
  function Present(s: Sample): map<string, Value> {
    match s
    case Object(fields) => map k | k in fields && k in SNAPSHOT :: fields[k]
    case Unparsed(_) => map[]
  }

  /** The reading with the greatest timestamp, the later of two that tie; without any timestamp, the last reading. */
  ghost predicate IsNewest(samples: seq<Sample>, clock: Clock, k: int) {
    if forall i | 0 <= i < |samples| :: StampOf(samples[i], clock).None? then k == |samples| - 1
    else
      0 <= k < |samples| && StampOf(samples[k], clock).Some? &&
      forall i | 0 <= i < |samples| && i != k && StampOf(samples[i], clock).Some? ::
        var x, y := StampOf(samples[i], clock).value, StampOf(samples[k], clock).value;
        x < y || (x == y && i < k)
  }

  lemma NewestIsOne(samples: seq<Sample>, clock: Clock, j: int, k: int)
    requires IsNewest(samples, clock, j) && IsNewest(samples, clock, k)
    ensures j == k
  {
  }

  method NewestIndex(samples: seq<Sample>, clock: Clock) returns (keep: int)
    ensures IsNewest(samples, clock, keep)
  {
    keep := |samples| - 1;
    var best, found := 0, false;
    for i := 0 to |samples|
      invariant !found ==> keep == |samples| - 1 && forall j | 0 <= j < i :: StampOf(samples[j], clock).None?
      invariant found ==> 0 <= keep < i && StampOf(samples[keep], clock) == Some(best)
      invariant found ==> forall j | 0 <= j < i && j != keep && StampOf(samples[j], clock).Some? ::
        StampOf(samples[j], clock).value < best || (StampOf(samples[j], clock).value == best && j < keep)
    {
      var stamp := StampOf(samples[i], clock);
      if stamp.Some? && (!found || best <= stamp.value) {
        best, keep, found := stamp.value, i, true;
      }
    }
  }

  /** What trimming makes of a batch: the newest reading as it was, of every other one its measurements. */
  ghost predicate IsTrimOf(out: seq<Sample>, samples: seq<Sample>, clock: Clock) {
    |out| == |samples| &&
    (|samples| < 2 ==> out == samples) &&
    (|samples| >= 2 ==> forall i | 0 <= i < |samples| ::
      out[i] == if IsNewest(samples, clock, i) then samples[i] else Measurements(samples[i]))
  }

  function Minus(fields: map<string, Value>, keys: seq<string>): map<string, Value> {
    map k | k in fields && k !in keys :: fields[k]
  }

  method TrimSnapshots(samples: seq<Sample>, clock: Clock) returns (out: seq<Sample>)
    ensures IsTrimOf(out, samples, clock)
  {
    out := samples;
    if |samples| < 2 {
      return;
    }
    var keep := NewestIndex(samples, clock);
    forall i | IsNewest(samples, clock, i) ensures i == keep {
      NewestIsOne(samples, clock, i, keep);
    }
    for i := 0 to |out|
      invariant |out| == |samples|
      invariant forall j | i <= j < |samples| :: out[j] == samples[j]
      invariant forall j | 0 <= j < i :: out[j] == if j == keep then samples[j] else Measurements(samples[j])
    {
      if i != keep && out[i].Object? {
        var fields, trimmed := out[i].fields, false;
        for j := 0 to |SNAPSHOT|
          invariant fields == Minus(samples[i].fields, SNAPSHOT[..j])
          invariant !trimmed ==> fields == samples[i].fields
        {
          assert SNAPSHOT[..j + 1] == SNAPSHOT[..j] + [SNAPSHOT[j]];
          if SNAPSHOT[j] in fields {
            fields, trimmed := fields - {SNAPSHOT[j]}, true;
          }
        }
        assert SNAPSHOT[..|SNAPSHOT|] == SNAPSHOT;
        assert Object(fields) == Measurements(samples[i]);
        if trimmed {
          out := out[i := Object(fields)];
        }
      }
    }
  }

  lemma MeasurementsKeepStamp(s: Sample, clock: Clock)
    ensures StampOf(Measurements(s), clock) == StampOf(s, clock)
  {
    StampIsNoSnapshot();
  }

  /**
   Trimming loses nothing the server reads: the same reading is the newest, what it says of the present moment is
   unchanged, and every reading keeps its place and all its measurements. Trimming again changes nothing.
   */
  lemma TrimIsInvisible(samples: seq<Sample>, out: seq<Sample>, clock: Clock, k: int)
    requires IsTrimOf(out, samples, clock)
    ensures IsNewest(out, clock, k) <==> IsNewest(samples, clock, k)
    ensures IsNewest(samples, clock, k) && samples != [] ==> out[k] == samples[k]
    ensures forall i | 0 <= i < |samples| :: Measurements(out[i]) == Measurements(samples[i])
    ensures IsTrimOf(out, out, clock)
  {
    hide StampOf, Measurements;
    forall s: Sample ensures StampOf(Measurements(s), clock) == StampOf(s, clock) &&
      Measurements(Measurements(s)) == Measurements(s) {
      MeasurementsKeepStamp(s, clock);
      MeasurementsTwice(s);
    }
    forall i | 0 <= i < |samples| ensures StampOf(out[i], clock) == StampOf(samples[i], clock) {
    }
    SameStamps(samples, out, clock, k);
    forall i ensures IsNewest(out, clock, i) <==> IsNewest(samples, clock, i) {
      SameStamps(samples, out, clock, i);
    }
  }

  lemma MeasurementsTwice(s: Sample)
    ensures Measurements(Measurements(s)) == Measurements(s)
  {
  }

  lemma SameStamps(samples: seq<Sample>, out: seq<Sample>, clock: Clock, k: int)
    requires |out| == |samples| && forall i | 0 <= i < |samples| :: StampOf(out[i], clock) == StampOf(samples[i], clock)
    ensures IsNewest(out, clock, k) <==> IsNewest(samples, clock, k)
  {
    hide StampOf;
  }

  /** In a batch of two or more, nothing of the present moment is left outside the newest reading. */
  lemma OnlyNewestSpeaksOfNow(samples: seq<Sample>, out: seq<Sample>, clock: Clock, i: nat)
    requires IsTrimOf(out, samples, clock) && |samples| >= 2 && i < |samples|
    ensures Present(out[i]) == if IsNewest(samples, clock, i) then Present(samples[i]) else map[]
  {
  }

  /** Exactly the seven fields of the present moment go, and from no reading but the older ones of a batch. */
  lemma OnlySnapshotsGo(samples: seq<Sample>, out: seq<Sample>, clock: Clock, i: nat, k: string)
    requires IsTrimOf(out, samples, clock) && i < |samples|
    ensures samples[i].Unparsed? ==> out[i] == samples[i]
    ensures samples[i].Object? ==>
              out[i].Object? &&
              (k in out[i].fields <==>
                 k in samples[i].fields &&
                 (|samples| < 2 || IsNewest(samples, clock, i) ||
                  k !in {"services", "containers", "processes", "system", "renewers", "listening", "cron"})) &&
              (k in out[i].fields ==> out[i].fields[k] == samples[i].fields[k])
  {
    assert k in SNAPSHOT <==> k in {"services", "containers", "processes", "system", "renewers", "listening", "cron"}
    by {
      SevenNames(k);
    }
  }

  lemma SevenNames(k: string)
    ensures k in SNAPSHOT <==> k in {"services", "containers", "processes", "system", "renewers", "listening", "cron"}
  {
    assert SNAPSHOT[0] == "services" && SNAPSHOT[1] == "containers" && SNAPSHOT[2] == "processes";
    assert SNAPSHOT[3] == "system" && SNAPSHOT[4] == "renewers" && SNAPSHOT[5] == "listening" && SNAPSHOT[6] == "cron";
  }

  /** In particular every reading keeps its mounts, which are a measurement too. */
  lemma MountsStay(samples: seq<Sample>, out: seq<Sample>, clock: Clock, i: nat)
    requires IsTrimOf(out, samples, clock) && i < |samples| && samples[i].Object? && "mounts" in samples[i].fields
    ensures out[i].Object? && "mounts" in out[i].fields && out[i].fields["mounts"] == samples[i].fields["mounts"]
  {
    NotMounts();
    OnlySnapshotsGo(samples, out, clock, i, "mounts");
  }

  lemma NotMounts()
    ensures "mounts" !in {"services", "containers", "processes", "system", "renewers", "listening", "cron"}
  {
    assert |"mounts"| == |"system"| && "mounts"[0] != "system"[0];
  }

  /** The newest reading has the greatest time under `collected_at`, if any reading has one there. */
  lemma NewestIsLatest(samples: seq<Sample>, clock: Clock, k: int, i: nat)
    requires IsNewest(samples, clock, k) && i < |samples|
    requires samples[i].Object? && "collected_at" in samples[i].fields && clock(samples[i].fields["collected_at"]).Some?
    ensures 0 <= k < |samples| && samples[k].Object? && "collected_at" in samples[k].fields
    ensures var x, y := clock(samples[i].fields["collected_at"]), clock(samples[k].fields["collected_at"]);
            y.Some? && x.value <= y.value && (x == y ==> i <= k)
  {
    assert StampOf(samples[i], clock).Some?;
  }
}
