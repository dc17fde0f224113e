/**
 Whether the SSH report can be believed, whatever the collector's limits passed over in silence: files past the
 hundredth, and the rest of files longer than it reads. The truth agrees with what was read of the files that were
 opened, and is free in everything else.
 */
module SshLimits {
  import opened Options
  import opened SshConfig
  import opened SshSoundness

  /** What was read of a file; a silent cut is the end of what is known. */
  function AsRead(o: Opened): Opened {
    if o.Cut? then Torn(o.lines) else o
  }

  /** The disk as far as it is known from these files. */
  function Remember(d: Disk, touched: set<Path>): Disk {
    d.(files := map p | p in d.files && p in touched :: AsRead(d.files[p]))
  }

  /** The state the report is made from. */
  function Final(d: Disk): State {
    RunFile(d, LIMIT, MAIN, false, 0, EMPTY)
  }

  function WasRead(d: Disk): Disk {
    Remember(d, Final(d).touched)
  }

  /** What a collector without limits knows of what was read. */
  function Ideal(d: Disk): State {
    RunFile(WasRead(d), NO_LIMIT, MAIN, false, 0, EMPTY)
  }

  /** A configuration that agrees with what was read. */
  ghost predicate Possible(d: Disk, truth: Truth) {
    Completes(WasRead(d), truth)
  }

  ghost function Says(d: Disk, truth: Truth): seq<Scoped> {
    Configuration(WasRead(d), truth)
  }

  lemma StatesValid(d: Disk)
    ensures Valid(Final(d)) && Valid(Ideal(d)) && NoCuts(WasRead(d))
  {
    FileValid(d, LIMIT, MAIN, false, 0, EMPTY);
    FileValid(WasRead(d), NO_LIMIT, MAIN, false, 0, EMPTY);
  }

  lemma IdealSound(d: Disk, truth: Truth, f: Option<Filler>)
    requires Possible(d, truth) && Fills(WasRead(d), truth, f)
    ensures Sound(Ideal(d), Says(d, truth), f)
  {
    hide Sound, Fills, Configuration, RunFile, Completes;
    StatesValid(d);
    FinalSound(WasRead(d), truth, f);
  }

  lemma NoFiller(d: Disk, truth: Truth)
    ensures Fills(d, truth, None)
  {
  }

  lemma Filled(d: Disk, f: Filler) returns (truth: Truth)
    requires Fit(f)
    ensures Possible(d, truth) && Sound(Ideal(d), Says(d, truth), Some(f))
  {
    hide Sound, Fit, RunFile;
    StatesValid(d);
    truth := Filling(WasRead(d), f);
    IdealSound(d, truth, Some(f));
  }

  // ---- keywords -------------------------------------------------------------------------------------------------

  /** The answer is true of a configuration. "Unknown" claims nothing. */
  ghost predicate Holds(k: string, answer: Answer, s: seq<Scoped>)
    requires k in Defaults()
  {
    match answer
    case Known(value, at) => First(s, k).Some? && value == ValueOf(k, First(s, k).value.line.args) &&
      at == First(s, k).value.at
    case Default(value) => First(s, k) == None && value == Defaults()[k]
    case Unknown => true
  }

  /** A line that gives a keyword a value other than this one. */
  lemma OtherValue(k: string, value: string) returns (args: seq<string>)
    requires k in Defaults()
    ensures args != [] && ValueOf(k, args) != value
  {
    if value == "x" {
      args := ["y"];
      assert Lower("y") == "y";
    } else {
      args := ["x"];
      assert Lower("x") == "x";
    }
  }

  lemma IdealHolds(d: Disk, truth: Truth, k: string)
    requires k in Defaults() && Possible(d, truth)
    ensures Valid(Ideal(d)) && Holds(k, Resolve(Ideal(d), k), Says(d, truth))
  {
    hide RunFile, Defaults, First, Completes, Configuration;
    StatesValid(d);
    NoFiller(WasRead(d), truth);
    IdealSound(d, truth, None);
  }

  /** Any other answer than the ideal one, if it claims anything, is false of some possible configuration. */
  lemma OnlyIdealHolds(d: Disk, k: string, answer: Answer) returns (truth: Truth)
    requires k in Defaults() && Valid(Ideal(d)) && answer != Unknown && answer != Resolve(Ideal(d), k)
    requires answer.Default? ==> answer.value == Defaults()[k]
    ensures Possible(d, truth) && !Holds(k, answer, Says(d, truth))
  {
    hide RunFile, Defaults, First, Completes, Configuration;
    var args := OtherValue(k, if answer.Known? then answer.value else "");
    truth := Filled(d, Plain(Line(k, args)));
    IdealHolds(d, truth, k);
  }

  /**
   Exactly when the report is right about a keyword: for every disk, its answer holds of every configuration that agrees
   with what was read if and only if it says "unknown", or is what a collector without limits would answer.
   */
  lemma AnswerHoldsIff(d: Disk, k: string)
    requires k in Defaults()
    ensures Valid(Final(d)) && Valid(Ideal(d))
    ensures (forall truth | Possible(d, truth) :: Holds(k, Resolve(Final(d), k), Says(d, truth))) <==>
              Resolve(Final(d), k) == Unknown || Resolve(Final(d), k) == Resolve(Ideal(d), k)
  {
    hide RunFile, Defaults, Possible, Says;
    StatesValid(d);
    var answer := Resolve(Final(d), k);
    if answer == Resolve(Ideal(d), k) {
      forall truth | Possible(d, truth) ensures Holds(k, answer, Says(d, truth)) {
        IdealHolds(d, truth, k);
      }
    } else if answer != Unknown {
      var truth := OnlyIdealHolds(d, k, answer);
    }
  }

  /** Some possible configuration says this first of the keyword. */
  ghost predicate MayComeFirst(d: Disk, line: Line) {
    exists truth :: Possible(d, truth) && First(Says(d, truth), line.keyword).Some? &&
                    First(Says(d, truth), line.keyword).value.line == line
  }

  /** Every value this keyword could be given comes first in some possible configuration. */
  ghost predicate Undecided(d: Disk, k: string) {
    forall args: seq<string> | args != [] :: MayComeFirst(d, Line(k, args))
  }

  /** The ideal "unknown" is never said without cause, and never left out when there is one. */
  lemma UnknownIsUndecided(d: Disk, k: string)
    requires k in Defaults()
    ensures Valid(Ideal(d)) && (Resolve(Ideal(d), k) == Unknown <==> Undecided(d, k))
  {
    hide RunFile, Defaults, First, Possible, Says;
    StatesValid(d);
    var answer := Resolve(Ideal(d), k);
    if answer == Unknown {
      forall args: seq<string> | args != [] ensures MayComeFirst(d, Line(k, args)) {
        var truth := Filled(d, Plain(Line(k, args)));
      }
    } else if Undecided(d, k) {
      var args := OtherValue(k, if answer.Known? then answer.value else "");
      assert MayComeFirst(d, Line(k, args));
      var truth :| Possible(d, truth) && First(Says(d, truth), k).Some? &&
        First(Says(d, truth), k).value.line == Line(k, args);
      IdealHolds(d, truth, k);
    }
  }

  // ---- ports ----------------------------------------------------------------------------------------------------

  ghost predicate PortsHold(answer: PortAnswer, s: seq<Scoped>) {
    match answer
    case Ports(ports, at) => ports == Heard([], s) && FirstPort(s) == Some(at)
    case Standard => FirstPort(s) == None
    case UnknownPorts => true
  }

  /** What is known of the ports: all of them, or, when something was unread, those there was no more room beside. */
  function KnownPorts(st: State): PortAnswer
    requires Valid(st)
  {
    if st.blocked && st.early == MAX_PORTS && st.portsSet then Ports(st.ports, st.setIn["port"]) else ResolvePorts(st)
  }

  /** Sixteen ports leave one of seventeen out. */
  function TwoDigits(n: nat): string
    requires 10 <= n < 100
  {
    [('0' as int + n / 10) as char, ('0' as int + n % 10) as char]
  }

  lemma TwoDigitsIsPort(n: nat)
    requires 10 <= n < 100
    ensures PortOf([TwoDigits(n)]) == Some(n)
  {
    var s := TwoDigits(n);
    assert s[1..] == [s[1]] && s[1..][1..] == "";
    assert Digits(s[1..]) && Digits(s);
    assert Number(s, 0) == Number(s[1..], n / 10) == Number("", n);
  }

  lemma {:induction false} SomeOther(ports: seq<int>, n: nat) returns (m: nat)
    requires |ports| <= n && 10 + n < 100
    ensures 10 <= m <= 10 + n && m !in ports
    decreases n
  {
    if 10 + n !in ports {
      m := 10 + n;
    } else {
      var k :| 0 <= k < |ports| && ports[k] == 10 + n;
      var rest := ports[..k] + ports[k + 1..];
      m := SomeOther(rest, n - 1);
      forall i | 0 <= i < |ports| ensures ports[i] != m {
        assert i < k ==> rest[i] == ports[i];
        assert i > k ==> rest[i - 1] == ports[i];
      }
    }
  }

  lemma {:induction false} HeardWasWritten(s: seq<Scoped>, acc: seq<int>)
    requires FirstPort(s) == None
    ensures Heard(acc, s) == acc
    decreases |s|
  {
    if s != [] {
      HeardWasWritten(s[1..], acc);
    }
  }

  lemma IdealPortsHold(d: Disk, truth: Truth)
    requires Possible(d, truth)
    ensures Valid(Ideal(d)) && PortsHold(KnownPorts(Ideal(d)), Says(d, truth))
  {
    hide RunFile, Defaults, FirstPort, Heard, Completes, Configuration;
    StatesValid(d);
    NoFiller(WasRead(d), truth);
    IdealSound(d, truth, None);
    var st, s := Ideal(d), Says(d, truth);
    HeardGrows([], s);
    ValidMeans(st);
    if st.blocked && st.early == MAX_PORTS {
      assert st.ports[..MAX_PORTS] == st.ports;
    }
  }

  /** When the ports are not known, any port not yet heard may be one. */
  lemma AnyPort(d: Disk, args: seq<string>) returns (truth: Truth)
    requires PortOf(args).Some? && Valid(Ideal(d)) && KnownPorts(Ideal(d)) == UnknownPorts
    ensures Possible(d, truth) && PortOf(args).value in Heard([], Says(d, truth)) && FirstPort(Says(d, truth)).Some?
  {
    hide RunFile, Defaults, FirstPort, Heard, Possible, Says, PortOf;
    truth := Filled(d, Plain(Line("port", args)));
    var st, s := Ideal(d), Says(d, truth);
    ValidMeans(st);
    if FirstPort(s) == None {
      HeardWasWritten(s, []);
    }
  }

  lemma OnlyIdealPortsHold(d: Disk, answer: PortAnswer) returns (truth: Truth)
    requires Valid(Ideal(d)) && answer != UnknownPorts && answer != KnownPorts(Ideal(d))
    requires answer.Ports? ==> |answer.ports| <= MAX_PORTS
    ensures Possible(d, truth) && !PortsHold(answer, Says(d, truth))
  {
    hide RunFile, Defaults, FirstPort, Heard, Possible, Says, PortOf;
    var n := SomeOther(if answer.Ports? then answer.ports else [], MAX_PORTS);
    TwoDigitsIsPort(n);
    if KnownPorts(Ideal(d)) == UnknownPorts {
      truth := AnyPort(d, [TwoDigits(n)]);
    } else {
      truth := Filled(d, Silent);
      IdealPortsHold(d, truth);
      assert FirstPort(Says(d, truth)) == None ==> KnownPorts(Ideal(d)) == Standard;
    }
  }

  /** Exactly when the report is right about the ports, likewise. */
  lemma PortsHoldIff(d: Disk)
    ensures Valid(Final(d)) && Valid(Ideal(d))
    ensures (forall truth | Possible(d, truth) :: PortsHold(ResolvePorts(Final(d)), Says(d, truth))) <==>
              ResolvePorts(Final(d)) == UnknownPorts || ResolvePorts(Final(d)) == KnownPorts(Ideal(d))
  {
    hide RunFile, Defaults, Possible, Says;
    StatesValid(d);
    var answer := ResolvePorts(Final(d));
    ValidMeans(Final(d));
    if answer == KnownPorts(Ideal(d)) {
      forall truth | Possible(d, truth) ensures PortsHold(answer, Says(d, truth)) {
        IdealPortsHold(d, truth);
      }
    } else if answer != UnknownPorts {
      var truth := OnlyIdealPortsHold(d, answer);
    }
  }

  /** Any port that can be written may be one sshd listens on. */
  ghost predicate PortsUndecided(d: Disk) {
    forall args | PortOf(args).Some? :: exists truth ::
        Possible(d, truth) && PortOf(args).value in Heard([], Says(d, truth))
  }

  /** "Unknown" ports are undecided, exactly unless sixteen were heard before anything was unread. */
  lemma UnknownPortsAreUndecided(d: Disk)
    ensures Valid(Ideal(d)) && (KnownPorts(Ideal(d)) == UnknownPorts <==> PortsUndecided(d))
  {
    hide RunFile, Defaults, FirstPort, Heard, Possible, Says, PortOf;
    StatesValid(d);
    var answer := KnownPorts(Ideal(d));
    ValidMeans(Ideal(d));
    if answer == UnknownPorts {
      forall args | PortOf(args).Some? ensures exists truth ::
          Possible(d, truth) && PortOf(args).value in Heard([], Says(d, truth)) {
        var truth := AnyPort(d, args);
      }
    } else if PortsUndecided(d) {
      var n := SomeOther(if answer.Ports? then answer.ports else [], MAX_PORTS);
      TwoDigitsIsPort(n);
      var truth :| Possible(d, truth) && PortOf([TwoDigits(n)]).value in Heard([], Says(d, truth));
      IdealPortsHold(d, truth);
      if answer == Standard {
        HeardWasWritten(Says(d, truth), []);
      }
    }
  }

  // ---- Match ----------------------------------------------------------------------------------------------------

  /**
   Exactly when the report's list of keywords set inside Match is right: it is what a collector without limits lists,
   and either nothing that was opened is unread or the list holds every keyword there is.
   */
  lemma MatchesHoldIff(d: Disk)
    ensures (forall truth | Possible(d, truth) :: Final(d).matched == ConditionalIn(Says(d, truth))) <==>
              Final(d).matched == Ideal(d).matched && (Ideal(d).unreadable == [] || Ideal(d).matched == Defaults().Keys)
  {
    hide RunFile, Possible, Says, SoundValues, SoundPorts;
    var st := Ideal(d);
    forall truth | Possible(d, truth)
      ensures st.matched <= ConditionalIn(Says(d, truth)) &&
              (st.unreadable == [] ==> st.matched == ConditionalIn(Says(d, truth)))
    {
      NoFiller(WasRead(d), truth);
      IdealSound(d, truth, None);
    }
    if forall truth | Possible(d, truth) :: Final(d).matched == ConditionalIn(Says(d, truth)) {
      var silent := Filled(d, Silent);
      assert Final(d).matched == st.matched;
      forall k | k in Defaults() && st.unreadable != [] ensures k in st.matched {
        var truth := Filled(d, InMatch(Line(k, ["x"])));
      }
      assert st.unreadable != [] ==> st.matched == Defaults().Keys by {
        assert st.matched <= ConditionalIn(Says(d, silent)) <= Defaults().Keys;
      }
    }
    if Final(d).matched == st.matched && (st.unreadable == [] || st.matched == Defaults().Keys) {
      forall truth | Possible(d, truth) ensures Final(d).matched == ConditionalIn(Says(d, truth)) {
        assert ConditionalIn(Says(d, truth)) <= Defaults().Keys;
      }
    }
  }
}
