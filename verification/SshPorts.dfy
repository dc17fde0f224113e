/** sshd told to listen on sixteen ports, and then to include a file the agent may not read. */
module SshPorts {
  import opened Options
  import opened SshConfig
  import opened SshSoundness
  import opened SshLimits

  /** The main file from its k-th port on. */
  function PortsFrom(k: nat): seq<Line>
    requires k <= MAX_PORTS
    decreases MAX_PORTS - k
  {
    if k == MAX_PORTS then [Line("include", ["a"])] else [Line("port", [TwoDigits(10 + k)])] + PortsFrom(k + 1)
  }

  function Sixteen(): Disk {
    Disk(map[MAIN := Whole(PortsFrom(0))], {MAIN, "a"}, map[], s => Single("", s), (_, _) => false)
  }

  /** The ports of the first k lines. */
  function FirstPorts(k: nat): (r: seq<int>)
    ensures |r| == k
  {
    seq(k, i => 10 + i)
  }

  /** The collector after them. */
  function Collected(k: nat): State {
    EMPTY.(files := 1, touched := {MAIN}, ports := FirstPorts(k), portsSet := k > 0,
           setIn := if k > 0 then map["port" := Where(MAIN, 1)] else map[])
  }

  /** And at the end. */
  function Finally(): State {
    Collected(MAX_PORTS).(files := 2, touched := {MAIN, "a"}, unreadable := ["a"], blocked := true, early := MAX_PORTS)
  }

  lemma OnePort(k: nat)
    requires k < MAX_PORTS
    ensures Apply(Collected(k), Line("port", [TwoDigits(10 + k)]), false, Where(MAIN, k + 1)) == Collected(k + 1)
  {
    hide PortOf, TwoDigits;
    TwoDigitsIsPort(10 + k);
    assert 10 + k !in FirstPorts(k);
    assert FirstPorts(k) + [10 + k] == FirstPorts(k + 1);
    assert k == 0 ==> map[]["port" := Where(MAIN, 1)] == map["port" := Where(MAIN, 1)];
  }

  lemma {:induction false} PortsRun(d: Disk, limit: Limit, k: nat)
    requires k <= MAX_PORTS
    ensures RunLines(d, limit, MAIN, PortsFrom(k), k + 1, false, 0, Collected(k))
         == RunLines(d, limit, MAIN, [Line("include", ["a"])], MAX_PORTS + 1, false, 0, Collected(MAX_PORTS))
    decreases MAX_PORTS - k
  {
    hide RunLines, Apply, Collected, TwoDigits;
    if k < MAX_PORTS {
      var lines := PortsFrom(k);
      LinesStep(d, limit, MAIN, lines, 0, k + 1, false, 0, Collected(k));
      OnePort(k);
      assert lines[0..] == lines && lines[1..] == PortsFrom(k + 1);
      PortsRun(d, limit, k + 1);
    }
  }

  /** The file that cannot be read. */
  lemma IncludeRun(d: Disk, limit: Limit)
    requires "a" in d.present && "a" !in d.files && d.resolve("a") == Single("", "a") && !Past(limit, 2)
    ensures RunArgs(d, limit, ["a"], false, 0, Collected(MAX_PORTS)) == Finally()
  {
    var st := Collected(MAX_PORTS);
    assert {MAIN} + {"a"} == {MAIN, "a"};
    assert RunFile(d, limit, "a", false, 1, st) == Finally();
    hide RunArgs, RunFile, RunPaths, Finally;
    assert ["a"][0..] == ["a"] && ["a"][1..] == [];
    ArgsStep(d, limit, ["a"], 0, false, 0, st);
    assert Expand(d, d.resolve("a")) == (["a"], false);
    PathsStep(d, limit, ["a"], 0, false, 0, st);
    NoPaths(d, limit, false, 0, Finally());
  }

  lemma MainIs(d: Disk, limit: Limit, lines: seq<Line>)
    requires Open(d, MAIN) == Whole(lines) && !Past(limit, 1)
    ensures RunFile(d, limit, MAIN, false, 0, EMPTY)
         == RunLines(d, limit, MAIN, lines, 1, false, 0, EMPTY.(files := 1, touched := {MAIN}))
  {
    hide RunLines;
    assert EMPTY.touched + {MAIN} == {MAIN};
  }

  lemma LastLine(d: Disk, limit: Limit)
    requires "a" in d.present && "a" !in d.files && d.resolve("a") == Single("", "a") && !Past(limit, 2)
    ensures RunLines(d, limit, MAIN, [Line("include", ["a"])], MAX_PORTS + 1, false, 0, Collected(MAX_PORTS))
            == Finally()
  {
    hide RunLines, RunArgs, Finally, Collected;
    var last := [Line("include", ["a"])];
    assert last[0..] == last && last[1..] == [];
    LinesStep(d, limit, MAIN, last, 0, MAX_PORTS + 1, false, 0, Collected(MAX_PORTS));
    IncludeRun(d, limit);
    NoLines(d, limit, MAIN, [], MAX_PORTS + 2, false, 0, Finally());
  }

  lemma SixteenIs()
    ensures var d := Sixteen();
            Open(d, MAIN) == Whole(PortsFrom(0)) && "a" in d.present && "a" !in d.files &&
              d.resolve("a") == Single("", "a")
  {
    hide PortsFrom;
  }

  lemma NothingYet()
    ensures Collected(0) == EMPTY.(files := 1, touched := {MAIN})
  {
    assert FirstPorts(0) == [];
  }

  lemma SixteenRun(limit: Limit)
    requires !Past(limit, 1) && !Past(limit, 2)
    ensures RunFile(Sixteen(), limit, MAIN, false, 0, EMPTY) == Finally()
  {
    hide RunFile, RunLines, Finally, PortsFrom, Collected, Sixteen;
    var d := Sixteen();
    SixteenIs();
    NothingYet();
    MainIs(d, limit, PortsFrom(0));
    PortsRun(d, limit, 0);
    LastLine(d, limit);
  }

  /**
   The report says the ports are unknown, and they are not: in every configuration that agrees with what was read, they
   are the sixteen of the main file.
   */
  lemma UnknownPortsAreKnown(truth: Truth)
    ensures var d := Sixteen();
            Valid(Final(d)) && ResolvePorts(Final(d)) == UnknownPorts &&
            Valid(Ideal(d)) && KnownPorts(Ideal(d)) == Ports(FirstPorts(MAX_PORTS), Where(MAIN, 1)) &&
              !PortsUndecided(d) &&
            (Possible(d, truth) ==> PortsHold(Ports(FirstPorts(MAX_PORTS), Where(MAIN, 1)), Says(d, truth)))
  {
    hide RunFile, Possible, Says, PortsUndecided, PortsHold, PortsFrom;
    var d := Sixteen();
    StatesValid(d);
    SixteenRun(LIMIT);
    SixteenRun(NO_LIMIT);
    assert WasRead(d) == d by {
      assert WasRead(d).files == d.files;
    }
    UnknownPortsAreUndecided(d);
    if Possible(d, truth) {
      IdealPortsHold(d, truth);
    }
  }
}
