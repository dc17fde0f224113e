/**
 internal/collect/setup.go, the SSH part: sshd's global settings resolved from files some of which cannot be read.
 The functions say what each step does to the collector's state; the class SshReader runs them on mutable fields.
 */
module SshConfig {
  import opened Options

  type Path = string

  /** A configuration line already split into its keyword (lower case) and arguments. */
  datatype Line = Line(keyword: string, args: seq<string>)

  /**
   What opening and reading a file gives: all its lines; its first lines, then what is left of the line in which the
   size limit fell, and then an end like any other; its first lines and then an error; or nothing at all.
   */
  datatype Opened = Whole(lines: seq<Line>) | Cut(lines: seq<Line>, tail: seq<Line>) | Torn(lines: seq<Line>) | Closed

  /** What listing a folder gives. The names are in lexical order. */
  datatype Folder = Missing | Barred | Names(names: seq<string>)

  /** An Include argument after path cleaning: one file, or a pattern over a folder. */
  datatype Target = Single(folder: Path, file: Path) | Pattern(folder: Path, glob: string)

  /**
   What the agent can see: the files it tried to open, the paths it was not told are missing, the folders, and how
   Include arguments and glob patterns are read.
   */
  datatype Disk = Disk(files: map<Path, Opened>, present: set<Path>, folders: map<Path, Folder>,
                       resolve: string -> Target, matches: (string, string) -> bool)

  const MAIN: Path := "/etc/ssh/sshd_config"
  const MAX_DEPTH: nat := 16
  const MAX_FILES: nat := 100

  /** How many files may be read: the agent's limit, or none. */
  type Limit = Option<nat>

  const LIMIT: Limit := Some(MAX_FILES)
  const NO_LIMIT: Limit := None

  const MAX_PORTS: nat := 16
  const MAX_VALUE: nat := 128
  const KBD := "kbdinteractiveauthentication"
  const METHODS := "authenticationmethods"

  function Defaults(): map<string, string> {
    map["passwordauthentication" := "yes", KBD := "yes", "usepam" := "no", METHODS := "any",
        "permitrootlogin" := "prohibit-password"]
  }

  function Canonical(keyword: string): string {
    if keyword == "challengeresponseauthentication" then KBD else keyword
  }

  function Open(d: Disk, p: Path): Opened {
    if p in d.files then d.files[p] else Closed
  }

  function List(d: Disk, folder: Path): Folder {
    if folder in d.folders then d.folders[folder] else Missing
  }

  function Matching(d: Disk, folder: Path, glob: string, names: seq<string>): seq<Path> {
    if names == [] then []
    else
      (if d.matches(glob, names[0]) && !(names[0] != "" && names[0][0] == '.') then [folder + "/" + names[0]] else [])
      + Matching(d, folder, glob, names[1..])
  }

  /** The files an Include argument stands for, and whether the folder could not be listed. */
  function Expand(d: Disk, t: Target): (seq<Path>, bool) {
    match t
    case Single(folder, file) => if file in d.present then ([file], false) else ([], List(d, folder).Barred?)
    case Pattern(folder, glob) =>
      match List(d, folder)
      case Missing => ([], false)
      case Barred => ([], true)
      case Names(names) => (Matching(d, folder, glob, names), false)
  }

  // ---- values ---------------------------------------------------------------------------------------------------

  function Lower(s: string): string {
    seq(|s|, i requires 0 <= i < |s| => if 'A' <= s[i] <= 'Z' then (s[i] as int + 32) as char else s[i])
  }

  function Join(args: seq<string>): string {
    if args == [] then "" else if |args| == 1 then args[0] else args[0] + " " + Join(args[1..])
  }

  function Clip(s: string): string {
    if |s| <= MAX_VALUE then s else s[..MAX_VALUE]
  }

  function ValueOf(keyword: string, args: seq<string>): string
    requires args != []
  {
    Clip(if keyword == METHODS then Join(args) else Lower(args[0]))
  }

  function Digits(s: string): bool {
    s == "" || ('0' <= s[0] <= '9' && Digits(s[1..]))
  }

  function Number(s: string, acc: int): int
    requires Digits(s)
  {
    if s == "" then acc else Number(s[1..], 10 * acc + (s[0] as int - '0' as int))
  }

  /** A port number as written: an optional sign and digits, between 1 and 65535. */
  function PortOf(args: seq<string>): Option<int> {
    if args == [] || args[0] == "" then None
    else
      var s := args[0];
      var body := if s[0] == '-' || s[0] == '+' then s[1..] else s;
      if body == "" || !Digits(body) then None
      else
        var n := if s[0] == '-' then -Number(body, 0) else Number(body, 0);
        if 1 <= n <= 65535 then Some(n) else None
  }

  // ---- the collector's state ------------------------------------------------------------------------------------

  /** Where something was written: a file and a line number. */
  datatype Where = Where(path: Path, line: nat)

  /**
   Something outside Match that was passed over in silence, a whole file or, when `cut`, the rest of one; and what had
   been decided by then: the keywords set, whether later ones were blocked, and how many ports were known.
   */
  datatype Passed = Passed(path: Path, cut: bool, values: set<string>, blocked: bool, ports: nat)

  /**
   The collector's fields, and two records of the run it does not keep: what it passed over, and how many ports it knew
   when it was first blocked.
   */
  datatype State = State(values: map<string, string>, setIn: map<string, Where>, ports: seq<int>, portsSet: bool,
                         matched: set<string>, unreadable: seq<Path>, blocked: bool, files: nat, touched: set<Path>,
                         passed: seq<Passed>, early: nat)

  const EMPTY := State(map[], map[], [], false, {}, [], false, 0, {}, [], 0)

  function CannotRead(st: State, p: Path, inMatch: bool): State {
    st.(unreadable := if |st.unreadable| < MAX_FILES then st.unreadable + [p] else st.unreadable,
        blocked := st.blocked || !inMatch,
        early := if st.blocked || inMatch then st.early else |st.ports|)
  }

  function PassOver(st: State, p: Path, cut: bool, inMatch: bool): State {
    if inMatch then st
    else st.(passed := st.passed + [Passed(p, cut, st.values.Keys, st.blocked, |st.ports|)])
  }

  function AddPort(st: State, n: int, at: Where): State {
    st.(setIn := if st.portsSet then st.setIn else st.setIn["port" := at],
        portsSet := true,
        ports := if |st.ports| < MAX_PORTS && n !in st.ports then st.ports + [n] else st.ports)
  }

  /** One line that is neither Match nor Include. */
  function Apply(st: State, line: Line, inMatch: bool, at: Where): State {
    if line.keyword == "port" then
      var n := PortOf(line.args);
      if inMatch || n.None? then st else AddPort(st, n.value, at)
    else
      var k := Canonical(line.keyword);
      if k !in Defaults() || line.args == [] then st
      else if inMatch then st.(matched := st.matched + {k})
      else if k in st.values || st.blocked then st
      else st.(values := st.values[k := ValueOf(k, line.args)], setIn := st.setIn[k := at])
  }

  predicate Past(limit: Limit, files: nat) {
    limit.Some? && files > limit.value
  }

  /** A file past the limit is passed over; otherwise it is touched, and read as far as it goes. */
  function RunFile(d: Disk, limit: Limit, p: Path, inMatch: bool, depth: nat, was: State): State
    requires depth <= MAX_DEPTH
    decreases MAX_DEPTH - depth, 3, 0
  {
    if Past(limit, was.files + 1) then PassOver(was.(files := was.files + 1), p, false, inMatch)
    else
      var st := was.(files := was.files + 1, touched := was.touched + {p});
      match Open(d, p)
      case Closed => CannotRead(st, p, inMatch)
      case Whole(lines) => RunLines(d, limit, p, lines, 1, inMatch, depth, st)
      case Torn(lines) => CannotRead(RunLines(d, limit, p, lines, 1, inMatch, depth, st), p, Ends(lines, inMatch))
      case Cut(lines, tail) =>
        var ends := Ends(lines, inMatch);
        RunLines(d, limit, p, tail, 1 + |lines|, ends, depth,
                 PassOver(RunLines(d, limit, p, lines, 1, inMatch, depth, st), p, true, ends))
  }

  /** Whether the end of these lines is inside a Match block. */
  function Ends(lines: seq<Line>, inMatch: bool): bool {
    if lines == [] then inMatch
    else Ends(lines[1..], inMatch || (lines[0].keyword == "match"))
  }

  function RunLines(d: Disk, limit: Limit, p: Path, lines: seq<Line>, n: nat, inMatch: bool, depth: nat,
                    st: State): State
    requires depth <= MAX_DEPTH
    decreases MAX_DEPTH - depth, 2, |lines|
  {
    if lines == [] then st
    else
      var line := lines[0];
      if line.keyword == "match" then RunLines(d, limit, p, lines[1..], n + 1, true, depth, st)
      else if line.keyword == "include" then
        RunLines(d, limit, p, lines[1..], n + 1, inMatch, depth,
                 if depth == MAX_DEPTH then st else RunArgs(d, limit, line.args, inMatch, depth, st))
      else RunLines(d, limit, p, lines[1..], n + 1, inMatch, depth, Apply(st, line, inMatch, Where(p, n)))
  }

  /** The arguments of an Include, each expanded before its files are read. */
  function RunArgs(d: Disk, limit: Limit, args: seq<string>, inMatch: bool, depth: nat, st: State): State
    requires depth < MAX_DEPTH
    decreases MAX_DEPTH - depth, 1, |args|
  {
    if args == [] then st
    else
      var t := d.resolve(args[0]);
      var (paths, denied) := Expand(d, t);
      var next := if denied then CannotRead(st, t.folder, inMatch) else st;
      RunArgs(d, limit, args[1..], inMatch, depth, RunPaths(d, limit, paths, inMatch, depth, next))
  }

  function RunPaths(d: Disk, limit: Limit, paths: seq<Path>, inMatch: bool, depth: nat, st: State): State
    requires depth < MAX_DEPTH
    decreases MAX_DEPTH - depth, 0, |paths|
  {
    if paths == [] then st
    else RunPaths(d, limit, paths[1..], inMatch, depth, RunFile(d, limit, paths[0], inMatch, depth + 1, st))
  }

  // ---- the report -----------------------------------------------------------------------------------------------

  datatype Answer = Known(value: string, at: Where) | Default(value: string) | Unknown

  datatype PortAnswer = Ports(ports: seq<int>, at: Where) | Standard | UnknownPorts

  predicate Valid(st: State) {
    (forall k <- st.values :: k in st.setIn && k in Defaults()) && (st.portsSet ==> "port" in st.setIn) &&
    |st.ports| <= MAX_PORTS && (st.portsSet <==> st.ports != []) && (st.blocked ==> st.unreadable != [])
  }

  function Resolve(st: State, keyword: string): Answer
    requires Valid(st) && keyword in Defaults()
  {
    if keyword in st.values then Known(st.values[keyword], st.setIn[keyword])
    else if st.blocked then Unknown
    else Default(Defaults()[keyword])
  }

  function ResolvePorts(st: State): PortAnswer
    requires Valid(st)
  {
    if st.blocked then UnknownPorts
    else if st.portsSet then Ports(st.ports, st.setIn["port"])
    else Standard
  }

  datatype Report = Report(answers: map<string, Answer>, ports: PortAnswer, matched: set<string>, unreadable: seq<Path>)

  function ReportOf(st: State): Report
    requires Valid(st)
  {
    Report(map k | k in Defaults() :: Resolve(st, k), ResolvePorts(st), st.matched, st.unreadable)
  }

  // Every step keeps the state valid.

  lemma PortIsNoKeyword()
    ensures "port" !in Defaults()
  {
  }

  lemma ApplyValid(st: State, line: Line, inMatch: bool, at: Where)
    requires Valid(st)
    ensures Valid(Apply(st, line, inMatch, at))
  {
    hide Defaults;
    PortIsNoKeyword();
  }

  lemma CannotReadValid(st: State, p: Path, inMatch: bool)
    requires Valid(st)
    ensures Valid(CannotRead(st, p, inMatch))
  {
    hide Defaults;
  }

  lemma PassOverValid(st: State, p: Path, cut: bool, inMatch: bool, files: nat)
    requires Valid(st)
    ensures Valid(PassOver(st.(files := files), p, cut, inMatch))
  {
    hide Defaults;
  }

  lemma TouchValid(st: State, files: nat, touched: set<Path>)
    requires Valid(st)
    ensures Valid(st.(files := files, touched := touched))
  {
    hide Defaults;
  }

  lemma {:induction false} FileValid(d: Disk, limit: Limit, p: Path, inMatch: bool, depth: nat, st: State)
    requires depth <= MAX_DEPTH && Valid(st)
    ensures Valid(RunFile(d, limit, p, inMatch, depth, st))
    decreases MAX_DEPTH - depth, 3, 0
  {
    hide Valid, RunLines, Ends, PassOver, CannotRead;
    if Past(limit, st.files + 1) {
      PassOverValid(st, p, false, inMatch, st.files + 1);
    } else {
      var next := st.(files := st.files + 1, touched := st.touched + {p});
      TouchValid(st, st.files + 1, st.touched + {p});
      CannotReadValid(next, p, inMatch);
      if !Open(d, p).Closed? {
        var lines, ends := Open(d, p).lines, Ends(Open(d, p).lines, inMatch);
        var read := RunLines(d, limit, p, lines, 1, inMatch, depth, next);
        LinesValid(d, limit, p, lines, 1, inMatch, depth, next);
        CannotReadValid(read, p, ends);
        if Open(d, p).Cut? {
          PassOverValid(read, p, true, ends, read.files);
          LinesValid(d, limit, p, Open(d, p).tail, 1 + |lines|, ends, depth, PassOver(read, p, true, ends));
        }
      }
    }
  }

  lemma {:induction false} LinesValid(d: Disk, limit: Limit, p: Path, lines: seq<Line>, n: nat, inMatch: bool,
                                      depth: nat, st: State)
    requires depth <= MAX_DEPTH && Valid(st)
    ensures Valid(RunLines(d, limit, p, lines, n, inMatch, depth, st))
    decreases MAX_DEPTH - depth, 2, |lines|
  {
    hide Valid, RunArgs, Apply;
    if lines != [] {
      var line := lines[0];
      if line.keyword == "match" {
        LinesValid(d, limit, p, lines[1..], n + 1, true, depth, st);
      } else if line.keyword == "include" {
        if depth < MAX_DEPTH {
          ArgsValid(d, limit, line.args, inMatch, depth, st);
          LinesValid(d, limit, p, lines[1..], n + 1, inMatch, depth, RunArgs(d, limit, line.args, inMatch, depth, st));
        } else {
          LinesValid(d, limit, p, lines[1..], n + 1, inMatch, depth, st);
        }
      } else {
        ApplyValid(st, line, inMatch, Where(p, n));
        LinesValid(d, limit, p, lines[1..], n + 1, inMatch, depth, Apply(st, line, inMatch, Where(p, n)));
      }
    }
  }

  lemma {:induction false} ArgsValid(d: Disk, limit: Limit, args: seq<string>, inMatch: bool, depth: nat, st: State)
    requires depth < MAX_DEPTH && Valid(st)
    ensures Valid(RunArgs(d, limit, args, inMatch, depth, st))
    decreases MAX_DEPTH - depth, 1, |args|
  {
    hide Valid, RunPaths, CannotRead, Expand;
    if args != [] {
      var t := d.resolve(args[0]);
      var (paths, denied) := Expand(d, t);
      var next := if denied then CannotRead(st, t.folder, inMatch) else st;
      CannotReadValid(st, t.folder, inMatch);
      PathsValid(d, limit, paths, inMatch, depth, next);
      ArgsValid(d, limit, args[1..], inMatch, depth, RunPaths(d, limit, paths, inMatch, depth, next));
    }
  }

  lemma {:induction false} PathsValid(d: Disk, limit: Limit, paths: seq<Path>, inMatch: bool, depth: nat, st: State)
    requires depth < MAX_DEPTH && Valid(st)
    ensures Valid(RunPaths(d, limit, paths, inMatch, depth, st))
    decreases MAX_DEPTH - depth, 0, |paths|
  {
    hide Valid, RunFile;
    if paths != [] {
      FileValid(d, limit, paths[0], inMatch, depth + 1, st);
      PathsValid(d, limit, paths[1..], inMatch, depth, RunFile(d, limit, paths[0], inMatch, depth + 1, st));
    }
  }

  // One step of each, for the loops below.

  lemma LinesStep(d: Disk, limit: Limit, p: Path, lines: seq<Line>, i: nat, n: nat, inMatch: bool, depth: nat,
                  st: State)
    requires depth <= MAX_DEPTH && i < |lines|
    ensures var line := lines[i];
            var next := if line.keyword == "match" then st
                        else if line.keyword == "include" then
                          if depth == MAX_DEPTH then st else RunArgs(d, limit, line.args, inMatch, depth, st)
                        else Apply(st, line, inMatch, Where(p, n + i));
            RunLines(d, limit, p, lines[i..], n + i, inMatch, depth, st)
              == RunLines(d, limit, p, lines[i + 1..], n + (i + 1), inMatch || line.keyword == "match", depth, next)
    ensures Ends(lines[i..], inMatch) == Ends(lines[i + 1..], inMatch || lines[i].keyword == "match")
  {
    assert lines[i..][1..] == lines[i + 1..];
  }

  lemma NoLines(d: Disk, limit: Limit, p: Path, lines: seq<Line>, n: nat, inMatch: bool, depth: nat, st: State)
    requires depth <= MAX_DEPTH && lines == []
    ensures RunLines(d, limit, p, lines, n, inMatch, depth, st) == st && Ends(lines, inMatch) == inMatch
  {
  }

  lemma ArgsStep(d: Disk, limit: Limit, args: seq<string>, i: nat, inMatch: bool, depth: nat, st: State)
    requires depth < MAX_DEPTH && i < |args|
    ensures var t := d.resolve(args[i]);
            var next := if Expand(d, t).1 then CannotRead(st, t.folder, inMatch) else st;
            RunArgs(d, limit, args[i..], inMatch, depth, st)
              == RunArgs(d, limit, args[i + 1..], inMatch, depth,
                         RunPaths(d, limit, Expand(d, t).0, inMatch, depth, next))
  {
    assert args[i..][1..] == args[i + 1..];
  }

  lemma PathsStep(d: Disk, limit: Limit, paths: seq<Path>, i: nat, inMatch: bool, depth: nat, st: State)
    requires depth < MAX_DEPTH && i < |paths|
    ensures RunPaths(d, limit, paths[i..], inMatch, depth, st)
         == RunPaths(d, limit, paths[i + 1..], inMatch, depth, RunFile(d, limit, paths[i], inMatch, depth + 1, st))
  {
    assert paths[i..][1..] == paths[i + 1..];
  }

  lemma NoPaths(d: Disk, limit: Limit, inMatch: bool, depth: nat, st: State)
    requires depth < MAX_DEPTH
    ensures RunArgs(d, limit, [], inMatch, depth, st) == st && RunPaths(d, limit, [], inMatch, depth, st) == st
  {
  }

  lemma MatchingStep(d: Disk, folder: Path, glob: string, names: seq<string>, i: nat, paths: seq<Path>)
    requires i < |names|
    ensures var kept := d.matches(glob, names[i]) && !(names[i] != "" && names[i][0] == '.');
            paths + Matching(d, folder, glob, names[i..])
              == (if kept then paths + [folder + "/" + names[i]] else paths) + Matching(d, folder, glob, names[i + 1..])
  {
    assert names[i..][1..] == names[i + 1..];
  }

  lemma NoneMatching(d: Disk, folder: Path, glob: string, names: seq<string>)
    requires names == []
    ensures Matching(d, folder, glob, names) == []
  {
  }

  class SshReader {
    const disk: Disk
    var values: map<string, string>
    var setIn: map<string, Where>
    var ports: seq<int>
    var portsSet: bool
    var matched: set<string>
    var unreadable: seq<Path>
    var blocked: bool
    var files: nat
    var touched: set<Path>
    ghost var passed: seq<Passed>
    ghost var early: nat

    ghost function Now(): State
      reads this
    {
      State(values, setIn, ports, portsSet, matched, unreadable, blocked, files, touched, passed, early)
    }

    constructor (d: Disk)
      ensures disk == d && Now() == EMPTY
    {
      disk := d;
      values, setIn, ports, portsSet := map[], map[], [], false;
      matched, unreadable, blocked, files, touched := {}, [], false, 0, {};
      passed, early := [], 0;
    }

    method Unreadable(p: Path, inMatch: bool)
      modifies this
      ensures Now() == CannotRead(old(Now()), p, inMatch)
    {
      if |unreadable| < MAX_FILES {
        unreadable := unreadable + [p];
      }
      if !inMatch {
        early := if blocked then early else |ports|;
        blocked := true;
      }
    }

    method ExpandTarget(t: Target, inMatch: bool) returns (paths: seq<Path>)
      modifies this
      ensures paths == Expand(disk, t).0
      ensures Now() == if Expand(disk, t).1 then CannotRead(old(Now()), t.folder, inMatch) else old(Now())
    {
      paths := [];
      match t {
        case Single(folder, file) =>
          if file in disk.present {
            return [file];
          }
          if List(disk, folder).Barred? {
            Unreadable(folder, inMatch);
          }
        case Pattern(folder, glob) =>
          match List(disk, folder) {
            case Missing =>
            case Barred => Unreadable(folder, inMatch);
            case Names(names) => paths := MatchNames(folder, glob, names);
          }
      }
    }

    method MatchNames(folder: Path, glob: string, names: seq<string>) returns (paths: seq<Path>)
      ensures paths == Matching(disk, folder, glob, names)
    {
      hide Matching;
      paths := [];
      var i := 0;
      assert names[0..] == names;
      while i < |names|
        invariant 0 <= i <= |names|
        invariant Matching(disk, folder, glob, names) == paths + Matching(disk, folder, glob, names[i..])
      {
        MatchingStep(disk, folder, glob, names, i, paths);
        if disk.matches(glob, names[i]) && !(names[i] != "" && names[i][0] == '.') {
          paths := paths + [folder + "/" + names[i]];
        }
        i := i + 1;
      }
      NoneMatching(disk, folder, glob, names[i..]);
    }

    method ApplyLine(line: Line, inMatch: bool, at: Where)
      modifies this
      ensures Now() == Apply(old(Now()), line, inMatch, at)
    {
      if line.keyword == "port" {
        var n := PortOf(line.args);
        if inMatch || n.None? {
          return;
        }
        if !portsSet {
          setIn := setIn["port" := at];
        }
        portsSet := true;
        if |ports| < MAX_PORTS && n.value !in ports {
          ports := ports + [n.value];
        }
        return;
      }
      var keyword := Canonical(line.keyword);
      if keyword !in Defaults() || line.args == [] {
        return;
      }
      if inMatch {
        matched := matched + {keyword};
        return;
      }
      if keyword in values || blocked {
        return;
      }
      values := values[keyword := ValueOf(keyword, line.args)];
      setIn := setIn[keyword := at];
    }

    method File(p: Path, inMatch: bool, depth: nat)
      requires depth <= MAX_DEPTH
      modifies this
      ensures Now() == RunFile(disk, LIMIT, p, inMatch, depth, old(Now()))
      decreases MAX_DEPTH - depth, 3
    {
      hide RunLines, Ends;
      files := files + 1;
      if files > MAX_FILES {
        NotePassed(p, false, inMatch);
        return;
      }
      touched := touched + {p};
      var content := Open(disk, p);
      if content.Closed? {
        Unreadable(p, inMatch);
        return;
      }
      var ends := ReadLines(p, content.lines, 1, inMatch, depth);
      if content.Torn? {
        Unreadable(p, ends);
      }
      if content.Cut? {
        NotePassed(p, true, ends);
        var _ := ReadLines(p, content.tail, 1 + |content.lines|, ends, depth);
      }
    }

    /** Nothing the collector keeps changes when something is passed over. */
    ghost method NotePassed(p: Path, cut: bool, inMatch: bool)
      modifies this`passed
      ensures Now() == PassOver(old(Now()), p, cut, inMatch)
    {
      if !inMatch {
        passed := passed + [Passed(p, cut, values.Keys, blocked, |ports|)];
      }
    }

    /** The lines of a file, from the n-th on; and whether they end inside a Match block. */
    method ReadLines(p: Path, lines: seq<Line>, n: nat, wasInMatch: bool, depth: nat) returns (inMatch: bool)
      requires depth <= MAX_DEPTH
      modifies this
      ensures Now() == RunLines(disk, LIMIT, p, lines, n, wasInMatch, depth, old(Now()))
      ensures inMatch == Ends(lines, wasInMatch)
      decreases MAX_DEPTH - depth, 2
    {
      hide RunLines, RunArgs, Apply, Ends;
      ghost var start := Now();
      inMatch := wasInMatch;
      var i := 0;
      assert lines[0..] == lines;
      while i < |lines|
        invariant 0 <= i <= |lines|
        invariant RunLines(disk, LIMIT, p, lines, n, wasInMatch, depth, start)
               == RunLines(disk, LIMIT, p, lines[i..], n + i, inMatch, depth, Now())
        invariant Ends(lines, wasInMatch) == Ends(lines[i..], inMatch)
      {
        LinesStep(disk, LIMIT, p, lines, i, n, inMatch, depth, Now());
        var line := lines[i];
        if line.keyword == "match" {
          inMatch := true;
        } else if line.keyword == "include" {
          if depth + 1 <= MAX_DEPTH {
            IncludeAll(line.args, inMatch, depth);
          }
        } else {
          ApplyLine(line, inMatch, Where(p, n + i));
        }
        i := i + 1;
      }
      NoLines(disk, LIMIT, p, lines[i..], n + i, inMatch, depth, Now());
    }

    method IncludeAll(args: seq<string>, inMatch: bool, depth: nat)
      requires depth < MAX_DEPTH
      modifies this
      ensures Now() == RunArgs(disk, LIMIT, args, inMatch, depth, old(Now()))
      decreases MAX_DEPTH - depth, 1
    {
      hide RunArgs, RunPaths, RunFile, Expand, CannotRead;
      var i := 0;
      assert args[0..] == args;
      while i < |args|
        invariant 0 <= i <= |args|
        invariant RunArgs(disk, LIMIT, args, inMatch, depth, old(Now()))
                  == RunArgs(disk, LIMIT, args[i..], inMatch, depth, Now())
      {
        ArgsStep(disk, LIMIT, args, i, inMatch, depth, Now());
        var paths := ExpandTarget(disk.resolve(args[i]), inMatch);
        ghost var before := Now();
        var j := 0;
        assert paths[0..] == paths;
        while j < |paths|
          invariant 0 <= j <= |paths|
          invariant RunPaths(disk, LIMIT, paths, inMatch, depth, before)
                    == RunPaths(disk, LIMIT, paths[j..], inMatch, depth, Now())
        {
          PathsStep(disk, LIMIT, paths, j, inMatch, depth, Now());
          File(paths[j], inMatch, depth + 1);
          j := j + 1;
        }
        assert paths[j..] == [];
        NoPaths(disk, LIMIT, inMatch, depth, Now());
        i := i + 1;
      }
      assert args[i..] == [];
      NoPaths(disk, LIMIT, inMatch, depth, Now());
    }

    /** The report of what the collector knows. */
    method MakeReport() returns (r: Report)
      requires Valid(Now())
      ensures r == ReportOf(Now())
    {
      var answers := map k | k in Defaults() :: if k in values then Known(values[k], setIn[k])
                                                else if blocked then Unknown else Default(Defaults()[k]);
      r := Report(answers, if blocked then UnknownPorts else if portsSet then Ports(ports, setIn["port"]) else Standard,
                  matched, unreadable);
    }
  }

  /** The whole reading: no report when sshd has no configuration. */
  method ReadSsh(d: Disk) returns (r: Option<Report>)
    ensures MAIN !in d.present ==> r == None
    ensures MAIN in d.present ==> Valid(RunFile(d, LIMIT, MAIN, false, 0, EMPTY))
    ensures MAIN in d.present ==> r == Some(ReportOf(RunFile(d, LIMIT, MAIN, false, 0, EMPTY)))
  {
    if MAIN !in d.present {
      return None;
    }
    var reader := new SshReader(d);
    reader.File(MAIN, false, 0);
    FileValid(d, LIMIT, MAIN, false, 0, EMPTY);
    var report := reader.MakeReport();
    r := Some(report);
  }
}
