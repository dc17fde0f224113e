/**
 The same by the guard that passes files over. A keyword is lost when something outside Match was passed over before it
 was set or blocked. One that is not lost is answered as without limits; and where no file that had been read was passed
 over later, one that is lost is answered rightly only by "unknown".
 */
module SshPassedOver {
  import opened Options
  import opened SshConfig
  import opened SshSoundness
  import opened SshLimits

  predicate Missed(x: Passed, k: string) {
    !x.blocked && k !in x.values
  }

  /** Something was passed over while this keyword was neither set nor blocked. */
  predicate Lost(st: State, k: string) {
    exists i | 0 <= i < |st.passed| :: Missed(st.passed[i], k)
  }

  predicate MissedPort(x: Passed) {
    !x.blocked && x.ports < MAX_PORTS
  }

  /** Something was passed over while a port could still have been added. */
  predicate PortsLost(st: State) {
    exists i | 0 <= i < |st.passed| :: MissedPort(st.passed[i])
  }

  // ---- what a run keeps -----------------------------------------------------------------------------------------

  ghost predicate KeepsValues(st: State, next: State) {
    (forall k | k in st.values && k != "port" ::
       k in next.values && next.values[k] == st.values[k] &&
       (k in st.setIn ==> k in next.setIn && next.setIn[k] == st.setIn[k])) &&
    (st.blocked ==> next.blocked && next.values == st.values && next.early == st.early)
  }

  ghost predicate KeepsPorts(st: State, next: State) {
    st.ports <= next.ports &&
    (st.portsSet ==>
     next.portsSet && ("port" in st.setIn ==> "port" in next.setIn && next.setIn["port"] == st.setIn["port"])) &&
    (!st.blocked && next.blocked ==> |st.ports| <= next.early <= |next.ports|)
  }

  ghost predicate KeepsRecord(st: State, next: State) {
    st.touched <= next.touched && st.passed <= next.passed && st.unreadable <= next.unreadable &&
    forall i | |st.passed| <= i < |next.passed| ::
      (st.blocked ==> next.passed[i].blocked) && st.values.Keys - {"port"} <= next.passed[i].values &&
      |st.ports| <= next.passed[i].ports
  }

  /** Inside Match nothing global changes. */
  ghost predicate KeepsAll(st: State, next: State) {
    next.values == st.values && next.setIn == st.setIn && next.ports == st.ports && next.portsSet == st.portsSet &&
    next.blocked == st.blocked && next.early == st.early && next.passed == st.passed
  }

  ghost predicate Grows(st: State, next: State, inMatch: bool) {
    KeepsValues(st, next) && KeepsPorts(st, next) && KeepsRecord(st, next) && (inMatch ==> KeepsAll(st, next))
  }

  lemma GrowsOn(a: State, b: State, c: State, inMatch: bool, later: bool)
    requires Grows(a, b, inMatch) && Grows(b, c, later) && (inMatch ==> later)
    ensures Grows(a, c, inMatch)
  {
  }

  lemma GrowsSame(st: State, inMatch: bool)
    ensures Grows(st, st, inMatch)
  {
  }

  lemma ApplyGrows(st: State, line: Line, inMatch: bool, at: Where)
    ensures Grows(st, Apply(st, line, inMatch, at), inMatch)
  {
    hide Defaults, PortOf;
    PortIsNoKeyword();
  }

  lemma CannotReadGrows(st: State, p: Path, inMatch: bool)
    ensures Grows(st, CannotRead(st, p, inMatch), inMatch)
  {
  }

  lemma PassOverGrows(st: State, p: Path, cut: bool, inMatch: bool, files: nat)
    ensures Grows(st, PassOver(st.(files := files), p, cut, inMatch), inMatch)
  {
  }

  lemma TouchGrows(st: State, p: Path, files: nat, inMatch: bool)
    ensures Grows(st, st.(files := files, touched := st.touched + {p}), inMatch)
  {
  }

  lemma {:induction false} FileGrows(d: Disk, limit: Limit, p: Path, inMatch: bool, depth: nat, st: State)
    requires depth <= MAX_DEPTH
    ensures Grows(st, RunFile(d, limit, p, inMatch, depth, st), inMatch)
    decreases MAX_DEPTH - depth, 3, 0
  {
    hide Grows, RunLines, Ends, CannotRead, PassOver;
    if Past(limit, st.files + 1) {
      PassOverGrows(st, p, false, inMatch, st.files + 1);
    } else {
      var next := st.(files := st.files + 1, touched := st.touched + {p});
      TouchGrows(st, p, st.files + 1, inMatch);
      match Open(d, p)
      case Closed =>
        CannotReadGrows(next, p, inMatch);
        GrowsOn(st, next, CannotRead(next, p, inMatch), inMatch, inMatch);
      case Whole(lines) =>
        LinesGrow(d, limit, p, lines, 1, inMatch, depth, next);
        GrowsOn(st, next, RunLines(d, limit, p, lines, 1, inMatch, depth, next), inMatch, inMatch);
      case Torn(lines) =>
        var read, ends := RunLines(d, limit, p, lines, 1, inMatch, depth, next), Ends(lines, inMatch);
        LinesGrow(d, limit, p, lines, 1, inMatch, depth, next);
        GrowsOn(st, next, read, inMatch, inMatch);
        CannotReadGrows(read, p, ends);
        MatchStays(lines, inMatch);
        GrowsOn(st, read, CannotRead(read, p, ends), inMatch, ends);
      case Cut(lines, tail) =>
        var read, ends := RunLines(d, limit, p, lines, 1, inMatch, depth, next), Ends(lines, inMatch);
        LinesGrow(d, limit, p, lines, 1, inMatch, depth, next);
        GrowsOn(st, next, read, inMatch, inMatch);
        var passed := PassOver(read, p, true, ends);
        PassOverGrows(read, p, true, ends, read.files);
        MatchStays(lines, inMatch);
        GrowsOn(st, read, passed, inMatch, ends);
        LinesGrow(d, limit, p, tail, 1 + |lines|, ends, depth, passed);
        GrowsOn(st, passed, RunLines(d, limit, p, tail, 1 + |lines|, ends, depth, passed), inMatch, ends);
    }
  }

  lemma {:induction false} MatchStays(lines: seq<Line>, inMatch: bool)
    ensures inMatch ==> Ends(lines, inMatch)
  {
    if lines != [] {
      MatchStays(lines[1..], inMatch || lines[0].keyword == "match");
    }
  }

  lemma {:induction false} LinesGrow(d: Disk, limit: Limit, p: Path, lines: seq<Line>, n: nat, inMatch: bool,
                                     depth: nat, st: State)
    requires depth <= MAX_DEPTH
    ensures Grows(st, RunLines(d, limit, p, lines, n, inMatch, depth, st), inMatch)
    decreases MAX_DEPTH - depth, 2, |lines|
  {
    hide Grows, RunArgs, Apply;
    if lines == [] {
      GrowsSame(st, inMatch);
    } else {
      var line, rest := lines[0], lines[1..];
      var later := inMatch || line.keyword == "match";
      var next := if line.keyword == "match" then st
                  else if line.keyword == "include" then
                    if depth == MAX_DEPTH then st else RunArgs(d, limit, line.args, inMatch, depth, st)
                  else Apply(st, line, inMatch, Where(p, n));
      GrowsSame(st, inMatch);
      if line.keyword == "include" && depth < MAX_DEPTH {
        ArgsGrow(d, limit, line.args, inMatch, depth, st);
      }
      ApplyGrows(st, line, inMatch, Where(p, n));
      LinesGrow(d, limit, p, rest, n + 1, later, depth, next);
      GrowsOn(st, next, RunLines(d, limit, p, rest, n + 1, later, depth, next), inMatch, later);
    }
  }

  lemma {:induction false} ArgsGrow(d: Disk, limit: Limit, args: seq<string>, inMatch: bool, depth: nat, st: State)
    requires depth < MAX_DEPTH
    ensures Grows(st, RunArgs(d, limit, args, inMatch, depth, st), inMatch)
    decreases MAX_DEPTH - depth, 1, |args|
  {
    hide Grows, RunPaths, CannotRead, Expand;
    GrowsSame(st, inMatch);
    if args != [] {
      var t := d.resolve(args[0]);
      var (paths, denied) := Expand(d, t);
      var next := if denied then CannotRead(st, t.folder, inMatch) else st;
      CannotReadGrows(st, t.folder, inMatch);
      var read := RunPaths(d, limit, paths, inMatch, depth, next);
      PathsGrow(d, limit, paths, inMatch, depth, next);
      GrowsOn(st, next, read, inMatch, inMatch);
      ArgsGrow(d, limit, args[1..], inMatch, depth, read);
      GrowsOn(st, read, RunArgs(d, limit, args[1..], inMatch, depth, read), inMatch, inMatch);
    }
  }

  lemma {:induction false} PathsGrow(d: Disk, limit: Limit, paths: seq<Path>, inMatch: bool, depth: nat, st: State)
    requires depth < MAX_DEPTH
    ensures Grows(st, RunPaths(d, limit, paths, inMatch, depth, st), inMatch)
    decreases MAX_DEPTH - depth, 0, |paths|
  {
    hide Grows, RunFile;
    GrowsSame(st, inMatch);
    if paths != [] {
      var next := RunFile(d, limit, paths[0], inMatch, depth + 1, st);
      FileGrows(d, limit, paths[0], inMatch, depth + 1, st);
      PathsGrow(d, limit, paths[1..], inMatch, depth, next);
      GrowsOn(st, next, RunPaths(d, limit, paths[1..], inMatch, depth, next), inMatch, inMatch);
    }
  }

  // ---- the collector beside the ideal one -----------------------------------------------------------------------

  /** A keyword that is not lost stands the same; one that is lost is blocked in the ideal run, when all was unread. */
  ghost predicate LikeKey(st: State, o: State, k: string, unread: bool) {
    (!Lost(st, k) ==>
       (k in st.values <==> k in o.values) &&
       (k in st.values ==> k in st.setIn && k in o.setIn && o.values[k] == st.values[k] && o.setIn[k] == st.setIn[k]) &&
       (k !in st.values ==> o.blocked == st.blocked)) &&
    (unread && Lost(st, k) ==> o.blocked && k !in o.values)
  }

  ghost predicate LikePorts(st: State, o: State, unread: bool) {
    (!PortsLost(st) && !st.blocked ==>
       o.ports == st.ports && o.portsSet == st.portsSet &&
       (st.portsSet ==> "port" in st.setIn && "port" in o.setIn && o.setIn["port"] == st.setIn["port"]) &&
       (o.blocked ==> |st.ports| == MAX_PORTS && o.early == MAX_PORTS)) &&
    (unread && PortsLost(st) ==> o.blocked && o.early < MAX_PORTS)
  }

  ghost predicate Like(st: State, o: State, k: string, unread: bool) {
    Valid(st) && Valid(o) && LikeKey(st, o, k, unread) && LikePorts(st, o, unread)
  }

  lemma LostMore(st: State, p: Path, cut: bool, inMatch: bool, k: string, files: nat)
    ensures var next := PassOver(st.(files := files), p, cut, inMatch);
            (Lost(next, k) <==> Lost(st, k) || (!inMatch && !st.blocked && k !in st.values)) &&
            (PortsLost(next) <==> PortsLost(st) || (!inMatch && !st.blocked && |st.ports| < MAX_PORTS))
  {
    var next := PassOver(st.(files := files), p, cut, inMatch);
    if !inMatch {
      var x := Passed(p, cut, st.values.Keys, st.blocked, |st.ports|);
      assert next.passed == st.passed + [x] && next.passed[|st.passed|] == x;
      forall i | 0 <= i < |st.passed| ensures next.passed[i] == st.passed[i] {
      }
    }
  }

  /** Passing over, while the ideal run reads on, or finds that there is nothing it may read. */
  lemma PassOverLike(st: State, o: State, o2: State, p: Path, cut: bool, inMatch: bool, k: string, unread: bool,
                     files: nat)
    requires Like(st, o, k, unread) && Grows(o, o2, inMatch) && Valid(o2) && k in Defaults()
    requires unread && !inMatch ==> o2.blocked && o2.values == o.values && (!o.blocked ==> o2.early == |o.ports|)
    ensures Like(PassOver(st.(files := files), p, cut, inMatch), o2, k, unread)
  {
    hide Defaults, Lost, PortsLost;
    KeywordIsNoPort(k);
    LostMore(st, p, cut, inMatch, k, files);
  }

  lemma KeywordIsNoPort(k: string)
    requires k in Defaults()
    ensures k != "port"
  {
    PortIsNoKeyword();
  }

  lemma LostLater(st: State, next: State, k: string)
    requires KeepsRecord(st, next) && k != "port"
    ensures Lost(st, k) ==> Lost(next, k)
    ensures PortsLost(st) ==> PortsLost(next)
    ensures Lost(next, k) && !Lost(st, k) ==> !st.blocked && k !in st.values
    ensures PortsLost(next) && !PortsLost(st) ==> !st.blocked && |st.ports| < MAX_PORTS
  {
    assert forall i | 0 <= i < |st.passed| :: next.passed[i] == st.passed[i];
  }

  /** What a cut file's last fragment does once the ideal run has stopped reading the file. */
  lemma TailLike(st: State, next: State, o: State, inMatch: bool, k: string, unread: bool)
    requires Like(st, o, k, unread) && Grows(st, next, inMatch) && Valid(next) && k in Defaults()
    requires !inMatch ==>
             (Lost(st, k) || st.blocked || k in st.values) && (PortsLost(st) || st.blocked || |st.ports| == MAX_PORTS)
    ensures Like(next, o, k, unread)
  {
    hide Defaults, Lost, PortsLost;
    KeywordIsNoPort(k);
    LostLater(st, next, k);
    if inMatch {
      SamePassed(st, next, k);
    }
  }

  lemma SamePassed(st: State, next: State, k: string)
    requires st.passed == next.passed
    ensures Lost(st, k) == Lost(next, k) && PortsLost(st) == PortsLost(next)
  {
  }

  lemma BothCannotRead(st: State, o: State, p: Path, inMatch: bool, k: string, unread: bool)
    requires Like(st, o, k, unread)
    ensures Like(CannotRead(st, p, inMatch), CannotRead(o, p, inMatch), k, unread)
  {
    hide Defaults, Lost, PortsLost, Valid;
    CannotReadValid(st, p, inMatch);
    CannotReadValid(o, p, inMatch);
    SamePassed(st, CannotRead(st, p, inMatch), k);
  }

  lemma BothTouch(st: State, o: State, p: Path, k: string, unread: bool)
    requires Like(st, o, k, unread)
    ensures Like(st.(files := st.files + 1, touched := st.touched + {p}),
                 o.(files := o.files + 1, touched := o.touched + {p}), k, unread)
  {
    hide Defaults, Lost, PortsLost;
    SamePassed(st, st.(files := st.files + 1, touched := st.touched + {p}), k);
  }

  lemma BothApply(st: State, o: State, line: Line, inMatch: bool, at: Where, k: string, unread: bool)
    requires Like(st, o, k, unread) && k in Defaults()
    ensures Like(Apply(st, line, inMatch, at), Apply(o, line, inMatch, at), k, unread)
  {
    hide Defaults, Lost, PortsLost, Valid, PortOf, Apply, LikeKey, LikePorts;
    ApplyValid(st, line, inMatch, at);
    ApplyValid(o, line, inMatch, at);
    BothApplyKey(st, o, line, inMatch, at, k, unread);
    BothApplyPorts(st, o, line, inMatch, at, unread);
  }

  lemma BothApplyKey(st: State, o: State, line: Line, inMatch: bool, at: Where, k: string, unread: bool)
    requires Valid(st) && Valid(o) && LikeKey(st, o, k, unread) && k in Defaults()
    ensures LikeKey(Apply(st, line, inMatch, at), Apply(o, line, inMatch, at), k, unread)
  {
    hide Defaults, Lost, Valid, PortOf, Apply;
    KeywordIsNoPort(k);
    ApplySets(st, line, inMatch, at);
    ApplySets(o, line, inMatch, at);
    ApplyPasses(st, line, inMatch, at);
    SamePassed(st, Apply(st, line, inMatch, at), k);
  }

  lemma ApplyPasses(st: State, line: Line, inMatch: bool, at: Where)
    ensures Apply(st, line, inMatch, at).passed == st.passed
  {
    hide Defaults, PortOf;
  }

  lemma BothApplyPorts(st: State, o: State, line: Line, inMatch: bool, at: Where, unread: bool)
    requires Valid(st) && Valid(o) && LikePorts(st, o, unread)
    ensures LikePorts(Apply(st, line, inMatch, at), Apply(o, line, inMatch, at), unread)
  {
    hide Defaults, PortsLost, Valid, PortOf, Apply;
    var x := Scoped(line, inMatch, at);
    ApplyHears(st, x);
    ApplyHears(o, x);
    ApplyPasses(st, line, inMatch, at);
    SamePassed(st, Apply(st, line, inMatch, at), "");
    ValidMeans(st);
  }

  // ---- the two runs ---------------------------------------------------------------------------------------------

  /** Everything this state has touched is among the files remembered, and what it passed over is not, if so wanted. */
  ghost predicate Within(st: State, files: set<Path>, unread: bool) {
    st.touched <= files &&
      (unread ==> forall i | 0 <= i < |st.passed| :: st.passed[i].cut || st.passed[i].path !in files)
  }

  lemma WithinBefore(st: State, next: State, files: set<Path>, unread: bool)
    requires Within(next, files, unread) && KeepsRecord(st, next)
    ensures Within(st, files, unread)
  {
    assert forall i | 0 <= i < |st.passed| :: next.passed[i] == st.passed[i];
  }

  lemma SameExpand(d: Disk, files: set<Path>, t: Target)
    ensures Expand(Remember(d, files), t) == Expand(d, t)
  {
    forall glob, names, folder ensures Matching(Remember(d, files), folder, glob, names)
      == Matching(d, folder, glob, names) {
      SameMatching(d, files, folder, glob, names);
    }
  }

  lemma {:induction false} SameMatching(d: Disk, files: set<Path>, folder: Path, glob: string, names: seq<string>)
    ensures Matching(Remember(d, files), folder, glob, names) == Matching(d, folder, glob, names)
  {
    if names != [] {
      SameMatching(d, files, folder, glob, names[1..]);
    }
  }

  lemma Remembered(d: Disk, files: set<Path>, p: Path)
    ensures p in files ==> Open(Remember(d, files), p) == AsRead(Open(d, p))
    ensures p !in files ==> Open(Remember(d, files), p) == Closed
  {
  }

  lemma {:induction false} FileLike(d: Disk, files: set<Path>, p: Path, inMatch: bool, depth: nat, st: State, o: State,
                                    k: string, unread: bool)
    requires depth <= MAX_DEPTH && k in Defaults() && Like(st, o, k, unread)
    requires Within(RunFile(d, LIMIT, p, inMatch, depth, st), files, unread)
    ensures Like(RunFile(d, LIMIT, p, inMatch, depth, st), RunFile(Remember(d, files), NO_LIMIT, p, inMatch, depth, o),
                 k, unread)
    decreases MAX_DEPTH - depth, 3, 0
  {
    hide Like, Grows, RunLines, Ends, CannotRead, PassOver, Defaults, Within, Remember;
    var m := Remember(d, files);
    Remembered(d, files, p);
    LikeValid(st, o, k, unread);
    FileValid(m, NO_LIMIT, p, inMatch, depth, o);
    if Past(LIMIT, st.files + 1) {
      var o2 := RunFile(m, NO_LIMIT, p, inMatch, depth, o);
      FileGrows(m, NO_LIMIT, p, inMatch, depth, o);
      if unread && !inMatch {
        PassedIsUnread(st, p, files);
        BlockedThere(o.(files := o.files + 1, touched := o.touched + {p}), p);
      }
      PassOverLike(st, o, o2, p, false, inMatch, k, unread, st.files + 1);
    } else {
      var next := st.(files := st.files + 1, touched := st.touched + {p});
      var onext := o.(files := o.files + 1, touched := o.touched + {p});
      BothTouch(st, o, p, k, unread);
      var all := RunFile(d, LIMIT, p, inMatch, depth, st);
      assert p in files by { FileTouches(d, p, inMatch, depth, st); WithinTouches(all, files, unread, p); }
      match Open(d, p)
      case Closed => BothCannotRead(next, onext, p, inMatch, k, unread);
      case Whole(lines) => LinesLike(d, files, p, lines, 1, inMatch, depth, next, onext, k, unread);
      case Torn(lines) =>
        var read, ends := RunLines(d, LIMIT, p, lines, 1, inMatch, depth, next), Ends(lines, inMatch);
        CannotReadGrows(read, p, ends);
        WithinGrows(read, all, files, unread, ends);
        LinesLike(d, files, p, lines, 1, inMatch, depth, next, onext, k, unread);
        BothCannotRead(read, RunLines(m, NO_LIMIT, p, lines, 1, inMatch, depth, onext), p, ends, k, unread);
      case Cut(lines, tail) =>
        CutLike(d, files, p, lines, tail, inMatch, depth, next, onext, k, unread);
    }
  }

  lemma {:induction false} CutLike(d: Disk, files: set<Path>, p: Path, lines: seq<Line>, tail: seq<Line>,
                                   inMatch: bool, depth: nat, st: State, o: State, k: string, unread: bool)
    requires depth <= MAX_DEPTH && k in Defaults() && Like(st, o, k, unread)
    requires var passed := PassOver(RunLines(d, LIMIT, p, lines, 1, inMatch, depth, st), p, true, Ends(lines, inMatch));
             Within(RunLines(d, LIMIT, p, tail, 1 + |lines|, Ends(lines, inMatch), depth, passed), files, unread)
    ensures var ends := Ends(lines, inMatch);
            var passed := PassOver(RunLines(d, LIMIT, p, lines, 1, inMatch, depth, st), p, true, ends);
            Like(RunLines(d, LIMIT, p, tail, 1 + |lines|, ends, depth, passed),
                 CannotRead(RunLines(Remember(d, files), NO_LIMIT, p, lines, 1, inMatch, depth, o), p, ends), k, unread)
    decreases MAX_DEPTH - depth, 2, |lines| + 1
  {
    hide Like, Grows, RunLines, Ends, CannotRead, PassOver, Defaults, Within, Remember;
    var ends := Ends(lines, inMatch);
    var read := RunLines(d, LIMIT, p, lines, 1, inMatch, depth, st);
    var oread := RunLines(Remember(d, files), NO_LIMIT, p, lines, 1, inMatch, depth, o);
    var passed := PassOver(read, p, true, ends);
    var all := RunLines(d, LIMIT, p, tail, 1 + |lines|, ends, depth, passed);
    PassOverGrows(read, p, true, ends, read.files);
    LinesGrow(d, LIMIT, p, tail, 1 + |lines|, ends, depth, passed);
    WithinGrows(passed, all, files, unread, ends);
    WithinGrows(read, passed, files, unread, ends);
    LinesLike(d, files, p, lines, 1, inMatch, depth, st, o, k, unread);
    LikeValid(read, oread, k, unread);
    CannotReadGrows(oread, p, ends);
    CannotReadValid(oread, p, ends);
    BlockedThere(oread, p);
    PassOverLike(read, oread, CannotRead(oread, p, ends), p, true, ends, k, unread, read.files);
    LikeValid(passed, CannotRead(oread, p, ends), k, unread);
    LinesValid(d, LIMIT, p, tail, 1 + |lines|, ends, depth, passed);
    PassedDecides(read, p, ends, k);
    TailLike(passed, all, CannotRead(oread, p, ends), ends, k, unread);
  }

  lemma PassedDecides(st: State, p: Path, inMatch: bool, k: string)
    requires Valid(st)
    ensures var next := PassOver(st, p, true, inMatch);
            !inMatch ==>
              (Lost(next, k) || next.blocked || k in next.values) &&
              (PortsLost(next) || next.blocked || |next.ports| == MAX_PORTS)
  {
    hide Lost, PortsLost, Defaults;
    LostMore(st, p, true, inMatch, k, st.files);
  }

  lemma LikeValid(st: State, o: State, k: string, unread: bool)
    requires Like(st, o, k, unread)
    ensures Valid(st) && Valid(o)
  {
  }

  lemma BlockedThere(o: State, p: Path)
    ensures var next := CannotRead(o, p, false);
            next.blocked && next.values == o.values && (!o.blocked ==> next.early == |o.ports|)
  {
  }

  lemma PassedIsUnread(st: State, p: Path, files: set<Path>)
    requires Within(PassOver(st.(files := st.files + 1), p, false, false), files, true)
    ensures p !in files
  {
    var next := PassOver(st.(files := st.files + 1), p, false, false);
    assert next.passed[|st.passed|].path == p;
  }

  lemma WithinTouches(st: State, files: set<Path>, unread: bool, p: Path)
    requires Within(st, files, unread) && p in st.touched
    ensures p in files
  {
  }

  lemma FileTouches(d: Disk, p: Path, inMatch: bool, depth: nat, st: State)
    requires depth <= MAX_DEPTH && !Past(LIMIT, st.files + 1)
    ensures p in RunFile(d, LIMIT, p, inMatch, depth, st).touched
  {
    hide RunLines, Ends;
    var next := st.(files := st.files + 1, touched := st.touched + {p});
    if !Open(d, p).Closed? {
      var lines := Open(d, p).lines;
      LinesGrow(d, LIMIT, p, lines, 1, inMatch, depth, next);
      if Open(d, p).Cut? {
        var passed := PassOver(RunLines(d, LIMIT, p, lines, 1, inMatch, depth, next), p, true, Ends(lines, inMatch));
        LinesGrow(d, LIMIT, p, Open(d, p).tail, 1 + |lines|, Ends(lines, inMatch), depth, passed);
      }
    }
  }

  lemma WithinGrows(st: State, next: State, files: set<Path>, unread: bool, inMatch: bool)
    requires Within(next, files, unread) && Grows(st, next, inMatch)
    ensures Within(st, files, unread)
  {
    WithinBefore(st, next, files, unread);
  }

  lemma {:induction false} LinesLike(d: Disk, files: set<Path>, p: Path, lines: seq<Line>, n: nat, inMatch: bool,
                                     depth: nat, st: State, o: State, k: string, unread: bool)
    requires depth <= MAX_DEPTH && k in Defaults() && Like(st, o, k, unread)
    requires Within(RunLines(d, LIMIT, p, lines, n, inMatch, depth, st), files, unread)
    ensures Like(RunLines(d, LIMIT, p, lines, n, inMatch, depth, st),
                 RunLines(Remember(d, files), NO_LIMIT, p, lines, n, inMatch, depth, o), k, unread)
    decreases MAX_DEPTH - depth, 2, |lines|
  {
    hide Like, Grows, RunArgs, Apply, Defaults, Within, Remember;
    var m := Remember(d, files);
    if lines != [] {
      var line, rest := lines[0], lines[1..];
      var later := inMatch || line.keyword == "match";
      if line.keyword == "include" && depth < MAX_DEPTH {
        var next := RunArgs(d, LIMIT, line.args, inMatch, depth, st);
        LinesGrow(d, LIMIT, p, rest, n + 1, inMatch, depth, next);
        WithinGrows(next, RunLines(d, LIMIT, p, rest, n + 1, inMatch, depth, next), files, unread, inMatch);
        ArgsLike(d, files, line.args, inMatch, depth, st, o, k, unread);
        LinesLike(d, files, p, rest, n + 1, inMatch, depth, next, RunArgs(m, NO_LIMIT, line.args, inMatch, depth, o),
                  k, unread);
      } else if line.keyword == "match" || line.keyword == "include" {
        LinesLike(d, files, p, rest, n + 1, later, depth, st, o, k, unread);
      } else {
        BothApply(st, o, line, inMatch, Where(p, n), k, unread);
        LinesLike(d, files, p, rest, n + 1, inMatch, depth, Apply(st, line, inMatch, Where(p, n)),
                  Apply(o, line, inMatch, Where(p, n)), k, unread);
      }
    }
  }

  lemma {:induction false} ArgsLike(d: Disk, files: set<Path>, args: seq<string>, inMatch: bool, depth: nat, st: State,
                                    o: State, k: string, unread: bool)
    requires depth < MAX_DEPTH && k in Defaults() && Like(st, o, k, unread)
    requires Within(RunArgs(d, LIMIT, args, inMatch, depth, st), files, unread)
    ensures Like(RunArgs(d, LIMIT, args, inMatch, depth, st),
                 RunArgs(Remember(d, files), NO_LIMIT, args, inMatch, depth, o), k, unread)
    decreases MAX_DEPTH - depth, 1, |args|
  {
    hide Like, Grows, RunPaths, CannotRead, Expand, Defaults, Within;
    var m := Remember(d, files);
    if args != [] {
      var t := d.resolve(args[0]);
      var (paths, denied) := Expand(d, t);
      SameExpand(d, files, t);
      var next := if denied then CannotRead(st, t.folder, inMatch) else st;
      var onext := if denied then CannotRead(o, t.folder, inMatch) else o;
      BothCannotRead(st, o, t.folder, inMatch, k, unread);
      var read, oread := RunPaths(d, LIMIT, paths, inMatch, depth, next),
        RunPaths(m, NO_LIMIT, paths, inMatch, depth, onext);
      ArgsGrow(d, LIMIT, args[1..], inMatch, depth, read);
      WithinGrows(read, RunArgs(d, LIMIT, args[1..], inMatch, depth, read), files, unread, inMatch);
      PathsLike(d, files, paths, inMatch, depth, next, onext, k, unread);
      ArgsLike(d, files, args[1..], inMatch, depth, read, oread, k, unread);
    }
  }

  lemma {:induction false} PathsLike(d: Disk, files: set<Path>, paths: seq<Path>, inMatch: bool, depth: nat, st: State,
                                     o: State, k: string, unread: bool)
    requires depth < MAX_DEPTH && k in Defaults() && Like(st, o, k, unread)
    requires Within(RunPaths(d, LIMIT, paths, inMatch, depth, st), files, unread)
    ensures Like(RunPaths(d, LIMIT, paths, inMatch, depth, st),
                 RunPaths(Remember(d, files), NO_LIMIT, paths, inMatch, depth, o), k, unread)
    decreases MAX_DEPTH - depth, 0, |paths|
  {
    hide Like, Grows, RunFile, Defaults, Within, Remember;
    var m := Remember(d, files);
    if paths != [] {
      var next, onext := RunFile(d, LIMIT, paths[0], inMatch, depth + 1, st),
        RunFile(m, NO_LIMIT, paths[0], inMatch, depth + 1, o);
      PathsGrow(d, LIMIT, paths[1..], inMatch, depth, next);
      WithinGrows(next, RunPaths(d, LIMIT, paths[1..], inMatch, depth, next), files, unread, inMatch);
      FileLike(d, files, paths[0], inMatch, depth + 1, st, o, k, unread);
      PathsLike(d, files, paths[1..], inMatch, depth, next, onext, k, unread);
    }
  }

  // ---- the theorems ---------------------------------------------------------------------------------------------

  /** No file that was read is passed over later. */
  ghost predicate Unread(d: Disk) {
    forall i | 0 <= i < |Final(d).passed| :: Final(d).passed[i].cut || Final(d).passed[i].path !in Final(d).touched
  }

  lemma FinalLike(d: Disk, k: string)
    requires k in Defaults()
    ensures Like(Final(d), Ideal(d), k, Unread(d))
  {
    hide RunFile, Defaults;
    assert Within(Final(d), Final(d).touched, Unread(d));
    FileLike(d, Final(d).touched, MAIN, false, 0, EMPTY, EMPTY, k, Unread(d));
  }

  /**
   A keyword for which nothing was passed over while it was neither set nor blocked is answered as without limits: for
   every disk and every configuration that agrees with what was read, the report is right about it.
   */
  lemma KnownAnswersAreTrue(d: Disk, truth: Truth, k: string)
    requires k in Defaults() && Possible(d, truth) && !Lost(Final(d), k)
    ensures Valid(Final(d)) && Valid(Ideal(d)) && Resolve(Final(d), k) == Resolve(Ideal(d), k)
    ensures Holds(k, Resolve(Final(d), k), Says(d, truth))
  {
    hide RunFile, Defaults, Lost, Possible, Says;
    StatesValid(d);
    FinalLike(d, k);
    IdealHolds(d, truth, k);
  }

  /**
   Where no file that was read is passed over later, the guard is exact: an answer always holds if and only if it is
   "unknown", or nothing was passed over while the keyword was neither set nor blocked.
   */
  lemma PassedOverIff(d: Disk, k: string)
    requires k in Defaults() && Unread(d)
    ensures Valid(Final(d))
    ensures (forall truth | Possible(d, truth) :: Holds(k, Resolve(Final(d), k), Says(d, truth))) <==>
              Resolve(Final(d), k) == Unknown || !Lost(Final(d), k)
  {
    hide RunFile, Defaults, Lost, Possible, Says;
    StatesValid(d);
    FinalLike(d, k);
    AnswerHoldsIff(d, k);
  }

  lemma KnownPortsAreTrue(d: Disk, truth: Truth)
    requires Possible(d, truth) && !PortsLost(Final(d))
    ensures Valid(Final(d)) && PortsHold(ResolvePorts(Final(d)), Says(d, truth))
  {
    hide RunFile, PortsLost, Possible, Says;
    StatesValid(d);
    FinalLike(d, KBD);
    IdealPortsHold(d, truth);
  }

  /** The same for the ports: what counts is whether one could still have been added. */
  lemma PassedOverPortsIff(d: Disk)
    requires Unread(d)
    ensures Valid(Final(d))
    ensures (forall truth | Possible(d, truth) :: PortsHold(ResolvePorts(Final(d)), Says(d, truth))) <==>
              ResolvePorts(Final(d)) == UnknownPorts || !PortsLost(Final(d))
  {
    hide RunFile, PortsLost, Possible, Says;
    StatesValid(d);
    FinalLike(d, KBD);
    PortsHoldIff(d);
  }

  // ---- examples -------------------------------------------------------------------------------------------------

  function Repeat(s: string, n: nat): seq<string> {
    if n == 0 then [] else [s] + Repeat(s, n - 1)
  }

  /** A configuration that includes these: "a" is empty, and "b" turns passwords off. */
  function Including(args: seq<string>): Disk {
    Disk(map[MAIN := Whole([Line("include", args)]),
             "a" := Whole([]),
             "b" := Whole([Line("passwordauthentication", ["no"])])],
         {MAIN, "a", "b"}, map[], s => Single("", s), (_, _) => false)
  }

  /** Reading the empty file costs one of the files that may be read; past the last it is passed over. */
  lemma VisitOne(d: Disk, limit: Limit, p: Path, later: seq<string>, st: State)
    requires p in d.present && d.resolve(p) == Single("", p) && (Past(limit, st.files + 1) || Open(d, p) == Whole([]))
    ensures RunArgs(d, limit, [p] + later, false, 0, st) ==
              RunArgs(d, limit, later, false, 0,
                      if Past(limit, st.files + 1) then PassOver(st.(files := st.files + 1), p, false, false)
                      else st.(files := st.files + 1, touched := st.touched + {p}))
  {
    var args, next := [p] + later, RunFile(d, limit, p, false, 1, st);
    assert next == if Past(limit, st.files + 1) then PassOver(st.(files := st.files + 1), p, false, false)
                   else st.(files := st.files + 1, touched := st.touched + {p});
    hide RunArgs, RunFile, PassOver;
    assert args[0..] == args && args[1..] == later && [p][0..] == [p] && [p][1..] == [];
    ArgsStep(d, limit, args, 0, false, 0, st);
    assert Expand(d, d.resolve(args[0])) == ([p], false);
    PathsStep(d, limit, [p], 0, false, 0, st);
    assert RunPaths(d, limit, [p], false, 0, st) == RunPaths(d, limit, [p][1..], false, 0, next) == next;
    NoPaths(d, limit, false, 0, next);
  }

  lemma {:induction false} VisitMany(d: Disk, limit: Limit, n: nat, later: seq<string>, st: State)
    requires "a" in d.present && d.resolve("a") == Single("", "a") && Open(d, "a") == Whole([])
    requires !Past(limit, st.files + n) && "a" in st.touched
    ensures RunArgs(d, limit, Repeat("a", n) + later, false, 0, st)
            == RunArgs(d, limit, later, false, 0, st.(files := st.files + n))
    decreases n
  {
    hide RunArgs;
    if n == 0 {
      assert Repeat("a", n) + later == later;
    } else {
      assert Repeat("a", n) + later == ["a"] + (Repeat("a", n - 1) + later);
      VisitOne(d, limit, "a", Repeat("a", n - 1) + later, st);
      assert st.touched + {"a"} == st.touched;
      VisitMany(d, limit, n - 1, later, st.(files := st.files + 1));
    }
  }

  lemma MainRun(d: Disk, limit: Limit, args: seq<string>)
    requires Open(d, MAIN) == Whole([Line("include", args)]) && !Past(limit, 1)
    ensures RunFile(d, limit, MAIN, false, 0, EMPTY)
            == RunArgs(d, limit, args, false, 0, EMPTY.(files := 1, touched := {MAIN}))
  {
    hide RunArgs;
    var lines := [Line("include", args)];
    assert lines[1..] == [];
    var st := EMPTY.(files := 1, touched := {MAIN});
    assert EMPTY.touched + {MAIN} == {MAIN};
    assert RunLines(d, limit, MAIN, [], 2, false, 0, RunArgs(d, limit, args, false, 0, st))
           == RunArgs(d, limit, args, false, 0, st);
  }

  /** The final state when "a" is included ninety-nine times and then p is passed over. */
  lemma HundredthFile(p: Path)
    requires p == "a" || p == "b"
    ensures Final(Including(["a"] + (Repeat("a", 98) + [p])))
         == EMPTY.(files := 101, touched := {MAIN, "a"}, passed := [Passed(p, false, {}, false, 0)])
  {
    hide RunArgs, RunFile, Repeat;
    var args := ["a"] + (Repeat("a", 98) + [p]);
    var d := Including(args);
    MainRun(d, LIMIT, args);
    VisitOne(d, LIMIT, "a", Repeat("a", 98) + [p], EMPTY.(files := 1, touched := {MAIN}));
    var st := EMPTY.(files := 2, touched := {MAIN, "a"});
    assert {MAIN} + {"a"} == {MAIN, "a"};
    VisitMany(d, LIMIT, 98, [p], st);
    assert [p] + [] == [p];
    VisitOne(d, LIMIT, p, [], st.(files := 100));
    NoPaths(d, LIMIT, false, 0, PassOver(st.(files := 101), p, false, false));
    assert EMPTY.values.Keys == {} && |EMPTY.ports| == 0;
    assert st.passed + [Passed(p, false, {}, false, 0)] == [Passed(p, false, {}, false, 0)];
    assert PassOver(st.(files := 101), p, false, false)
        == EMPTY.(files := 101, touched := {MAIN, "a"}, passed := [Passed(p, false, {}, false, 0)]);
    assert Final(d) == PassOver(st.(files := 101), p, false, false);
  }

  /**
   The limit of a hundred files is not reported: past it a file is passed over in silence. Here every file is readable,
   the report says passwords are accepted, and sshd may well refuse them.
   */
  lemma FileLimitMisleads() returns (truth: Truth)
    ensures var d := Including(["a"] + (Repeat("a", 98) + ["b"]));
            Valid(Final(d)) && Resolve(Final(d), "passwordauthentication") == Default("yes") && Possible(d, truth) &&
            !Holds("passwordauthentication", Default("yes"), Says(d, truth))
  {
    hide RunFile, RunArgs, Repeat, Possible, Says;
    var d, k := Including(["a"] + (Repeat("a", 98) + ["b"])), "passwordauthentication";
    HundredthFile("b");
    assert Missed(Final(d).passed[0], k) && Unread(d);
    PassedOverIff(d, k);
    truth :| Possible(d, truth) && !Holds(k, Default("yes"), Says(d, truth));
  }

  /** Passing over a file that was read before may do no harm: here the same empty one, and the answer always holds. */
  lemma RepeatIsHarmless(truth: Truth)
    ensures var d := Including(["a"] + (Repeat("a", 98) + ["a"]));
            Valid(Final(d)) && Lost(Final(d), "passwordauthentication") &&
            (Possible(d, truth) ==>
             Holds("passwordauthentication", Resolve(Final(d), "passwordauthentication"), Says(d, truth)))
  {
    hide RunFile, RunArgs, Repeat, Possible, Says;
    var args, k := ["a"] + (Repeat("a", 98) + ["a"]), "passwordauthentication";
    var d := Including(args);
    HundredthFile("a");
    assert Missed(Final(d).passed[0], k);
    var m := WasRead(d);
    MainRun(m, NO_LIMIT, args);
    var st := EMPTY.(files := 2, touched := {MAIN, "a"});
    VisitOne(m, NO_LIMIT, "a", Repeat("a", 98) + ["a"], EMPTY.(files := 1, touched := {MAIN}));
    assert {MAIN} + {"a"} == {MAIN, "a"};
    VisitMany(m, NO_LIMIT, 98, ["a"], st);
    assert ["a"] + [] == ["a"];
    VisitOne(m, NO_LIMIT, "a", [], st.(files := 100));
    NoPaths(m, NO_LIMIT, false, 0, st.(files := 101, touched := st.touched + {"a"}));
    AnswerHoldsIff(d, k);
  }

  /** A file longer than is read ends in silence, and the rest may set anything. */
  lemma SizeLimitMisleads() returns (truth: Truth)
    ensures var d := Including([]).(files := map[MAIN := Cut([], [])]);
            Valid(Final(d)) && Resolve(Final(d), "passwordauthentication") == Default("yes") && Possible(d, truth) &&
            !Holds("passwordauthentication", Default("yes"), Says(d, truth))
  {
    var d, k := Including([]).(files := map[MAIN := Cut([], [])]), "passwordauthentication";
    var st := EMPTY.(files := 1, touched := {MAIN});
    assert EMPTY.touched + {MAIN} == {MAIN};
    NoLines(d, LIMIT, MAIN, [], 1, false, 0, st);
    assert Final(d) == PassOver(st, MAIN, true, false);
    hide RunFile, Possible, Says;
    assert Missed(Final(d).passed[0], k) && Unread(d);
    PassedOverIff(d, k);
    truth :| Possible(d, truth) && !Holds(k, Default("yes"), Says(d, truth));
  }
}
