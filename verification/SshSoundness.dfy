/**
 What the collector's state says of the configuration, when it passes nothing over: it has no limit on files, and every
 file is read to its end or breaks off with an error. The truth is a configuration sshd could be reading: it agrees
 with everything that was read, and says anything at all in the files and folders that were not.
 The rule is sshd_config(5)'s: for each keyword, the first obtained value is used. What the collector's limits change is
 the subject of SshLimits.
 */
module SshSoundness {
  import opened Options
  import opened SshConfig

  /** What sshd reads: every file's lines, and every Include argument's files. */
  datatype Truth = Truth(content: Path -> seq<Line>, listing: Target -> seq<Path>)

  ghost predicate Agrees(d: Disk, truth: Truth, p: Path) {
    match Open(d, p)
    case Whole(lines) => truth.content(p) == lines
    case Cut(lines, _) => lines <= truth.content(p)
    case Torn(lines) => lines <= truth.content(p)
    case Closed => true
  }

  ghost predicate Rising(at: seq<nat>) {
    forall i, j | 0 <= i < j < |at| :: at[i] < at[j]
  }

  /** sshd_config(5)'s patterns: a name that matches, and does not start with a dot. */
  predicate Fitting(d: Disk, glob: string, name: string) {
    d.matches(glob, name) && (name == "" || name[0] != '.')
  }

  /** The places of exactly the names that fit, in the folder's order. */
  ghost predicate Places(d: Disk, glob: string, names: seq<string>, at: seq<nat>) {
    Rising(at) && forall k: nat :: k in at <==> k < |names| && Fitting(d, glob, names[k])
  }

  ghost predicate Named(folder: Path, names: seq<string>, at: seq<nat>, paths: seq<Path>) {
    |at| == |paths| && forall j | 0 <= j < |at| :: at[j] < |names| && paths[j] == folder + "/" + names[at[j]]
  }

  /** The paths are those of exactly the fitting names, in the folder's order. */
  ghost predicate Globbed(d: Disk, folder: Path, glob: string, names: seq<string>, paths: seq<Path>) {
    exists at: seq<nat> :: Places(d, glob, names, at) && Named(folder, names, at, paths)
  }

  /** An Include that may stand for files nobody has seen: its folder may not be listed. */
  predicate Unlisted(d: Disk, t: Target) {
    t.folder in d.folders && d.folders[t.folder] == Barred && (t.Single? ==> t.file !in d.present)
  }

  /**
   The files an Include may stand for, from the disk alone. A path that is there stands for itself. A folder that was
   listed gives the names that fit; one that is missing, nothing; and one that may not be listed, anything.
   */
  ghost predicate MayList(d: Disk, t: Target, paths: seq<Path>) {
    if Unlisted(d, t) then true
    else
      match t
      case Single(_, file) => paths == if file in d.present then [file] else []
      case Pattern(folder, glob) =>
        if folder in d.folders && d.folders[folder].Names? then Globbed(d, folder, glob, d.folders[folder].names, paths)
        else paths == []
  }

  /** The truth agrees with everything on the disk. */
  ghost predicate Completes(d: Disk, truth: Truth) {
    (forall p: Path :: Agrees(d, truth, p)) &&
    (forall t: Target :: MayList(d, t, truth.listing(t)))
  }

  // The collector finds what an Include may stand for.

  /** There is one such list. */
  lemma {:induction false} RisingOnce(a: seq<nat>, b: seq<nat>)
    requires Rising(a) && Rising(b) && forall k: nat :: k in a <==> k in b
    ensures a == b
    decreases |a|
  {
    if a == [] {
      HoldsOne(b);
    } else {
      var m, n := |a| - 1, |b| - 1;
      assert a[m] in b;
      assert b[n] in a;
      forall k: nat ensures k in a[..m] <==> k in b[..n] {
        InFront(a, k);
        InFront(b, k);
      }
      RisingOnce(a[..m], b[..n]);
      assert a == a[..m] + [a[m]] && b == b[..n] + [b[n]];
    }
  }

  lemma HoldsOne(b: seq<nat>)
    ensures b != [] ==> exists k: nat :: k in b
  {
    if b != [] {
      assert b[0] in b;
    }
  }

  lemma InFront(a: seq<nat>, k: nat)
    requires Rising(a) && a != []
    ensures k in a[..|a| - 1] <==> k in a && k != a[|a| - 1]
  {
    var m := |a| - 1;
    if k in a && k != a[m] {
      var i :| 0 <= i < |a| && a[i] == k;
      assert a[..m][i] == k;
    }
    if k in a[..m] {
      var i :| 0 <= i < m && a[..m][i] == k;
      assert a[i] < a[m];
    }
  }

  function Shifted(at: seq<nat>): (r: seq<nat>)
    ensures |r| == |at| && forall i | 0 <= i < |r| :: r[i] == at[i] + 1
  {
    seq(|at|, i requires 0 <= i < |at| => at[i] + 1)
  }

  lemma ShiftedHolds(at: seq<nat>)
    ensures forall k: nat :: k in Shifted(at) <==> k > 0 && k - 1 in at
  {
    forall k: nat ensures k in Shifted(at) <==> k > 0 && k - 1 in at {
      if k > 0 && k - 1 in at {
        var i :| 0 <= i < |at| && at[i] == k - 1;
        assert Shifted(at)[i] == k;
      }
    }
  }

  lemma PlacesCons(d: Disk, glob: string, names: seq<string>, at: seq<nat>)
    requires names != [] && Places(d, glob, names[1..], at)
    ensures Places(d, glob, names, (if Fitting(d, glob, names[0]) then [0] else []) + Shifted(at))
  {
    hide Fitting, Shifted, Rising;
    var first, later := if Fitting(d, glob, names[0]) then [0] else [], Shifted(at);
    RisingCons(at);
    assert [] + later == later;
    ShiftedHolds(at);
    forall k: nat ensures k in first + later <==> k < |names| && Fitting(d, glob, names[k]) {
      if 0 < k < |names| {
        assert names[k] == names[1..][k - 1];
      }
    }
  }

  lemma RisingCons(at: seq<nat>)
    requires Rising(at)
    ensures Rising(Shifted(at)) && Rising([0] + Shifted(at))
  {
  }

  lemma {:induction false} MatchingAt(d: Disk, folder: Path, glob: string, names: seq<string>)
    returns (at: seq<nat>)
    ensures Places(d, glob, names, at) && Named(folder, names, at, Matching(d, folder, glob, names))
  {
    hide Places;
    if names == [] {
      at := [];
      NoPlaces(d, glob);
    } else {
      var later := MatchingAt(d, folder, glob, names[1..]);
      PlacesCons(d, glob, names, later);
      at := (if Fitting(d, glob, names[0]) then [0] else []) + Shifted(later);
    }
  }

  lemma NoPlaces(d: Disk, glob: string)
    ensures Places(d, glob, [], [])
  {
  }

  lemma MatchingIsGlobbed(d: Disk, folder: Path, glob: string, names: seq<string>, paths: seq<Path>)
    ensures Globbed(d, folder, glob, names, paths) <==> paths == Matching(d, folder, glob, names)
  {
    hide Places, Matching;
    var a := MatchingAt(d, folder, glob, names);
    if Globbed(d, folder, glob, names, paths) {
      var b: seq<nat> :| Places(d, glob, names, b) && Named(folder, names, b, paths);
      PlacesOnce(d, glob, names, a, b);
    }
  }

  lemma PlacesOnce(d: Disk, glob: string, names: seq<string>, a: seq<nat>, b: seq<nat>)
    requires Places(d, glob, names, a) && Places(d, glob, names, b)
    ensures a == b
  {
    hide Fitting;
    RisingOnce(a, b);
  }

  /** What the collector makes of an Include is exactly what it may stand for, and it says when it cannot tell. */
  lemma ExpandFinds(d: Disk, t: Target, paths: seq<Path>)
    ensures Expand(d, t).1 <==> Unlisted(d, t)
    ensures !Unlisted(d, t) ==> (MayList(d, t, paths) <==> paths == Expand(d, t).0)
    ensures Unlisted(d, t) ==> Expand(d, t).0 == []
  {
    hide Globbed, Matching;
    if t.Pattern? && t.folder in d.folders && d.folders[t.folder].Names? {
      MatchingIsGlobbed(d, t.folder, t.glob, d.folders[t.folder].names, paths);
    }
  }

  /** A line with where it is and whether it applies only inside a Match block. */
  datatype Scoped = Scoped(line: Line, inMatch: bool, at: Where)

  // The configuration with every Include replaced by what it includes.

  ghost function ExpandedFile(d: Disk, truth: Truth, p: Path, inMatch: bool, depth: nat): seq<Scoped>
    requires depth <= MAX_DEPTH
    decreases MAX_DEPTH - depth, 3, 0
  {
    Expanded(d, truth, p, truth.content(p), 1, inMatch, depth)
  }

  ghost function Expanded(d: Disk, truth: Truth, p: Path, lines: seq<Line>, n: nat, inMatch: bool, depth: nat)
    : seq<Scoped>
    requires depth <= MAX_DEPTH
    decreases MAX_DEPTH - depth, 2, |lines|
  {
    if lines == [] then []
    else
      var line := lines[0];
      if line.keyword == "match" then Expanded(d, truth, p, lines[1..], n + 1, true, depth)
      else if line.keyword == "include" then
        (if depth == MAX_DEPTH then [] else Included(d, truth, line.args, inMatch, depth))
        + Expanded(d, truth, p, lines[1..], n + 1, inMatch, depth)
      else [Scoped(line, inMatch, Where(p, n))] + Expanded(d, truth, p, lines[1..], n + 1, inMatch, depth)
  }

  ghost function Included(d: Disk, truth: Truth, args: seq<string>, inMatch: bool, depth: nat): seq<Scoped>
    requires depth < MAX_DEPTH
    decreases MAX_DEPTH - depth, 1, |args|
  {
    if args == [] then []
    else
      IncludedFiles(d, truth, truth.listing(d.resolve(args[0])), inMatch, depth)
      + Included(d, truth, args[1..], inMatch, depth)
  }

  ghost function IncludedFiles(d: Disk, truth: Truth, paths: seq<Path>, inMatch: bool, depth: nat): seq<Scoped>
    requires depth < MAX_DEPTH
    decreases MAX_DEPTH - depth, 0, |paths|
  {
    if paths == [] then []
    else ExpandedFile(d, truth, paths[0], inMatch, depth + 1) + IncludedFiles(d, truth, paths[1..], inMatch, depth)
  }

  // ---- what the expanded configuration says ---------------------------------------------------------------------

  predicate Sets(x: Scoped, k: string) {
    !x.inMatch && Canonical(x.line.keyword) == k && x.line.args != []
  }

  /** The first line outside Match that gives the keyword a value. */
  function First(s: seq<Scoped>, k: string): (r: Option<Scoped>)
    ensures r.Some? ==> Sets(r.value, k)
  {
    if s == [] then None else if Sets(s[0], k) then Some(s[0]) else First(s[1..], k)
  }

  function PortIn(x: Scoped): Option<int> {
    if !x.inMatch && x.line.keyword == "port" then PortOf(x.line.args) else None
  }

  /** The distinct ports listened on, in the order first written, at most sixteen. */
  function Heard(acc: seq<int>, s: seq<Scoped>): seq<int>
    decreases |s|
  {
    if s == [] then acc
    else
      var n := PortIn(s[0]);
      Heard(if n.Some? && |acc| < MAX_PORTS && n.value !in acc then acc + [n.value] else acc, s[1..])
  }

  function FirstPort(s: seq<Scoped>): Option<Where> {
    if s == [] then None else if PortIn(s[0]).Some? then Some(s[0].at) else FirstPort(s[1..])
  }

  predicate Conditional(x: Scoped, k: string) {
    x.inMatch && Canonical(x.line.keyword) == k && x.line.args != []
  }

  /** The keywords some Match block sets. */
  ghost function ConditionalIn(s: seq<Scoped>): set<string> {
    set k | k in Defaults() && exists i | 0 <= i < |s| :: Conditional(s[i], k)
  }

  lemma {:induction false} FirstAppend(s: seq<Scoped>, t: seq<Scoped>, k: string)
    ensures First(s + t, k) == if First(s, k).Some? then First(s, k) else First(t, k)
  {
    if s == [] {
      assert s + t == t;
    } else {
      assert (s + t)[1..] == s[1..] + t;
      FirstAppend(s[1..], t, k);
    }
  }

  lemma {:induction false} HeardAppend(acc: seq<int>, s: seq<Scoped>, t: seq<Scoped>)
    ensures Heard(acc, s + t) == Heard(Heard(acc, s), t)
    decreases |s|
  {
    if s == [] {
      assert s + t == t;
    } else {
      assert (s + t)[1..] == s[1..] + t;
      var n := PortIn(s[0]);
      HeardAppend(if n.Some? && |acc| < MAX_PORTS && n.value !in acc then acc + [n.value] else acc, s[1..], t);
    }
  }

  lemma {:induction false} FirstPortAppend(s: seq<Scoped>, t: seq<Scoped>)
    ensures FirstPort(s + t) == if FirstPort(s).Some? then FirstPort(s) else FirstPort(t)
  {
    if s == [] {
      assert s + t == t;
    } else {
      assert (s + t)[1..] == s[1..] + t;
      FirstPortAppend(s[1..], t);
    }
  }

  lemma ConditionalAppend(s: seq<Scoped>, t: seq<Scoped>)
    ensures ConditionalIn(s + t) == ConditionalIn(s) + ConditionalIn(t)
  {
    var u := s + t;
    forall k | k in ConditionalIn(s) + ConditionalIn(t) ensures k in ConditionalIn(u) {
      if k in ConditionalIn(s) {
        var i :| 0 <= i < |s| && Conditional(s[i], k);
        assert u[i] == s[i];
      } else {
        var i :| 0 <= i < |t| && Conditional(t[i], k);
        assert u[|s| + i] == t[i];
      }
    }
    forall k | k in ConditionalIn(u) ensures k in ConditionalIn(s) + ConditionalIn(t) {
      var i :| 0 <= i < |u| && Conditional(u[i], k);
      assert if i < |s| then u[i] == s[i] else u[i] == t[i - |s|];
    }
  }

  ghost predicate AllInside(t: seq<Scoped>) {
    forall i | 0 <= i < |t| :: t[i].inMatch
  }

  lemma AllInsideAppend(s: seq<Scoped>, t: seq<Scoped>)
    requires AllInside(s) && AllInside(t)
    ensures AllInside(s + t)
  {
  }

  lemma NothingInside()
    ensures AllInside([])
  {
  }

  lemma OneInside(x: Scoped)
    requires x.inMatch
    ensures AllInside([x])
  {
  }

  /** Nothing inside a Match block has a global effect. */
  lemma {:induction false} AllConditional(t: seq<Scoped>, k: string, acc: seq<int>)
    requires AllInside(t)
    ensures First(t, k) == None && FirstPort(t) == None && Heard(acc, t) == acc
    decreases |t|
  {
    if t != [] {
      AllConditional(t[1..], k, acc);
    }
  }

  // ---- the invariant --------------------------------------------------------------------------------------------

  /** One thing everything unread may say: a line, a line inside Match, or nothing. */
  datatype Filler = Plain(line: Line) | InMatch(line: Line) | Silent

  function Text(f: Filler): seq<Line> {
    match f
    case Plain(line) => [line]
    case InMatch(line) => [Line("match", []), line]
    case Silent => []
  }

  /** A keyword the report is about, with a value; or, as a plain line, a port. */
  predicate Fit(f: Filler) {
    match f
    case Plain(line) => (line.keyword in Defaults() && line.args != []) ||
      (line.keyword == "port" && PortOf(line.args).Some?)
    case InMatch(line) => line.keyword in Defaults() && line.args != []
    case Silent => true
  }

  /**
   A truth in which everything unread says f: every file that could not be read to its end, and one such file in every
   folder that could not be listed.
   */
  ghost predicate Fills(d: Disk, truth: Truth, f: Option<Filler>) {
    f.Some? ==>
      Fit(f.value) &&
      (forall p: Path ::
         (Open(d, p).Closed? ==> truth.content(p) == Text(f.value)) &&
         (Open(d, p).Torn? ==> truth.content(p) == Open(d, p).lines + Text(f.value))) &&
      (forall t: Target :: Unlisted(d, t) ==>
         |truth.listing(t)| == 1 && Open(d, truth.listing(t)[0]).Closed?)
  }

  /** What an unread part says when it says f: its line, if it has one, and whether that is inside Match. */
  ghost predicate Speaks(t: seq<Scoped>, f: Option<Filler>, inMatch: bool) {
    f.Some? ==>
      if f.value.Silent? then t == []
      else |t| == 1 && t[0].line == f.value.line && t[0].inMatch == (inMatch || f.value.InMatch?)
  }

  predicate SaysKeyword(f: Option<Filler>, k: string) {
    f.Some? && f.value.Plain? && f.value.line.keyword == k
  }

  /** When everything unread says f, a keyword left undecided by an unread part has f as its first value. */
  ghost predicate SoundValues(st: State, s: seq<Scoped>, f: Option<Filler>) {
    Valid(st) &&
    (forall k | k in Defaults() && st.blocked && k !in st.values && SaysKeyword(f, k) ::
       First(s, k).Some? && First(s, k).value.line == f.value.line) &&
    (forall k | k in st.values ::
       First(s, k).Some? && st.values[k] == ValueOf(k, First(s, k).value.line.args) &&
         st.setIn[k] == First(s, k).value.at) &&
    (!st.blocked ==> forall k | k in Defaults() && k !in st.values :: First(s, k) == None)
  }

  /** The ports known before anything was unread are the first ones; then, while there is room, f's port is heard. */
  ghost predicate SoundPorts(st: State, s: seq<Scoped>, f: Option<Filler>) {
    Valid(st) &&
    (!st.blocked ==> st.ports == Heard([], s) && (st.portsSet ==> FirstPort(s) == Some(st.setIn["port"]))
                     && (!st.portsSet ==> FirstPort(s) == None)) &&
    (st.blocked ==> st.early <= |st.ports| && st.ports[..st.early] <= Heard([], s) &&
                    (st.early > 0 ==> FirstPort(s) == Some(st.setIn["port"]))) &&
    (SaysKeyword(f, "port") && st.blocked && st.early < MAX_PORTS ==>
       PortOf(f.value.line.args).Some? && PortOf(f.value.line.args).value in Heard([], s))
  }

  ghost predicate SoundMatches(st: State, s: seq<Scoped>, f: Option<Filler>) {
    st.matched <= ConditionalIn(s) &&
    (st.unreadable == [] || f == Some(Silent) ==> st.matched == ConditionalIn(s)) &&
    (f.Some? && f.value.InMatch? && st.unreadable != [] ==> f.value.line.keyword in ConditionalIn(s))
  }

  /** What the collector's state says about the configuration read so far, s. */
  ghost predicate Sound(st: State, s: seq<Scoped>, f: Option<Filler>) {
    SoundValues(st, s, f) && SoundPorts(st, s, f) && SoundMatches(st, s, f)
  }

  lemma KeywordsArePlain(k: string)
    requires k in Defaults()
    ensures k != "port" && k != "match" && k != "include" && Canonical(k) == k
  {
  }

  lemma ApplySound(st: State, s: seq<Scoped>, f: Option<Filler>, x: Scoped)
    requires Sound(st, s, f)
    ensures Sound(Apply(st, x.line, x.inMatch, x.at), s + [x], f)
  {
    hide SoundValues, SoundPorts, SoundMatches, Apply;
    ApplyValues(st, s, f, x);
    ApplyPorts(st, s, f, x);
    ApplyMatches(st, s, f, x);
  }

  lemma ApplyValues(st: State, s: seq<Scoped>, f: Option<Filler>, x: Scoped)
    requires SoundValues(st, s, f)
    ensures SoundValues(Apply(st, x.line, x.inMatch, x.at), s + [x], f)
  {
    hide Defaults, First, Valid, PortOf, Apply;
    ApplyValid(st, x.line, x.inMatch, x.at);
    ValidMeans(st);
    PortIsNoKeyword();
    assert Canonical("port") == "port";
    FirstMore(s, x);
    ApplySets(st, x.line, x.inMatch, x.at);
  }

  /** What a line does to the keywords. */
  lemma ApplySets(st: State, line: Line, inMatch: bool, at: Where)
    ensures var next, k := Apply(st, line, inMatch, at), Canonical(line.keyword);
            next.blocked == st.blocked &&
            (if line.keyword != "port" && k in Defaults() && line.args != [] && !inMatch &&
                k !in st.values && !st.blocked
             then next.values == st.values[k := ValueOf(k, line.args)] && next.setIn == st.setIn[k := at]
             else next.values == st.values &&
                  forall j | j != "port" && j in st.setIn :: j in next.setIn && next.setIn[j] == st.setIn[j])
  {
    hide Defaults, PortOf;
  }

  lemma FirstMore(s: seq<Scoped>, x: Scoped)
    ensures forall k ::
              First(s + [x], k) == if First(s, k).Some? then First(s, k) else if Sets(x, k) then Some(x) else None
  {
    forall k ensures First(s + [x], k) == if First(s, k).Some? then First(s, k)
                                        else if Sets(x, k) then Some(x) else None {
      FirstAppend(s, [x], k);
      assert [x][1..] == [];
    }
  }

  lemma ApplyPorts(st: State, s: seq<Scoped>, f: Option<Filler>, x: Scoped)
    requires SoundPorts(st, s, f)
    ensures SoundPorts(Apply(st, x.line, x.inMatch, x.at), s + [x], f)
  {
    hide Defaults, Heard, FirstPort, Valid, PortOf, Apply;
    ApplyValid(st, x.line, x.inMatch, x.at);
    ValidMeans(st);
    HeardAppend([], s, [x]);
    HeardGrows(Heard([], s), [x]);
    FirstPortAppend(s, [x]);
    OneHeard(Heard([], s), x);
    ApplyHears(st, x);
  }

  lemma ValidMeans(st: State)
    requires Valid(st)
    ensures forall k | k in st.values :: k in st.setIn && k in Defaults()
    ensures st.portsSet <==> st.ports != []
    ensures st.portsSet ==> "port" in st.setIn
    ensures |st.ports| <= MAX_PORTS
  {
  }

  /** What a line does to the ports. */
  lemma ApplyHears(st: State, x: Scoped)
    requires Valid(st)
    ensures var next := Apply(st, x.line, x.inMatch, x.at);
            next.blocked == st.blocked && next.early == st.early &&
            (if PortIn(x).Some?
             then next.portsSet && next.ports == (if |st.ports| < MAX_PORTS && PortIn(x).value !in st.ports
                                                  then st.ports + [PortIn(x).value] else st.ports) &&
                  "port" in next.setIn && next.setIn["port"] == (if st.portsSet then st.setIn["port"] else x.at)
             else next.portsSet == st.portsSet && next.ports == st.ports &&
                  (st.portsSet ==> "port" in next.setIn && next.setIn["port"] == st.setIn["port"]))
  {
    hide Defaults, PortOf;
    PortIsNoKeyword();
    assert Canonical("port") == "port";
  }

  /** Listening goes on from what was heard. */
  lemma {:induction false} HeardGrows(acc: seq<int>, s: seq<Scoped>)
    ensures acc <= Heard(acc, s) && (|acc| <= MAX_PORTS ==> |Heard(acc, s)| <= MAX_PORTS)
    decreases |s|
  {
    if s != [] {
      var n := PortIn(s[0]);
      HeardGrows(if n.Some? && |acc| < MAX_PORTS && n.value !in acc then acc + [n.value] else acc, s[1..]);
    }
  }

  lemma ApplyMatches(st: State, s: seq<Scoped>, f: Option<Filler>, x: Scoped)
    requires SoundMatches(st, s, f)
    ensures SoundMatches(Apply(st, x.line, x.inMatch, x.at), s + [x], f)
  {
    hide Defaults, ConditionalIn, PortOf;
    PortIsNoKeyword();
    ConditionalAppend(s, [x]);
    OneConditional(x);
    assert Canonical("port") == "port";
  }

  lemma OneHeard(acc: seq<int>, x: Scoped)
    ensures Heard(acc, [x])
         == if PortIn(x).Some? && |acc| < MAX_PORTS && PortIn(x).value !in acc then acc + [PortIn(x).value] else acc
    ensures FirstPort([x]) == if PortIn(x).Some? then Some(x.at) else None
  {
    assert [x][1..] == [];
  }

  lemma OneConditional(x: Scoped)
    ensures ConditionalIn([x])
         == if x.inMatch && x.line.args != [] && Canonical(x.line.keyword) in Defaults()
            then {Canonical(x.line.keyword)}
            else {}
  {
    assert [x][0] == x;
    if x.inMatch && x.line.args != [] && Canonical(x.line.keyword) in Defaults() {
      assert Conditional([x][0], Canonical(x.line.keyword));
    }
  }

  /** What could not be read may have said anything, t; if it is inside a Match block, anything conditional. */
  lemma CannotReadSound(st: State, s: seq<Scoped>, f: Option<Filler>, p: Path, inMatch: bool, t: seq<Scoped>)
    requires Sound(st, s, f) && (inMatch ==> AllInside(t)) && Speaks(t, f, inMatch)
    requires f.Some? ==> Fit(f.value)
    ensures Sound(CannotRead(st, p, inMatch), s + t, f)
  {
    hide SoundValues, SoundPorts, SoundMatches, CannotRead;
    CannotReadValues(st, s, f, p, inMatch, t);
    CannotReadPorts(st, s, f, p, inMatch, t);
    CannotReadMatches(st, s, f, p, inMatch, t);
  }

  lemma CannotReadValues(st: State, s: seq<Scoped>, f: Option<Filler>, p: Path, inMatch: bool, t: seq<Scoped>)
    requires SoundValues(st, s, f) && (inMatch ==> AllInside(t)) && Speaks(t, f, inMatch)
    requires f.Some? ==> Fit(f.value)
    ensures SoundValues(CannotRead(st, p, inMatch), s + t, f)
  {
    hide Defaults, First, Valid;
    CannotReadValid(st, p, inMatch);
    forall k ensures First(s + t, k) == if First(s, k).Some? then First(s, k) else First(t, k) {
      FirstAppend(s, t, k);
    }
    if inMatch {
      forall k ensures First(t, k) == None {
        AllConditional(t, k, []);
      }
    } else if f.Some? && f.value.Plain? && f.value.line.keyword in Defaults() {
      KeywordsArePlain(f.value.line.keyword);
      assert First(t, f.value.line.keyword) == Some(t[0]) by {
        assert t == [t[0]];
        FirstMore([], t[0]);
        assert [] + [t[0]] == t;
        FirstNothing(f.value.line.keyword);
      }
    }
  }

  lemma FirstNothing(k: string)
    ensures First([], k) == None
  {
  }

  lemma CannotReadPorts(st: State, s: seq<Scoped>, f: Option<Filler>, p: Path, inMatch: bool, t: seq<Scoped>)
    requires SoundPorts(st, s, f) && (inMatch ==> AllInside(t)) && Speaks(t, f, inMatch)
    requires f.Some? ==> Fit(f.value)
    ensures SoundPorts(CannotRead(st, p, inMatch), s + t, f)
  {
    hide Defaults, Heard, FirstPort, Valid, PortOf;
    CannotReadValid(st, p, inMatch);
    ValidMeans(st);
    HeardAppend([], s, t);
    HeardGrows(Heard([], s), t);
    FirstPortAppend(s, t);
    PortIsNoKeyword();
    if inMatch {
      AllConditional(t, "", Heard([], s));
    } else if SaysKeyword(f, "port") {
      assert t == [t[0]];
      OneHeard(Heard([], s), t[0]);
    }
    if !st.blocked && !inMatch {
      assert st.ports[..|st.ports|] == st.ports;
    }
  }

  lemma CannotReadMatches(st: State, s: seq<Scoped>, f: Option<Filler>, p: Path, inMatch: bool, t: seq<Scoped>)
    requires SoundMatches(st, s, f) && Speaks(t, f, inMatch) && (f.Some? ==> Fit(f.value))
    ensures SoundMatches(CannotRead(st, p, inMatch), s + t, f)
  {
    hide Defaults, ConditionalIn, PortOf;
    ConditionalAppend(s, t);
    if f == Some(Silent) {
      assert s + t == s;
    } else if f.Some? && f.value.InMatch? {
      KeywordsArePlain(f.value.line.keyword);
      OneConditional(t[0]);
      assert t == [t[0]];
    }
  }

  /** A Match block holds to the end of its file, and in every file included from inside it. */
  lemma {:induction false} MatchHolds(d: Disk, truth: Truth, p: Path, lines: seq<Line>, n: nat, depth: nat)
    requires depth <= MAX_DEPTH
    ensures AllInside(Expanded(d, truth, p, lines, n, true, depth))
    decreases MAX_DEPTH - depth, 2, |lines|
  {
    hide AllInside, Included;
    assert AllInside([]) by { NothingInside(); }
    if lines != [] {
      var line, later := lines[0], Expanded(d, truth, p, lines[1..], n + 1, true, depth);
      MatchHolds(d, truth, p, lines[1..], n + 1, depth);
      if line.keyword == "include" {
        if depth < MAX_DEPTH {
          MatchHoldsArgs(d, truth, line.args, depth);
          AllInsideAppend(Included(d, truth, line.args, true, depth), later);
        } else {
          assert [] + later == later;
        }
      } else if line.keyword != "match" {
        OneInside(Scoped(line, true, Where(p, n)));
        AllInsideAppend([Scoped(line, true, Where(p, n))], later);
      }
    }
  }

  lemma {:induction false} MatchHoldsArgs(d: Disk, truth: Truth, args: seq<string>, depth: nat)
    requires depth < MAX_DEPTH
    ensures AllInside(Included(d, truth, args, true, depth))
    decreases MAX_DEPTH - depth, 1, |args|
  {
    if args != [] {
      var paths := truth.listing(d.resolve(args[0]));
      MatchHoldsFiles(d, truth, paths, depth);
      MatchHoldsArgs(d, truth, args[1..], depth);
      AllInsideAppend(IncludedFiles(d, truth, paths, true, depth), Included(d, truth, args[1..], true, depth));
    }
  }

  lemma {:induction false} MatchHoldsFiles(d: Disk, truth: Truth, paths: seq<Path>, depth: nat)
    requires depth < MAX_DEPTH
    ensures AllInside(IncludedFiles(d, truth, paths, true, depth))
    decreases MAX_DEPTH - depth, 0, |paths|
  {
    if paths != [] {
      MatchHolds(d, truth, paths[0], truth.content(paths[0]), 1, depth + 1);
      MatchHoldsFiles(d, truth, paths[1..], depth);
      AllInsideAppend(ExpandedFile(d, truth, paths[0], true, depth + 1),
                      IncludedFiles(d, truth, paths[1..], true, depth));
    }
  }

  lemma {:induction false} ExpandedSplit(d: Disk, truth: Truth, p: Path, lines: seq<Line>, more: seq<Line>, n: nat,
                                         inMatch: bool, depth: nat)
    requires depth <= MAX_DEPTH
    ensures Expanded(d, truth, p, lines + more, n, inMatch, depth)
         == Expanded(d, truth, p, lines, n, inMatch, depth)
            + Expanded(d, truth, p, more, n + |lines|, Ends(lines, inMatch), depth)
    decreases |lines|
  {
    hide Included;
    if lines == [] {
      assert lines + more == more;
    } else {
      assert (lines + more)[1..] == lines[1..] + more;
      ExpandedSplit(d, truth, p, lines[1..], more, n + 1, inMatch || lines[0].keyword == "match", depth);
    }
  }

  /** The lines of f, and nothing else. */
  lemma FillSpeaks(d: Disk, truth: Truth, p: Path, f: Filler, n: nat, inMatch: bool, depth: nat)
    requires depth <= MAX_DEPTH && Fit(f)
    ensures Speaks(Expanded(d, truth, p, Text(f), n, inMatch, depth), Some(f), inMatch)
  {
    assert Expanded(d, truth, p, [], n + 1, inMatch, depth) == [] == Expanded(d, truth, p, [], n + 2, true, depth);
    if !f.Silent? {
      if f.line.keyword in Defaults() {
        KeywordsArePlain(f.line.keyword);
      }
      assert [f.line][1..] == [];
      assert [Line("match", []), f.line][1..] == [f.line];
    }
  }

  lemma FolderSpeaks(d: Disk, truth: Truth, t: Target, f: Filler, inMatch: bool, depth: nat)
    requires depth < MAX_DEPTH && Fills(d, truth, Some(f)) && Unlisted(d, t)
    ensures Speaks(IncludedFiles(d, truth, truth.listing(t), inMatch, depth), Some(f), inMatch)
  {
    var q := truth.listing(t)[0];
    assert truth.listing(t) == [q] && [q][1..] == [];
    assert truth.content(q) == Text(f);
    FillSpeaks(d, truth, q, f, 1, inMatch, depth + 1);
    assert IncludedFiles(d, truth, [], inMatch, depth) == [];
    var inner := ExpandedFile(d, truth, q, inMatch, depth + 1);
    assert inner + [] == inner;
  }

  /** No file of the disk is cut in silence. */
  ghost predicate NoCuts(d: Disk) {
    forall p: Path :: !Open(d, p).Cut?
  }

  // ---- soundness, by the recursion of the run -------------------------------------------------------------------

  lemma {:induction false} FileSound(d: Disk, truth: Truth, p: Path, inMatch: bool, depth: nat, st: State,
                                     s: seq<Scoped>, f: Option<Filler>)
    requires depth <= MAX_DEPTH && NoCuts(d) && Completes(d, truth) && Fills(d, truth, f) && Sound(st, s, f)
    ensures Sound(RunFile(d, NO_LIMIT, p, inMatch, depth, st), s + ExpandedFile(d, truth, p, inMatch, depth), f)
    decreases MAX_DEPTH - depth, 3, 0
  {
    hide Sound, Expanded, RunLines, Ends, MayList, Unlisted;
    var next := st.(files := st.files + 1, touched := st.touched + {p});
    assert Sound(next, s, f) by { FilesDoNotMatter(st, s, f, st.files + 1, st.touched + {p}); }
    assert Agrees(d, truth, p);
    var all := truth.content(p);
    match Open(d, p)
    case Whole(lines) =>
      LinesSound(d, truth, p, lines, 1, inMatch, depth, next, s, f);
    case Closed =>
      if inMatch {
        MatchHolds(d, truth, p, all, 1, depth);
      }
      if f.Some? {
        FillSpeaks(d, truth, p, f.value, 1, inMatch, depth);
      }
      CannotReadSound(next, s, f, p, inMatch, Expanded(d, truth, p, all, 1, inMatch, depth));
    case Torn(lines) =>
      var more := all[|lines|..];
      assert all == lines + more;
      LinesSound(d, truth, p, lines, 1, inMatch, depth, next, s, f);
      var ends := Ends(lines, inMatch);
      var first := Expanded(d, truth, p, lines, 1, inMatch, depth);
      var rest := Expanded(d, truth, p, more, 1 + |lines|, ends, depth);
      ExpandedSplit(d, truth, p, lines, more, 1, inMatch, depth);
      if ends {
        MatchHolds(d, truth, p, more, 1 + |lines|, depth);
      }
      if f.Some? {
        FillSpeaks(d, truth, p, f.value, 1 + |lines|, ends, depth);
      }
      CannotReadSound(RunLines(d, NO_LIMIT, p, lines, 1, inMatch, depth, next), s + first, f, p, ends, rest);
      assert s + (first + rest) == s + first + rest;
  }

  lemma FilesDoNotMatter(st: State, s: seq<Scoped>, f: Option<Filler>, n: nat, touched: set<Path>)
    requires Sound(st, s, f)
    ensures Sound(st.(files := n, touched := touched), s, f)
  {
  }

  lemma {:induction false} LinesSound(d: Disk, truth: Truth, p: Path, lines: seq<Line>, n: nat, inMatch: bool,
                                      depth: nat, st: State, s: seq<Scoped>, f: Option<Filler>)
    requires depth <= MAX_DEPTH && NoCuts(d) && Completes(d, truth) && Fills(d, truth, f) && Sound(st, s, f)
    ensures Sound(RunLines(d, NO_LIMIT, p, lines, n, inMatch, depth, st),
                  s + Expanded(d, truth, p, lines, n, inMatch, depth), f)
    decreases MAX_DEPTH - depth, 2, |lines|
  {
    hide Sound, Completes, Fills, Apply, RunArgs, Included;
    if lines == [] {
      assert s + [] == s;
    } else {
      var line, rest := lines[0], lines[1..];
      if line.keyword == "match" {
        LinesSound(d, truth, p, rest, n + 1, true, depth, st, s, f);
      } else if line.keyword == "include" {
        var later := Expanded(d, truth, p, rest, n + 1, inMatch, depth);
        if depth == MAX_DEPTH {
          LinesSound(d, truth, p, rest, n + 1, inMatch, depth, st, s, f);
          assert [] + later == later;
        } else {
          var inner := Included(d, truth, line.args, inMatch, depth);
          var next := RunArgs(d, NO_LIMIT, line.args, inMatch, depth, st);
          ArgsSound(d, truth, line.args, inMatch, depth, st, s, f);
          LinesSound(d, truth, p, rest, n + 1, inMatch, depth, next, s + inner, f);
          assert s + (inner + later) == s + inner + later;
        }
      } else {
        var x := Scoped(line, inMatch, Where(p, n));
        var later := Expanded(d, truth, p, rest, n + 1, inMatch, depth);
        ApplySound(st, s, f, x);
        LinesSound(d, truth, p, rest, n + 1, inMatch, depth, Apply(st, line, inMatch, Where(p, n)), s + [x], f);
        assert s + ([x] + later) == s + [x] + later;
      }
    }
  }

  lemma {:induction false} ArgsSound(d: Disk, truth: Truth, args: seq<string>, inMatch: bool, depth: nat, st: State,
                                     s: seq<Scoped>, f: Option<Filler>)
    requires depth < MAX_DEPTH && NoCuts(d) && Completes(d, truth) && Fills(d, truth, f) && Sound(st, s, f)
    ensures Sound(RunArgs(d, NO_LIMIT, args, inMatch, depth, st), s + Included(d, truth, args, inMatch, depth), f)
    decreases MAX_DEPTH - depth, 1, |args|
  {
    hide Sound, RunPaths, IncludedFiles, Expand, Unlisted, MayList;
    if args == [] {
      assert s + [] == s;
    } else {
      var t := d.resolve(args[0]);
      var (paths, denied) := Expand(d, t);
      ExpandFinds(d, t, truth.listing(t));
      var inner := IncludedFiles(d, truth, truth.listing(t), inMatch, depth);
      var later := Included(d, truth, args[1..], inMatch, depth);
      if denied {
        // What a folder that cannot be listed holds is anything; what the agent reads of it is nothing.
        if inMatch {
          MatchHoldsFiles(d, truth, truth.listing(t), depth);
        }
        if f.Some? {
          FolderSpeaks(d, truth, t, f.value, inMatch, depth);
        }
        CannotReadSound(st, s, f, t.folder, inMatch, inner);
        var next := CannotRead(st, t.folder, inMatch);
        assert RunPaths(d, NO_LIMIT, paths, inMatch, depth, next) == next by {
          NoPaths(d, NO_LIMIT, inMatch, depth, next);
        }
        ArgsSound(d, truth, args[1..], inMatch, depth, next, s + inner, f);
      } else {
        var next := RunPaths(d, NO_LIMIT, paths, inMatch, depth, st);
        PathsSound(d, truth, paths, inMatch, depth, st, s, f);
        ArgsSound(d, truth, args[1..], inMatch, depth, next, s + inner, f);
      }
      assert s + (inner + later) == s + inner + later;
    }
  }

  lemma {:induction false} PathsSound(d: Disk, truth: Truth, paths: seq<Path>, inMatch: bool, depth: nat, st: State,
                                      s: seq<Scoped>, f: Option<Filler>)
    requires depth < MAX_DEPTH && NoCuts(d) && Completes(d, truth) && Fills(d, truth, f) && Sound(st, s, f)
    ensures Sound(RunPaths(d, NO_LIMIT, paths, inMatch, depth, st), s + IncludedFiles(d, truth, paths, inMatch, depth),
                  f)
    decreases MAX_DEPTH - depth, 0, |paths|
  {
    hide Sound, Completes, Fills, RunFile, ExpandedFile;
    if paths == [] {
      assert s + [] == s;
    } else {
      var next := RunFile(d, NO_LIMIT, paths[0], inMatch, depth + 1, st);
      var inner := ExpandedFile(d, truth, paths[0], inMatch, depth + 1);
      var later := IncludedFiles(d, truth, paths[1..], inMatch, depth);
      FileSound(d, truth, paths[0], inMatch, depth + 1, st, s, f);
      PathsSound(d, truth, paths[1..], inMatch, depth, next, s + inner, f);
      assert s + (inner + later) == s + inner + later;
    }
  }

  // ---- the whole configuration ----------------------------------------------------------------------------------

  ghost function Configuration(d: Disk, truth: Truth): seq<Scoped> {
    ExpandedFile(d, truth, MAIN, false, 0)
  }

  /** Without a limit on files and without silent cuts, the final state is right about the whole configuration. */
  lemma FinalSound(d: Disk, truth: Truth, f: Option<Filler>)
    requires NoCuts(d) && Completes(d, truth) && Fills(d, truth, f)
    ensures Sound(RunFile(d, NO_LIMIT, MAIN, false, 0, EMPTY), Configuration(d, truth), f)
  {
    hide RunFile, ExpandedFile;
    assert Sound(EMPTY, [], f) by { NothingSound(f); }
    FileSound(d, truth, MAIN, false, 0, EMPTY, [], f);
    assert [] + Configuration(d, truth) == Configuration(d, truth);
  }

  lemma NothingSound(f: Option<Filler>)
    ensures Sound(EMPTY, [], f)
  {
    assert ConditionalIn([]) == {};
  }

  /** What the reported list of ports is: distinct, each one written, and complete while there is room. */
  lemma {:induction false} HeardMeaning(acc: seq<int>, s: seq<Scoped>)
    requires |acc| <= MAX_PORTS && forall i, j | 0 <= i < j < |acc| :: acc[i] != acc[j]
    ensures acc <= Heard(acc, s) && |Heard(acc, s)| <= MAX_PORTS
    ensures forall i, j | 0 <= i < j < |Heard(acc, s)| :: Heard(acc, s)[i] != Heard(acc, s)[j]
    ensures forall n | n in Heard(acc, s) && n !in acc :: exists i | 0 <= i < |s| :: PortIn(s[i]) == Some(n)
    ensures |Heard(acc, s)| < MAX_PORTS ==>
              forall i | 0 <= i < |s| && PortIn(s[i]).Some? :: PortIn(s[i]).value in Heard(acc, s)
    decreases |s|
  {
    if s != [] {
      var n := PortIn(s[0]);
      var next := if n.Some? && |acc| < MAX_PORTS && n.value !in acc then acc + [n.value] else acc;
      HeardMeaning(next, s[1..]);
      var all := Heard(acc, s);
      forall m | m in all && m !in acc ensures exists i | 0 <= i < |s| :: PortIn(s[i]) == Some(m) {
        if m in next {
          assert PortIn(s[0]) == Some(m);
        } else {
          var i :| 0 <= i < |s[1..]| && PortIn(s[1..][i]) == Some(m);
          assert PortIn(s[i + 1]) == Some(m);
        }
      }
      if |all| < MAX_PORTS {
        forall i | 0 <= i < |s| && PortIn(s[i]).Some? ensures PortIn(s[i]).value in all {
          if i > 0 {
            assert s[i] == s[1..][i - 1];
          } else {
            assert n.value in next;
          }
        }
      }
    }
  }

  // ---- truths that fill what was not read -----------------------------------------------------------------------

  lemma LongerThanAll(s: set<Path>) returns (n: nat)
    ensures forall p | p in s :: |p| < n
  {
    if s == {} {
      n := 0;
    } else {
      var p :| p in s;
      var m := LongerThanAll(s - {p});
      n := if m > |p| then m else |p| + 1;
    }
  }

  /** What such a truth says in a file, and what it lists. */
  function ContentOf(d: Disk, f: Filler, p: Path): seq<Line> {
    match Open(d, p)
    case Whole(lines) => lines
    case Torn(lines) => lines + Text(f)
    case _ => Text(f)
  }

  function ListingOf(d: Disk, q: Path, t: Target): (r: seq<Path>)
    ensures Unlisted(d, t) ==> r == [q]
  {
    if Unlisted(d, t) then [q] else Expand(d, t).0
  }

  lemma ListingFits(d: Disk, t: Target, q: Path)
    ensures MayList(d, t, ListingOf(d, q, t))
  {
    hide Expand, Globbed;
    ExpandFinds(d, t, Expand(d, t).0);
  }

  lemma ContentFits(d: Disk, f: Filler, truth: Truth, p: Path)
    requires truth.content(p) == ContentOf(d, f, p) && !Open(d, p).Cut?
    ensures Agrees(d, truth, p)
    ensures Open(d, p).Closed? ==> truth.content(p) == Text(f)
    ensures Open(d, p).Torn? ==> truth.content(p) == Open(d, p).lines + Text(f)
  {
  }

  /** A truth in which everything unread says f. */
  lemma Filling(d: Disk, f: Filler) returns (truth: Truth)
    requires Fit(f) && NoCuts(d)
    ensures Completes(d, truth) && Fills(d, truth, Some(f))
  {
    hide MayList, Unlisted, ContentOf, ListingOf, Agrees, Fit, Text;
    var n := LongerThanAll(d.files.Keys);
    var q: Path := seq(n, _ => 'x');
    assert q !in d.files;
    truth := Truth((p: Path) => ContentOf(d, f, p), (t: Target) => ListingOf(d, q, t));
    forall p: Path
      ensures Agrees(d, truth, p)
      ensures Open(d, p).Closed? ==> truth.content(p) == Text(f)
      ensures Open(d, p).Torn? ==> truth.content(p) == Open(d, p).lines + Text(f)
    {
      ContentFits(d, f, truth, p);
    }
    forall t: Target ensures MayList(d, t, truth.listing(t)) {
      ListingFits(d, t, q);
    }
  }
}
