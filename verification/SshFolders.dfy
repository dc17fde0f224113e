/** An Include of files in a folder that may not be listed, and what the report then says. */
module SshFolders {
  import opened Options
  import opened SshConfig
  import opened SshSoundness
  import opened SshLimits
  import opened SshPassedOver

  /** Nothing is decided that was not decided before, and this place is reported. */
  ghost predicate Blocks(st: State, next: State, folder: Path) {
    Valid(next) && next.blocked && ResolvePorts(next) == UnknownPorts &&
    (forall k | k in Defaults() && k !in st.values :: Resolve(next, k) == Unknown) &&
    (|st.unreadable| < MAX_FILES ==> folder in next.unreadable)
  }

  lemma StaysBlocked(st: State, next: State, folder: Path)
    requires Valid(next) && Grows(CannotRead(st, folder, false), next, false)
    ensures Blocks(st, next, folder)
  {
    var barred := CannotRead(st, folder, false);
    if |st.unreadable| < MAX_FILES {
      var m := |st.unreadable|;
      assert barred.unreadable[m] == folder;
      assert next.unreadable[m] == barred.unreadable[m];
    }
  }

  /** Outside Match, after whatever came before and before whatever comes after. */
  lemma UnlistedBlocks(d: Disk, limit: Limit, p: Path, arg: string, rest: seq<Line>, n: nat, depth: nat, st: State)
    requires depth < MAX_DEPTH && Unlisted(d, d.resolve(arg)) && Valid(st)
    ensures Blocks(st, RunLines(d, limit, p, [Line("include", [arg])] + rest, n, false, depth, st),
                   d.resolve(arg).folder)
  {
    hide RunLines, Defaults, Grows, RunArgs, RunPaths, Unlisted, Valid, Expand, CannotRead;
    var lines, folder := [Line("include", [arg])] + rest, d.resolve(arg).folder;
    var barred := CannotRead(st, folder, false);
    ExpandFinds(d, d.resolve(arg), []);
    assert [arg][0..] == [arg] && [arg][1..] == [];
    ArgsStep(d, limit, [arg], 0, false, depth, st);
    NoPaths(d, limit, false, depth, barred);
    assert lines[0..] == lines && lines[1..] == rest;
    LinesStep(d, limit, p, lines, 0, n, false, depth, st);
    LinesGrow(d, limit, p, rest, n + 1, false, depth, barred);
    LinesValid(d, limit, p, lines, n, false, depth, st);
    StaysBlocked(st, RunLines(d, limit, p, lines, n, false, depth, st), folder);
  }

  /**
   A main file that begins with such an Include, as distributions ship it: every setting and the ports are unknown, and
   the folder is listed, whatever else the file says.
   */
  lemma UnlistedFolderIsSaid(d: Disk, arg: string, rest: seq<Line>)
    requires Open(d, MAIN) == Whole([Line("include", [arg])] + rest) && Unlisted(d, d.resolve(arg))
    ensures var st := Final(d);
            Valid(st) && ResolvePorts(st) == UnknownPorts && d.resolve(arg).folder in st.unreadable &&
            forall k | k in Defaults() :: Resolve(st, k) == Unknown
  {
    hide RunLines, Unlisted;
    var st := EMPTY.(files := 1, touched := {MAIN});
    assert EMPTY.touched + {MAIN} == {MAIN};
    UnlistedBlocks(d, LIMIT, MAIN, arg, rest, 1, 0, st);
  }
}
