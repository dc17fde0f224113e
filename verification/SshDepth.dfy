/** Files that include one another: sshd_config(5) is followed sixteen files deep, and no deeper. */
module SshDepth {
  import opened Options
  import opened SshConfig
  import opened SshSoundness
  import opened SshLimits

  /** The i-th file down. */
  function Down(i: nat): Path {
    if i == 0 then MAIN else seq(i, _ => 'a')
  }

  lemma DownDiffer(i: nat, k: nat)
    ensures Down(i) == Down(k) ==> i == k
  {
    if Down(i) == Down(k) {
      assert |Down(i)| == |Down(k)|;
      if i == 0 || k == 0 {
        assert MAIN[0] != 'a';
      }
    }
  }

  /** Each file includes the next, and the last says that passwords are not accepted. */
  function LinesOf(i: nat, last: nat): seq<Line> {
    if i == last then [Line("passwordauthentication", ["no"])] else [Line("include", [Down(i + 1)])]
  }

  ghost predicate Nested(d: Disk, last: nat) {
    forall i: nat | i <= last ::
      Open(d, Down(i)) == Whole(LinesOf(i, last)) && Down(i) in d.present && d.resolve(Down(i)) == Single("", Down(i))
  }

  /** What the files from the i-th down leave of a state in which nothing is set. */
  ghost predicate Leaves(st: State, next: State, last: nat) {
    !next.blocked &&
    (if last <= 16 then
       "passwordauthentication" in next.values && next.values["passwordauthentication"] == "no" &&
       "passwordauthentication" in next.setIn && next.setIn["passwordauthentication"] == Where(Down(last), 1)
     else next.values == st.values)
  }

  lemma {:induction false} NestedRun(d: Disk, last: nat, i: nat, st: State)
    requires Nested(d, last) && i <= last && i <= MAX_DEPTH && st.files + MAX_DEPTH - i < MAX_FILES
    requires !st.blocked && "passwordauthentication" !in st.values
    ensures Leaves(st, RunFile(d, LIMIT, Down(i), false, i, st), last)
    decreases MAX_DEPTH - i
  {
    hide Nested, Down, Defaults, ValueOf;
    var next := st.(files := st.files + 1, touched := st.touched + {Down(i)});
    NestedAt(d, last, i);
    OneLine(d, i, last, st);
    if i == last {
      SaysNo(next, last);
    } else if i < MAX_DEPTH {
      NestedAt(d, last, i + 1);
      NestedRun(d, last, i + 1, next);
      OneArg(d, Down(i + 1), i, next);
    }
  }

  lemma NestedAt(d: Disk, last: nat, i: nat)
    requires Nested(d, last) && i <= last
    ensures Open(d, Down(i)) == Whole(LinesOf(i, last)) && Down(i) in d.present
    ensures d.resolve(Down(i)) == Single("", Down(i))
  {
  }

  lemma OneArg(d: Disk, p: Path, depth: nat, st: State)
    requires p in d.present && d.resolve(p) == Single("", p) && depth < MAX_DEPTH
    ensures RunArgs(d, LIMIT, [p], false, depth, st) == RunFile(d, LIMIT, p, false, depth + 1, st)
  {
    hide RunArgs, RunFile, RunPaths;
    assert [p][0..] == [p] && [p][1..] == [];
    ArgsStep(d, LIMIT, [p], 0, false, depth, st);
    PathsStep(d, LIMIT, [p], 0, false, depth, st);
    NoPaths(d, LIMIT, false, depth, st);
    NoPaths(d, LIMIT, false, depth, RunFile(d, LIMIT, p, false, depth + 1, st));
  }

  /** The run over the i-th file is what its one line does. */
  lemma OneLine(d: Disk, i: nat, last: nat, st: State)
    requires i <= MAX_DEPTH && i <= last && Open(d, Down(i)) == Whole(LinesOf(i, last)) && st.files < MAX_FILES
    ensures var next := st.(files := st.files + 1, touched := st.touched + {Down(i)});
            RunFile(d, LIMIT, Down(i), false, i, st) ==
              if i == last then Apply(next, Line("passwordauthentication", ["no"]), false, Where(Down(i), 1))
              else if i == MAX_DEPTH then next
              else RunArgs(d, LIMIT, [Down(i + 1)], false, i, next)
  {
    hide RunArgs, RunLines, Apply, Down;
    var next := st.(files := st.files + 1, touched := st.touched + {Down(i)});
    var lines := LinesOf(i, last);
    assert lines[0..] == lines && lines[1..] == [];
    LinesStep(d, LIMIT, Down(i), lines, 0, 1, false, i, next);
    NoLines(d, LIMIT, Down(i), [], 2, false, i,
            RunLines(d, LIMIT, Down(i), lines, 1, false, i, next));
    assert forall after: State :: RunLines(d, LIMIT, Down(i), [], 2, false, i, after) == after by {
      forall after: State ensures RunLines(d, LIMIT, Down(i), [], 2, false, i, after) == after {
        NoLines(d, LIMIT, Down(i), [], 2, false, i, after);
      }
    }
  }

  lemma SaysNo(st: State, last: nat)
    requires last <= 16 && !st.blocked && "passwordauthentication" !in st.values
    ensures Leaves(st, Apply(st, Line("passwordauthentication", ["no"]), false, Where(Down(last), 1)), last)
  {
    hide Down;
    assert Lower("no") == "no";
  }

  /** A setting sixteen Includes down is found, and one that is further down is not. */
  lemma SixteenDeep(d: Disk, last: nat)
    requires Nested(d, last)
    ensures Valid(Final(d))
    ensures Resolve(Final(d), "passwordauthentication")
         == if last <= 16 then Known("no", Where(Down(last), 1)) else Default("yes")
  {
    hide RunFile, Nested;
    StatesValid(d);
    NestedRun(d, last, 0, EMPTY);
  }

  /** There is such a disk. */
  lemma NestedDisk(last: nat) returns (d: Disk)
    ensures Nested(d, last)
  {
    var files := FilesTo(last, last);
    d := Disk(files, files.Keys, map[], s => Single("", s), (_, _) => false);
    hide FilesTo, Down, LinesOf;
    forall i: nat | i <= last ensures Down(i) in files && files[Down(i)] == Whole(LinesOf(i, last)) {
      FileAt(last, last, i);
    }
  }

  function FilesTo(n: nat, last: nat): map<Path, Opened> {
    (if n == 0 then map[] else FilesTo(n - 1, last))[Down(n) := Whole(LinesOf(n, last))]
  }

  lemma {:induction false} FileAt(n: nat, last: nat, i: nat)
    requires i <= n
    ensures Down(i) in FilesTo(n, last) && FilesTo(n, last)[Down(i)] == Whole(LinesOf(i, last))
  {
    hide Down, LinesOf;
    DownDiffer(i, n);
    if i < n {
      FileAt(n - 1, last, i);
    }
  }
}
