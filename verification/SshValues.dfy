/** What the report says of a setting, letter by letter: its values, the ports, the other name, and the defaults. */
module SshValues {
  import opened Options
  import opened SshConfig
  import opened SshSoundness
  import opened SshLimits
  import P = SshPassedOver

  // ---- ports ----------------------------------------------------------------------------------------------------

  /** What decimal digits are worth, by their places. */
  function Worth(s: string): (n: nat)
    requires forall i | 0 <= i < |s| :: '0' <= s[i] <= '9'
  {
    if s == "" then 0 else 10 * Worth(s[..|s| - 1]) + (s[|s| - 1] as int - '0' as int)
  }

  lemma {:induction false} DigitsAre(s: string)
    ensures Digits(s) <==> forall i | 0 <= i < |s| :: '0' <= s[i] <= '9'
  {
    if s != "" {
      DigitsAre(s[1..]);
      assert forall i | 0 < i < |s| :: s[i] == s[1..][i - 1];
      assert forall i | 0 <= i < |s| - 1 :: s[1..][i] == s[i + 1];
    }
  }

  lemma {:induction false} NumberSnoc(s: string, c: char, acc: nat)
    requires Digits(s) && '0' <= c <= '9'
    ensures Digits(s + [c]) && Number(s + [c], acc) == 10 * Number(s, acc) + (c as int - '0' as int)
  {
    if s == "" {
      assert s + [c] == [c] && [c][1..] == "";
    } else {
      assert (s + [c])[1..] == s[1..] + [c];
      NumberSnoc(s[1..], c, 10 * acc + (s[0] as int - '0' as int));
    }
  }

  lemma {:induction false} NumberIsWorth(s: string)
    requires Digits(s)
    ensures forall i | 0 <= i < |s| :: '0' <= s[i] <= '9'
    ensures Number(s, 0) == Worth(s)
  {
    DigitsAre(s);
    if s != "" {
      var front, c := s[..|s| - 1], s[|s| - 1];
      DigitsAre(front);
      NumberIsWorth(front);
      NumberSnoc(front, c, 0);
      assert s == front + [c];
    }
  }

  /** A number as strconv reads it where a port is wanted: digits, and a plus sign before them if one likes. */
  predicate Spells(s: string, n: int) {
    AreDigits(Unsigned(s), n)
  }

  function Unsigned(s: string): string {
    if s != "" && s[0] == '+' then s[1..] else s
  }

  predicate AreDigits(s: string, n: int) {
    s != "" && (forall i | 0 <= i < |s| :: '0' <= s[i] <= '9') && Worth(s) == n
  }

  /** A Port line names a port exactly when its first argument spells a number from 1 to 65535. */
  lemma PortSays(args: seq<string>, n: int)
    ensures PortOf(args) == Some(n) <==> args != [] && 1 <= n <= 65535 && Spells(args[0], n)
  {
    if args != [] && args[0] != "" {
      var s := args[0];
      if s[0] == '-' {
        MinusSpellsNothing(s, n);
        NotPositive(s[1..]);
      } else {
        PlusOrNone(args, n);
      }
    }
  }

  lemma MinusSpellsNothing(s: string, n: int)
    requires s != "" && s[0] == '-'
    ensures !Spells(s, n)
  {
    FirstDigit(Unsigned(s), n);
  }

  lemma FirstDigit(s: string, n: int)
    ensures AreDigits(s, n) ==> s != "" && '0' <= s[0]
  {
  }

  lemma PlusOrNone(args: seq<string>, n: int)
    requires args != [] && args[0] != "" && args[0][0] != '-'
    ensures PortOf(args) == Some(n) <==> 1 <= n <= 65535 && Spells(args[0], n)
  {
    var s := args[0];
    var body := Unsigned(s);
    DigitsAre(body);
    if Digits(body) {
      NumberIsWorth(body);
    }
  }

  lemma NotPositive(body: string)
    ensures Digits(body) ==> Number(body, 0) >= 0
  {
    if Digits(body) {
      NumberIsWorth(body);
    }
  }

  // ---- values ---------------------------------------------------------------------------------------------------

  /** A letter of the alphabet's capitals as the small one; any other character as it is. */
  predicate Lowered(c: char, r: char) {
    if 'A' <= c <= 'Z' then 'a' <= r <= 'z' && r as int - 'a' as int == c as int - 'A' as int else r == c
  }

  /** What is reported of a keyword is its first argument in small letters, or as much of it as 128 characters hold. */
  lemma ValueSays(k: string, args: seq<string>)
    requires args != [] && k != "authenticationmethods"
    ensures var v := ValueOf(k, args);
            |v| == (if |args[0]| < 128 then |args[0]| else 128) && forall i | 0 <= i < |v| :: Lowered(args[0][i], v[i])
  {
  }

  /** Of the authentication methods, all arguments with a space between each two, up to 128 characters. */
  lemma MethodsSay(args: seq<string>)
    requires args != []
    ensures var v, all := ValueOf("authenticationmethods", args), Spaced(args);
            v == if |all| <= 128 then all else all[..128]
  {
    hide Spaced, Join;
    JoinIsSpaced(args);
  }

  function Spaced(args: seq<string>): string
    requires args != []
  {
    if |args| == 1 then args[0] else Spaced(args[..|args| - 1]) + " " + args[|args| - 1]
  }

  lemma {:induction false} SpacedCons(a: string, args: seq<string>)
    requires args != []
    ensures Spaced([a] + args) == a + " " + Spaced(args)
  {
    var all := [a] + args;
    assert all[|all| - 1] == args[|args| - 1];
    if |args| == 1 {
      assert all[..1] == [a];
    } else {
      assert all[..|all| - 1] == [a] + args[..|args| - 1];
      SpacedCons(a, args[..|args| - 1]);
    }
  }

  lemma {:induction false} JoinIsSpaced(args: seq<string>)
    requires args != []
    ensures Join(args) == Spaced(args)
  {
    if |args| > 1 {
      JoinIsSpaced(args[1..]);
      SpacedCons(args[0], args[1..]);
      assert args == [args[0]] + args[1..];
    }
  }

  // ---- whole reports --------------------------------------------------------------------------------------------

  lemma OneFile(d: Disk, lines: seq<Line>)
    requires Open(d, MAIN) == Whole(lines)
    ensures Final(d) == RunLines(d, LIMIT, MAIN, lines, 1, false, 0, EMPTY.(files := 1, touched := {MAIN}))
    ensures Valid(Final(d))
  {
    hide RunLines;
    StatesValid(d);
    assert EMPTY.touched + {MAIN} == {MAIN};
  }

  /** A configuration that sets nothing is reported by sshd's defaults. */
  lemma DefaultsAreSshds(d: Disk)
    requires Open(d, MAIN) == Whole([])
    ensures Valid(Final(d)) && ResolvePorts(Final(d)) == Standard && Final(d).unreadable == []
    ensures Resolve(Final(d), "passwordauthentication") == Default("yes")
    ensures Resolve(Final(d), "kbdinteractiveauthentication") == Default("yes")
    ensures Resolve(Final(d), "usepam") == Default("no")
    ensures Resolve(Final(d), "authenticationmethods") == Default("any")
    ensures Resolve(Final(d), "permitrootlogin") == Default("prohibit-password")
  {
    OneFile(d, []);
  }

  /** One line that sets a keyword decides it, whatever comes after it. */
  lemma OneLineDecides(d: Disk, line: Line, rest: seq<Line>)
    requires Open(d, MAIN) == Whole([line] + rest) && line.args != []
    requires line.keyword in {"passwordauthentication", "kbdinteractiveauthentication", "usepam",
                              "authenticationmethods", "permitrootlogin"}
    ensures Valid(Final(d)) && line.keyword in Defaults()
    ensures Resolve(Final(d), line.keyword) == Known(ValueOf(line.keyword, line.args), Where(MAIN, 1))
  {
    FirstLineStays(d, line, rest, line.keyword);
  }

  /** The other name sshd has for keyboard-interactive authentication means the same. */
  lemma ChallengeResponse(d: Disk, args: seq<string>, rest: seq<Line>)
    requires Open(d, MAIN) == Whole([Line("challengeresponseauthentication", args)] + rest) && args != []
    ensures Valid(Final(d))
    ensures Resolve(Final(d), "kbdinteractiveauthentication")
         == Known(ValueOf("kbdinteractiveauthentication", args), Where(MAIN, 1))
  {
    FirstLineStays(d, Line("challengeresponseauthentication", args), rest, KBD);
  }

  lemma FirstLineStays(d: Disk, line: Line, rest: seq<Line>, k: string)
    requires Open(d, MAIN) == Whole([line] + rest) && line.args != [] && Canonical(line.keyword) == k && k in Defaults()
    requires line.keyword != "port" && line.keyword != "match" && line.keyword != "include"
    ensures Valid(Final(d)) && Resolve(Final(d), k) == Known(ValueOf(k, line.args), Where(MAIN, 1))
  {
    hide RunLines, Defaults, ValueOf, P.Grows;
    var st := EMPTY.(files := 1, touched := {MAIN});
    var lines := [line] + rest;
    OneFile(d, lines);
    assert lines[0..] == lines && lines[1..] == rest;
    LinesStep(d, LIMIT, MAIN, lines, 0, 1, false, 0, st);
    var next := Apply(st, line, false, Where(MAIN, 1));
    P.LinesGrow(d, LIMIT, MAIN, rest, 2, false, 0, next);
    PortIsNoKeyword();
    StaysKnown(next, Final(d), k);
  }

  lemma StaysKnown(st: State, next: State, k: string)
    requires P.Grows(st, next, false) && k in st.values && k in st.setIn && k != "port"
    ensures k in next.values && next.values[k] == st.values[k] && k in next.setIn && next.setIn[k] == st.setIn[k]
  {
  }
}
