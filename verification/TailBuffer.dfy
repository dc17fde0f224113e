/**
 internal/jobrun/jobrun.go: the last lines a command wrote, kept while it runs. The command's output arrives in pieces
 of any size; what is kept must not depend on where they were cut.
 */
module TailBuffer {
  import opened Bytes
  import opened Sequences

  const NEWLINE: byte := 10
  const RETURN: byte := 13
  const MAX_LINE: nat := 1024

  // ---- the stream, as lines -------------------------------------------------------------------------------------

  /** The lines a stream has finished. */
  function Lines(s: bytes): seq<bytes> {
    if s == [] then []
    else
      var n := |s| - 1;
      Lines(s[..n]) + if s[n] == NEWLINE then [Rest(s[..n])] else []
  }

  /** The line it has not finished. */
  function Rest(s: bytes): bytes {
    if s == [] then []
    else
      var n := |s| - 1;
      if s[n] == NEWLINE then [] else Rest(s[..n]) + [s[n]]
  }

  function Joined(lines: seq<bytes>): bytes {
    if lines == [] then [] else Joined(lines[..|lines| - 1]) + lines[|lines| - 1] + [NEWLINE]
  }

  lemma JoinedNone()
    ensures Joined([]) == []
  {
  }

  lemma JoinedSnoc(lines: seq<bytes>, l: bytes)
    ensures Joined(lines + [l]) == Joined(lines) + l + [NEWLINE]
  {
    assert (lines + [l])[..|lines|] == lines;
  }

  /** Splitting loses nothing: each line with its newline, then the rest, is the stream, and no line holds one. */
  lemma {:induction false} LinesMakeTheStream(s: bytes)
    ensures Joined(Lines(s)) + Rest(s) == s
    ensures NEWLINE !in Rest(s) && forall i | 0 <= i < |Lines(s)| :: NEWLINE !in Lines(s)[i]
  {
    hide Joined;
    JoinedNone();
    if s != [] {
      var n := |s| - 1;
      var front := s[..n];
      LinesMakeTheStream(front);
      assert s == front + [s[n]];
      if s[n] == NEWLINE {
        JoinedSnoc(Lines(front), Rest(front));
      } else {
        assert Lines(front) + [] == Lines(front);
        assert Joined(Lines(front)) + (Rest(front) + [s[n]]) == Joined(Lines(front)) + Rest(front) + [s[n]];
      }
    }
  }

  /** A line longer than a report keeps is cut. */
  function Cut(line: bytes): bytes {
    if |line| > MAX_LINE then line[..MAX_LINE] else line
  }

  function TrimReturns(line: bytes): bytes {
    if line != [] && line[|line| - 1] == RETURN then TrimReturns(line[..|line| - 1]) else line
  }

  function Cleaned(lines: seq<bytes>): (r: seq<bytes>)
    ensures |r| == |lines| && forall i | 0 <= i < |r| :: r[i] == TrimReturns(Cut(lines[i]))
  {
    if lines == [] then [] else Cleaned(lines[..|lines| - 1]) + [TrimReturns(Cut(lines[|lines| - 1]))]
  }

  /** What is kept of a line: its first 1024 bytes, without the carriage returns these end in. */
  lemma {:induction false} LineSays(line: bytes)
    ensures var kept, cut := TrimReturns(Cut(line)), if |line| <= 1024 then line else line[..1024];
            kept <= cut && (forall i | |kept| <= i < |cut| :: cut[i] == 13) &&
            (kept == [] || kept[|kept| - 1] != 13)
  {
    TrimSays(Cut(line));
  }

  lemma {:induction false} TrimSays(s: bytes)
    ensures var kept := TrimReturns(s);
            kept <= s && (forall i | |kept| <= i < |s| :: s[i] == 13) && (kept == [] || kept[|kept| - 1] != 13)
  {
    if s != [] && s[|s| - 1] == RETURN {
      TrimSays(s[..|s| - 1]);
    }
  }

  /** What is to be shown of a whole stream: its last lines, and the one it has not finished if there is one. */
  function Report(s: bytes, max: nat): seq<bytes> {
    Newest(Cleaned(Lines(s) + if Rest(s) == [] then [] else [Rest(s)]), max)
  }

  // ---- the buffer -----------------------------------------------------------------------------------------------

  datatype Tail = Tail(partial: bytes, kept: seq<bytes>)

  function TakeByte(t: Tail, b: byte, max: nat): Tail {
    if b == NEWLINE then Tail([], Newest(t.kept + [TrimReturns(t.partial)], max))
    else if |t.partial| < MAX_LINE then t.(partial := t.partial + [b])
    else t
  }

  function Written(t: Tail, p: bytes, max: nat): Tail {
    if p == [] then t else TakeByte(Written(t, p[..|p| - 1], max), p[|p| - 1], max)
  }

  function WrittenAll(chunks: seq<bytes>, max: nat): Tail {
    if chunks == [] then Tail([], []) else Written(WrittenAll(chunks[..|chunks| - 1], max), chunks[|chunks| - 1], max)
  }

  function Shown(t: Tail, max: nat): seq<bytes> {
    Newest(t.kept + if t.partial == [] then [] else [TrimReturns(t.partial)], max)
  }

  class Buffer {
    const max: nat
    var partial: bytes
    var kept: seq<bytes>

    ghost function Now(): Tail
      reads this
    {
      Tail(partial, kept)
    }

    constructor (limit: nat)
      ensures max == limit && Now() == Tail([], [])
    {
      max, partial, kept := limit, [], [];
    }

    method Write(p: bytes) returns (n: nat)
      modifies this
      ensures Now() == Written(old(Now()), p, max) && n == |p|
    {
      var i := 0;
      while i < |p|
        invariant 0 <= i <= |p|
        invariant Now() == Written(old(Now()), p[..i], max)
      {
        assert p[..i + 1][..i] == p[..i];
        if p[i] == NEWLINE {
          Push(partial);
          partial := [];
        } else if |partial| < MAX_LINE {
          partial := partial + [p[i]];
        }
        i := i + 1;
      }
      assert p[..i] == p;
      n := |p|;
    }

    method Push(line: bytes)
      modifies this`kept
      ensures kept == Newest(old(kept) + [TrimReturns(line)], max)
    {
      kept := kept + [TrimReturns(line)];
      if |kept| > max {
        kept := kept[|kept| - max..];
      }
    }

    method GetLines() returns (out: seq<bytes>)
      ensures out == Shown(Now(), max)
    {
      out := kept;
      if partial != [] {
        out := out + [TrimReturns(partial)];
      }
      if |out| > max {
        out := out[|out| - max..];
      }
    }
  }

  // ---- chunking does not matter ---------------------------------------------------------------------------------

  /** Written byte by byte, the buffer is the stream's lines, cut and cleaned, the last `max` of them. */
  lemma {:induction false} WrittenIsTail(s: bytes, max: nat)
    ensures Written(Tail([], []), s, max) == Tail(Cut(Rest(s)), Newest(Cleaned(Lines(s)), max))
  {
    hide TrimReturns, Cleaned;
    CleanedNone();
    if s != [] {
      var n := |s| - 1;
      var front, b := s[..n], s[n];
      WrittenIsTail(front, max);
      if b == NEWLINE {
        CleanedSnoc(Lines(front), Rest(front));
        NewestTwice(Cleaned(Lines(front)), [TrimReturns(Cut(Rest(front)))], max);
      } else {
        assert Lines(front) + [] == Lines(front);
      }
    }
  }

  lemma CleanedNone()
    ensures Cleaned([]) == []
  {
  }

  lemma CleanedSnoc(lines: seq<bytes>, l: bytes)
    ensures Cleaned(lines + [l]) == Cleaned(lines) + [TrimReturns(Cut(l))]
  {
    assert (lines + [l])[..|lines|] == lines;
  }

  lemma {:induction false} WrittenAppend(t: Tail, p: bytes, q: bytes, max: nat)
    ensures Written(t, p + q, max) == Written(Written(t, p, max), q, max)
  {
    hide TakeByte;
    if q == [] {
      assert p + q == p;
    } else {
      assert (p + q)[..|p + q| - 1] == p + q[..|q| - 1];
      WrittenAppend(t, p, q[..|q| - 1], max);
    }
  }

  function Whole(chunks: seq<bytes>): bytes {
    if chunks == [] then [] else Whole(chunks[..|chunks| - 1]) + chunks[|chunks| - 1]
  }

  lemma {:induction false} WrittenAllIsWhole(chunks: seq<bytes>, max: nat)
    ensures WrittenAll(chunks, max) == Written(Tail([], []), Whole(chunks), max)
  {
    if chunks != [] {
      var n := |chunks| - 1;
      WrittenAllIsWhole(chunks[..n], max);
      WrittenAppend(Tail([], []), Whole(chunks[..n]), chunks[n], max);
    }
  }

  /** However a stream is cut into writes, what is shown is what the whole stream's lines say. */
  lemma ChunkingDoesNotMatter(chunks: seq<bytes>, max: nat)
    ensures Shown(WrittenAll(chunks, max), max) == Report(Whole(chunks), max)
  {
    hide Cleaned, TrimReturns, Written, WrittenAll, Whole, Lines, Rest;
    var s := Whole(chunks);
    WrittenAllIsWhole(chunks, max);
    WrittenIsTail(s, max);
    var last := if Rest(s) == [] then [] else [TrimReturns(Cut(Rest(s)))];
    NewestTwice(Cleaned(Lines(s)), last, max);
    if Rest(s) != [] {
      CleanedSnoc(Lines(s), Rest(s));
    } else {
      assert Lines(s) + [] == Lines(s);
    }
  }

  // ---- the report -----------------------------------------------------------------------------------------------

  /** How many error lines are kept: half the room, or all of it when there is no other output. */
  function ErrorRoom(out: seq<bytes>, max: nat): nat {
    if out == [] then max else max / 2
  }

  /**
   The last lines of the output, then the last error lines, each oldest first: of the error lines, at most half the room
   when there is other output, even where that leaves room unused; of the others, as many as then fit.
   */
  function LastOfBoth(out: seq<bytes>, errs: seq<bytes>, max: nat): seq<bytes> {
    var e := Least(|errs|, ErrorRoom(out, max));
    var o := Least(|out|, max - e);
    out[|out| - o..] + errs[|errs| - e..]
  }

  method LastLines(out: seq<bytes>, errs: seq<bytes>, max: nat) returns (r: seq<bytes>)
    ensures r == LastOfBoth(out, errs, max)
    ensures |r| <= max
    ensures errs != [] && max >= 2 ==> |r| > 0 && r[|r| - 1] == errs[|errs| - 1]
    ensures r == out + errs <==> |out| + |errs| <= max && (out == [] || |errs| <= max / 2)
  {
    var keepErr := |errs|;
    if keepErr > max / 2 && |out| > 0 {
      keepErr := max / 2;
    }
    if keepErr > max {
      keepErr := max;
    }
    var tail := errs[|errs| - keepErr..];
    var room := max - |tail|;
    r := out;
    if |r| > room {
      r := r[|r| - room..];
    }
    assert r == out[|out| - Least(|out|, room)..];
    r := r + tail;
    assert |out + errs| == |out| + |errs|;
  }

  /**
   Whatever they say, one line of output and nineteen error lines fit in twenty, and only eleven are reported: the first
   nine of the error lines are gone.
   */
  lemma RoomIsLeft(line: bytes, errs: seq<bytes>)
    requires |errs| == 19
    ensures |[line] + errs| == 20 && LastOfBoth([line], errs, 20) == [line] + errs[9..]
    ensures |LastOfBoth([line], errs, 20)| == 11
  {
  }
}
