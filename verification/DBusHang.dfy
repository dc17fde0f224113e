/**
 The same at the entry point: which bytes on the bus make `readReply` never return. A header field it does not know is
 skipped by the signature it came with, so a message with one such field is enough.
 */
module DBusHang {
  import opened Options
  import opened Bytes
  import opened DBusTypes
  import opened DBusWire
  import opened DBusSkip
  import opened DBusReturn
  import opened DBusMessage
  import opened DBusConn
  import opened DBusReply

  // ---- what hanging takes ---------------------------------------------------------------------------------------

  /** The signatures by which `parseFields` skips values, in a header's fields. */
  function SkippedBy(buf: bytes, c: Cursor): seq<bytes>
    decreases Left(buf, c)
  {
    if c.pos >= |buf| || c.failed then []
    else
      var d := PadTo(buf, c, 8);
      if d.pos >= |buf| then []
      else
        var (code, e) := ReadByte(buf, d);
        var (typ, f) := ReadSig(buf, e);
        if code == REPLY_SERIAL then SkippedBy(buf, ReadWord(buf, f, 4).1)
        else if code == SIGNATURE then SkippedBy(buf, ReadSig(buf, f).1)
        else if code == ERROR_NAME then SkippedBy(buf, ReadText(buf, f).1)
        else
          match Skip(buf, f, typ)
          case Stalled => [typ]
          case Rest(_, g) => [typ] + SkippedBy(buf, g)
  }

  /** A header that never ends holds a field whose signature can stall: the last one looked at. */
  lemma {:induction false} StalledHeader(buf: bytes, c: Cursor, acc: Learned)
    requires ParseLoop(buf, c, acc) == ParseStalled
    ensures var s := SkippedBy(buf, c);
            s != [] && CanStall(s[|s| - 1])
    decreases Left(buf, c)
  {
    hide Skip, ReadSig, ReadWord, ReadText, ReadByte, PadTo, CanStall;
    var d := PadTo(buf, c, 8);
    FieldMoves(buf, c);
    var (code, e) := ReadByte(buf, d);
    var (typ, f) := ReadSig(buf, e);
    if code == REPLY_SERIAL {
      StalledHeader(buf, ReadWord(buf, f, 4).1, acc.(serial := ReadWord(buf, f, 4).0));
    } else if code == SIGNATURE {
      StalledHeader(buf, ReadSig(buf, f).1, acc.(signature := ReadSig(buf, f).0));
    } else if code == ERROR_NAME {
      StalledHeader(buf, ReadText(buf, f).1, acc.(errName := ReadText(buf, f).0));
    } else if Skip(buf, f, typ).Stalled? {
      assert SkippedBy(buf, c) == [typ];
      if !CanStall(typ) {
        SteadyReturns(buf, f, typ);
      }
    } else {
      var g := Skip(buf, f, typ).cursor;
      SkipMoves(buf, f, typ);
      assert ParseLoop(buf, c, acc) == ParseLoop(buf, g, acc);
      StalledHeader(buf, g, acc);
      var later := SkippedBy(buf, g);
      assert SkippedBy(buf, c) == [typ] + later;
      assert ([typ] + later)[|later|] == later[|later| - 1];
    }
  }

  lemma SkipMoves(buf: bytes, c: Cursor, sig: bytes)
    ensures Skip(buf, c, sig).Rest? ==> Left(buf, Skip(buf, c, sig).cursor) <= Left(buf, c)
  {
    hide Skip;
  }

  /** The header fields of the messages a search for a reply reads, one after another. */
  function Headers(stream: bytes, serial: nat, attempts: nat): seq<bytes> {
    if attempts == 0 || |stream| < 16 then []
    else
      var n := FromLe(stream[12..16]);
      if n > |stream| - 16 then []
      else
        [stream[16..16 + n]] +
        if OneMessage(stream, serial).0.Other? then Headers(OneMessage(stream, serial).1, serial, attempts - 1) else []
  }

  /** A message that was read to its end, or whose header never ends, has its header in the stream. */
  lemma HeaderThere(stream: bytes, serial: nat)
    ensures var pass := OneMessage(stream, serial).0;
            pass == Other || pass == Answer(NeverReturns) ==>
              |stream| >= 16 && FromLe(stream[12..16]) <= |stream| - 16 &&
              (pass.Answer? ==> ParseFields(stream[16..16 + FromLe(stream[12..16])]) == ParseStalled)
  {
    hide FromLe, ParseFields;
    if |stream| >= 16 {
      var head, rest := stream[..16], stream[16..];
      assert head[12..16] == stream[12..16];
      var n := FromLe(stream[12..16]);
      if n <= |rest| {
        assert rest[..n] == stream[16..16 + n];
      }
    }
  }

  /** The last signature a search skips a value by: in the last header it reads. */
  function LastSkipped(stream: bytes, serial: nat, attempts: nat): Option<bytes> {
    var hs := Headers(stream, serial, attempts);
    if hs == [] then None
    else
      var s := SkippedBy(hs[|hs| - 1], Cursor(0, false));
      if s == [] then None else Some(s[|s| - 1])
  }

  /** A search that never returns does so in a field whose signature can stall. */
  lemma {:induction false} HangNeedsStall(stream: bytes, serial: nat, attempts: nat)
    requires ReadReplies(stream, serial, attempts).0 == NeverReturns
    ensures Headers(stream, serial, attempts) != []
    ensures LastSkipped(stream, serial, attempts).Some? && CanStall(LastSkipped(stream, serial, attempts).value)
    decreases attempts
  {
    hide SkippedBy, CanStall, FromLe, OneMessage, ReadReplies, Headers, ParseFields, ParseLoop;
    OneAttempt(stream, serial, attempts);
    HeaderThere(stream, serial);
    var (pass, rest) := OneMessage(stream, serial);
    var header := stream[16..16 + FromLe(stream[12..16])];
    if pass.Other? {
      HangNeedsStall(rest, serial, attempts - 1);
    } else {
      assert [header] + [] == [header];
      StalledFields(header);
    }
  }

  /** The first attempt of a search that hangs, and what is left of it. */
  lemma OneAttempt(stream: bytes, serial: nat, attempts: nat)
    requires ReadReplies(stream, serial, attempts).0 == NeverReturns
    ensures var (pass, rest) := OneMessage(stream, serial);
            attempts > 0 && (pass == Answer(NeverReturns) || pass == Other) &&
            |stream| >= 16 && FromLe(stream[12..16]) <= |stream| - 16 &&
            var header := stream[16..16 + FromLe(stream[12..16])];
            (pass.Other? ==> ReadReplies(rest, serial, attempts - 1).0 == NeverReturns) &&
            Headers(stream, serial, attempts)
              == [header] + if pass.Other? then Headers(rest, serial, attempts - 1) else []
  {
    hide OneMessage, FromLe, ParseFields;
    HeaderThere(stream, serial);
  }

  lemma StalledFields(header: bytes)
    requires ParseFields(header) == ParseStalled
    ensures var s := SkippedBy(header, Cursor(0, false));
            s != [] && CanStall(s[|s| - 1])
  {
    hide ParseLoop, SkippedBy, CanStall;
    StalledHeader(header, Cursor(0, false), NOTHING);
  }

  // ---- and that it is enough ------------------------------------------------------------------------------------

  lemma ArrayStartSize(first: byte, n: nat, off: nat)
    ensures |ArrayStart(first, n, off)| <= 14
  {
  }

  lemma {:induction false} BlankSize(sig: bytes, off: nat)
    ensures |Blank(sig, off)| <= 16 * (|sig| - |Leftover(sig)|)
    decreases |sig|, 0
  {
    hide ArrayStart, Blanks, AfterOne, LeftoverFields;
    if sig != [] && !Plain(sig[0]) {
      if sig[0] == A && sig[1..] != [] {
        ArrayStartSize(sig[1], 0, off);
      } else if sig[0] == OPEN {
        BlanksSize(sig[1..], Align(off, 8));
      }
    }
  }

  lemma {:induction false} BlanksSize(s: bytes, off: nat)
    ensures |Blanks(s, off)| <= 16 * (|s| - |LeftoverFields(s)|)
    decreases |s|, 1
  {
    hide Blank, Leftover;
    if s != [] && s[0] != CLOSE {
      BlankSize(s, off);
      BlanksSize(Leftover(s), off + |Blank(s, off)|);
    }
  }

  lemma {:induction false} SpoilSize(sig: bytes, off: nat)
    ensures |Spoil(sig, off)| <= 32 * |sig|
    decreases |sig|, 0
  {
    hide ArrayStart, SpoilAny, TakesNoRoom;
    if sig != [] {
      if sig[0] == V {
        ArrayStartSize(OPEN, 1, off + 5);
      } else if sig[0] == A && sig[1..] != [] {
        ArrayStartSize(sig[1], 1, off);
        SpoilSize(sig[1..], off + |ArrayStart(sig[1], 1, off)|);
      } else if sig[0] == OPEN {
        SpoilAnySize(sig[1..], Align(off, 8));
      }
    }
  }

  lemma {:induction false} SpoilAnySize(s: bytes, off: nat)
    ensures |SpoilAny(s, off)| <= 32 * |s|
    decreases |s|, 1
  {
    hide Blank, Spoil, Leftover, CanStall;
    if s != [] && s[0] != CLOSE {
      SpoilSize(s, off);
      BlankSize(s, off);
      SpoilAnySize(Leftover(s), off + |Blank(s, off)|);
    }
  }

  const UNKNOWN: byte := 9

  /** A header of one field that nobody knows, with a value on which its signature stalls. */
  function HangingHeader(sig: bytes): bytes {
    [UNKNOWN] + EncSig(sig) + Spoil(sig, |sig| + 3)
  }

  /** A message with that header and nothing else. */
  function HangingMessage(sig: bytes): bytes {
    var fields := HangingHeader(sig);
    Fixed(Message(4, 0, 1, 1, [], []), |fields|) + fields + Padding(16 + |fields|, 8)
  }

  lemma HeaderStalls(sig: bytes)
    requires CanStall(sig) && |sig| < 256
    ensures ParseFields(HangingHeader(sig)) == ParseStalled && SkippedBy(HangingHeader(sig), Cursor(0, false)) == [sig]
  {
    hide Skip, Spoil, CanStall, EncSig, ReadSig, At, ParseFields, SkippedBy;
    var buf, spoil := HangingHeader(sig), Spoil(sig, |sig| + 3);
    assert buf == [UNKNOWN] + (EncSig(sig) + spoil);
    WholeAt(buf);
    AtSplit(buf, 0, [UNKNOWN], EncSig(sig) + spoil);
    SigSize(sig);
    AtSplit(buf, 1, EncSig(sig), spoil);
    AtOne(buf, 0, UNKNOWN);
    SigOver(buf, 1, sig);
    SpoilStalls(buf, |sig| + 3, sig);
    assert PadTo(buf, Cursor(0, false), 8) == Cursor(0, false);
    assert ReadByte(buf, Cursor(0, false)) == (UNKNOWN, Cursor(1, false));
    UnknownFieldStalls(buf, sig);
  }

  lemma UnknownFieldStalls(buf: bytes, sig: bytes)
    requires |buf| > 0 && PadTo(buf, Cursor(0, false), 8) == Cursor(0, false)
    requires ReadByte(buf, Cursor(0, false)) == (UNKNOWN, Cursor(1, false))
    requires ReadSig(buf, Cursor(1, false)) == (sig, Cursor(|sig| + 3, false))
    requires Skip(buf, Cursor(|sig| + 3, false), sig) == Stalled
    ensures ParseFields(buf) == ParseStalled && SkippedBy(buf, Cursor(0, false)) == [sig]
  {
    hide Skip, ReadSig, ReadByte, ReadWord, ReadText, PadTo;
  }

  lemma SigSize(sig: bytes)
    ensures |EncSig(sig)| == |sig| + 2
  {
  }

  /**
   Every signature that can stall, of a length a header field can give, makes the search for a reply hang: on these
   bytes, whatever is behind them, and whichever reply is waited for.
   */
  lemma ReplyCanHang(sig: bytes, tail: bytes, serial: nat, attempts: nat)
    requires CanStall(sig) && |sig| < 256 && attempts > 0
    ensures ReadReplies(HangingMessage(sig) + tail, serial, attempts).0 == NeverReturns
    ensures LastSkipped(HangingMessage(sig) + tail, serial, attempts) == Some(sig)
  {
    hide CanStall, ParseFields, Fixed, FromLe, HangingHeader, OneMessage, SkippedBy;
    var fields := HangingHeader(sig);
    HeaderStalls(sig);
    HeaderSize(sig);
    var m := Message(4, 0, 1, 1, [], []);
    HeadFields(m, |fields|);
    StalledMessage(Fixed(m, |fields|), fields, Padding(16 + |fields|, 8), tail, serial);
    var stream := HangingMessage(sig) + tail;
    assert stream == Fixed(m, |fields|) + fields + Padding(16 + |fields|, 8) + tail;
    assert Headers(stream, serial, attempts) == [fields] + [];
  }

  /**
   Exactly when a reply can be made to hang, by the signature it hangs on: for every signature a header field can have,
   some stream makes the search for a reply loop for ever over it if and only if the signature can stall.
   */
  lemma ReplyHangsIff(sig: bytes, serial: nat, attempts: nat)
    requires |sig| < 256 && attempts > 0
    ensures (exists stream :: ReadReplies(stream, serial, attempts).0 == NeverReturns &&
                              LastSkipped(stream, serial, attempts) == Some(sig)) <==> CanStall(sig)
  {
    hide CanStall, ReadReplies, LastSkipped, HangingMessage;
    if CanStall(sig) {
      ReplyCanHang(sig, [], serial, attempts);
    }
    forall stream | ReadReplies(stream, serial, attempts).0 == NeverReturns &&
      LastSkipped(stream, serial, attempts) == Some(sig)
      ensures CanStall(sig)
    {
      HangNeedsStall(stream, serial, attempts);
    }
  }

  lemma StalledMessage(head: bytes, fields: bytes, pad: bytes, tail: bytes, serial: nat)
    requires |head| == 16 && head[0] == LITTLE && FromLe(head[4..8]) == 0 &&
             FromLe(head[12..16]) == |fields| <= MAX_MESSAGE
    requires |pad| == Align(16 + |fields|, 8) - (16 + |fields|) && ParseFields(fields) == ParseStalled
    ensures OneMessage(head + fields + pad + tail, serial).0 == Answer(NeverReturns)
    ensures var stream := head + fields + pad + tail;
            stream[12..16] == head[12..16] && stream[16..16 + |fields|] == fields
  {
    hide FromLe, ParseFields, Classify;
    var stream := head + fields + pad + tail;
    assert stream == head + (fields + pad + tail);
    assert stream[..16] == head && stream[16..] == fields + pad + tail;
    assert stream[16..][..|fields|] == fields;
    Stalls(head[1], fields, stream[16..][|fields| + |pad|..|fields| + |pad|], serial);
  }

  lemma Stalls(kind: byte, fields: bytes, body: bytes, serial: nat)
    requires ParseFields(fields) == ParseStalled
    ensures Classify(kind, fields, body, serial) == Answer(NeverReturns)
  {
  }

  lemma HeaderSize(sig: bytes)
    requires |sig| < 256
    ensures |HangingHeader(sig)| <= MAX_MESSAGE
  {
    hide Spoil, EncSig;
    SigSize(sig);
    SpoilSize(sig, |sig| + 3);
  }
}
