/**
 What reading a reply does on a stream of well-formed messages: everything that does not answer our call is stepped
 over whole, and the answer is returned exactly, with the stream left at the byte after it.
 */
module DBusReply {
  import opened Options
  import opened Bytes
  import opened DBusTypes
  import opened DBusWire
  import opened DBusSkip
  import opened DBusMessage
  import opened DBusConn

  /** The specification's types for the three fields a reply is read for; any supported type for the others. */
  predicate FieldTyped(f: Field) {
    FieldOk(f) &&
    (f.code == REPLY_SERIAL ==> f.t == Basic(U)) &&
    (f.code == SIGNATURE ==> f.t == Basic(G)) &&
    (f.code == ERROR_NAME ==> f.t == Basic(S))
  }

  predicate WellFormedMessage(m: Message) {
    MessageOk(m) && |m.body| <= MAX_MESSAGE && (forall i | 0 <= i < |m.fields| :: FieldTyped(m.fields[i])) &&
    |FieldBytes(m.fields, 0)| <= MAX_MESSAGE
  }

  /** What one field says; the last field of a code is the one that counts. */
  function Learn(acc: Learned, f: Field): Learned
    requires FieldTyped(f)
  {
    if f.code == REPLY_SERIAL then acc.(serial := f.v.n)
    else if f.code == SIGNATURE then acc.(signature := f.v.text)
    else if f.code == ERROR_NAME then acc.(errName := f.v.text)
    else acc
  }

  function LearnAll(acc: Learned, fs: seq<Field>): Learned
    requires forall i | 0 <= i < |fs| :: FieldTyped(fs[i])
    decreases |fs|
  {
    if fs == [] then acc else LearnAll(Learn(acc, fs[0]), fs[1..])
  }

  /** A field, as the loop crosses it. */
  lemma FieldHead(buf: bytes, off: nat, f: Field) returns (at: nat)
    requires FieldOk(f) && HasType(FieldValue(f), FIELD) && At(buf, off, Enc(FIELD, FieldValue(f), off))
    ensures PadTo(buf, Cursor(off, false), 8) == Cursor(Align(off, 8), false) && Align(off, 8) < |buf|
    ensures ReadByte(buf, Cursor(Align(off, 8), false)) == (f.code, Cursor(Align(off, 8) + 1, false))
    ensures ReadSig(buf, Cursor(Align(off, 8) + 1, false)) == (Sig(f.t), Cursor(at, false))
    ensures At(buf, at, Enc(f.t, f.v, at)) && off + |Enc(FIELD, FieldValue(f), off)| == at + |Enc(f.t, f.v, at)|
    ensures at > off
  {
    hide Enc, Sig, HasType;
    var s := EncSig(Sig(f.t));
    var start := Align(off, 8);
    at := start + 1 + |s|;
    FieldLayout(f, off);
    AtSplit(buf, off, Padding(off, 8) + [f.code] + s, Enc(f.t, f.v, at));
    AtSplit3(buf, off, Padding(off, 8), [f.code], s);
    PadOver(buf, off, 8);
    AtOne(buf, start, f.code);
    SigOver(buf, start + 1, Sig(f.t));
  }

  /** The loop over a list of fields learns what the fields say. */
  lemma {:induction false} ParseOver(buf: bytes, off: nat, fs: seq<Field>, acc: Learned)
    requires forall i | 0 <= i < |fs| :: FieldTyped(fs[i]) && FieldOk(fs[i])
    requires At(buf, off, FieldBytes(fs, off)) && off + |FieldBytes(fs, off)| == |buf| < U32
    ensures ParseLoop(buf, Cursor(off, false), acc) == Parsed(LearnAll(acc, fs))
    decreases |fs|
  {
    hide Enc, HasType, Skip, ReadSig, ReadWord, ReadText, ReadByte, PadTo;
    if fs != [] {
      var f := fs[0];
      FieldHasType(f);
      var first := Enc(FIELD, FieldValue(f), off);
      AtSplit(buf, off, first, FieldBytes(fs[1..], off + |first|));
      var at := FieldHead(buf, off, f);
      FieldRead(buf, at, f);
      var next := Cursor(off + |first|, false);
      ParseStep(buf, Cursor(off, false), acc, f, at, next);
      ParseOver(buf, off + |first|, fs[1..], Learn(acc, f));
    }
  }

  lemma SkipWhole(buf: bytes, at: nat, t: Type, v: Value)
    requires HasType(v, t) && At(buf, at, Enc(t, v, at)) && |buf| < U32
    ensures Skip(buf, Cursor(at, false), Sig(t)) == Rest([], Cursor(at + |Enc(t, v, at)|, false))
  {
    hide Enc, HasType, Skip, At, Sig;
    SkipOne(buf, at, t, v, []);
    assert Sig(t) + [] == Sig(t);
  }

  /** The value of a field, read or skipped by its code. */
  lemma FieldRead(buf: bytes, at: nat, f: Field)
    requires FieldTyped(f) && At(buf, at, Enc(f.t, f.v, at)) && |buf| < U32
    ensures var next := Cursor(at + |Enc(f.t, f.v, at)|, false);
      var c := Cursor(at, false);
      (f.code == REPLY_SERIAL ==> ReadWord(buf, c, 4) == (f.v.n, next)) &&
      (f.code == SIGNATURE ==> ReadSig(buf, c) == (f.v.text, next)) &&
      (f.code == ERROR_NAME ==> ReadText(buf, c) == (f.v.text, next)) &&
      Skip(buf, c, Sig(f.t)) == Rest([], next)
  {
    hide Skip, ReadSig, ReadWord, ReadText, At, Enc, Sig;
    SkipWhole(buf, at, f.t, f.v);
    if f.code == REPLY_SERIAL {
      SerialRead(buf, at, f.v);
    } else if f.code == SIGNATURE {
      SignatureRead(buf, at, f.v);
    } else if f.code == ERROR_NAME {
      NameRead(buf, at, f.v);
    }
  }

  lemma SerialRead(buf: bytes, at: nat, v: Value)
    requires HasType(v, Basic(U)) && At(buf, at, Enc(Basic(U), v, at))
    ensures ReadWord(buf, Cursor(at, false), 4) == (v.n, Cursor(at + |Enc(Basic(U), v, at)|, false))
  {
    hide ReadWord, At;
    Spans();
    WordOver(buf, at, v.n, 4);
  }

  lemma SignatureRead(buf: bytes, at: nat, v: Value)
    requires HasType(v, Basic(G)) && At(buf, at, Enc(Basic(G), v, at))
    ensures ReadSig(buf, Cursor(at, false)) == (v.text, Cursor(at + |Enc(Basic(G), v, at)|, false))
  {
    hide ReadSig, At;
    SigOver(buf, at, v.text);
  }

  lemma NameRead(buf: bytes, at: nat, v: Value)
    requires HasType(v, Basic(S)) && At(buf, at, Enc(Basic(S), v, at))
    ensures ReadText(buf, Cursor(at, false)) == (v.text, Cursor(at + |Enc(Basic(S), v, at)|, false))
  {
    hide ReadText, At;
    TextOver(buf, at, v.text);
  }

  lemma ParseStep(buf: bytes, c: Cursor, acc: Learned, f: Field, at: nat, next: Cursor)
    requires FieldTyped(f) && !c.failed && c.pos < |buf| && PadTo(buf, c, 8) == Cursor(Align(c.pos, 8), false)
    requires Align(c.pos, 8) < |buf|
    requires ReadByte(buf, Cursor(Align(c.pos, 8), false)) == (f.code, Cursor(Align(c.pos, 8) + 1, false))
    requires ReadSig(buf, Cursor(Align(c.pos, 8) + 1, false)) == (Sig(f.t), Cursor(at, false))
    requires f.code == REPLY_SERIAL ==> ReadWord(buf, Cursor(at, false), 4) == (f.v.n, next)
    requires f.code == SIGNATURE ==> ReadSig(buf, Cursor(at, false)) == (f.v.text, next)
    requires f.code == ERROR_NAME ==> ReadText(buf, Cursor(at, false)) == (f.v.text, next)
    requires Skip(buf, Cursor(at, false), Sig(f.t)) == Rest([], next)
    ensures ParseLoop(buf, c, acc) == ParseLoop(buf, next, Learn(acc, f))
  {
    hide ReadSig, ReadWord, ReadText, ReadByte, PadTo, Skip;
  }

  /** The last field of a code. */
  function LastOf(fs: seq<Field>, code: byte): Option<Field> {
    if fs == [] then None
    else if fs[|fs| - 1].code == code then Some(fs[|fs| - 1])
    else LastOf(fs[..|fs| - 1], code)
  }

  lemma {:induction false} LastOfTyped(fs: seq<Field>, code: byte)
    requires forall i | 0 <= i < |fs| :: FieldTyped(fs[i])
    ensures LastOf(fs, code).Some? ==> FieldTyped(LastOf(fs, code).value) && LastOf(fs, code).value.code == code
  {
    hide FieldTyped;
    if fs != [] {
      LastOfTyped(fs[..|fs| - 1], code);
    }
  }

  /** The call a message answers: zero when it says none. */
  function SerialOf(m: Message): nat
    requires WellFormedMessage(m)
  {
    LastOfTyped(m.fields, REPLY_SERIAL);
    var f := LastOf(m.fields, REPLY_SERIAL);
    if f.Some? then f.value.v.n else 0
  }

  function SignatureOf(m: Message): bytes
    requires WellFormedMessage(m)
  {
    LastOfTyped(m.fields, SIGNATURE);
    var f := LastOf(m.fields, SIGNATURE);
    if f.Some? then f.value.v.text else []
  }

  /** The name of an error: what its last name field says, and a fixed phrase when that is nothing or there is none. */
  function ErrorNameOf(m: Message): bytes
    requires WellFormedMessage(m)
  {
    LastOfTyped(m.fields, ERROR_NAME);
    var f := LastOf(m.fields, ERROR_NAME);
    if f.Some? && f.value.v.text != [] then f.value.v.text else Ascii("the system bus returned an error")
  }

  predicate Answers(m: Message, serial: nat)
    requires WellFormedMessage(m)
  {
    (m.kind == METHOD_RETURN || m.kind == ERROR) && SerialOf(m) == serial
  }

  /** What the caller is given for a message that answers it. */
  function ReplyOf(m: Message): Reply
    requires WellFormedMessage(m)
  {
    if m.kind == ERROR then
      BusError(ErrorNameOf(m),
               if SignatureOf(m) != [] && SignatureOf(m)[0] == S then ReadText(m.body, Cursor(0, false)).0 else [])
    else Return(m.body, SignatureOf(m))
  }

  lemma {:induction false} LearnAllSnoc(acc: Learned, fs: seq<Field>, f: Field)
    requires FieldTyped(f) && forall i | 0 <= i < |fs| :: FieldTyped(fs[i])
    ensures forall i | 0 <= i < |fs + [f]| :: FieldTyped((fs + [f])[i])
    ensures LearnAll(acc, fs + [f]) == Learn(LearnAll(acc, fs), f)
    decreases |fs|
  {
    hide Learn, FieldTyped;
    if fs == [] {
      assert fs + [f] == [f] && [f][1..] == [];
    } else {
      assert (fs + [f])[1..] == fs[1..] + [f];
      LearnAllSnoc(Learn(acc, fs[0]), fs[1..], f);
    }
  }

  /** What is learned one field after another is what the last field of each code says. */
  lemma {:induction false} LearnsTheLast(fs: seq<Field>)
    requires forall i | 0 <= i < |fs| :: FieldTyped(fs[i])
    ensures var l := LearnAll(NOTHING, fs);
            var n, g, e := LastOf(fs, REPLY_SERIAL), LastOf(fs, SIGNATURE), LastOf(fs, ERROR_NAME);
            (n.Some? ==> FieldTyped(n.value) && n.value.code == REPLY_SERIAL) &&
            (g.Some? ==> FieldTyped(g.value) && g.value.code == SIGNATURE) &&
            (e.Some? ==> FieldTyped(e.value) && e.value.code == ERROR_NAME) &&
            l == Learned(if n.Some? then n.value.v.n else 0, if g.Some? then g.value.v.text else [],
                         if e.Some? then e.value.v.text else [])
  {
    hide FieldTyped, LearnAll;
    if fs == [] {
      assert LearnAll(NOTHING, []) == NOTHING by { LearnNone(NOTHING); }
    } else {
      var front, f := fs[..|fs| - 1], fs[|fs| - 1];
      assert fs == front + [f];
      LearnsTheLast(front);
      LearnAllSnoc(NOTHING, front, f);
      FieldHolds(f);
    }
  }

  lemma LearnNone(acc: Learned)
    ensures LearnAll(acc, []) == acc
  {
  }

  /** Its value is what its code says it is. */
  lemma FieldHolds(f: Field)
    requires FieldTyped(f)
    ensures f.code == REPLY_SERIAL ==> f.v.Num?
    ensures f.code == SIGNATURE || f.code == ERROR_NAME ==> f.v.Text?
  {
  }

  /** One well-formed message at the head of a stream is consumed exactly, and recognised. */
  lemma OneMessageOver(m: Message, tail: bytes, serial: nat)
    requires WellFormedMessage(m)
    ensures OneMessage(Frame(m) + tail, serial)
         == (if Answers(m, serial) then Answer(ReplyOf(m)) else Other, tail)
  {
    hide Frame, FieldBytes, Classify, Answers, ReplyOf, Fixed;
    var fields := FieldBytes(m.fields, 0);
    var stream := Frame(m) + tail;
    assert MessageOk(m);
    StreamParts(m, tail);
    HeadFields(m, |fields|);
    PadTotal(|fields|);
    Slices(fields, Padding(|fields|, 8), m.body, tail);
    ClassifyOver(m, serial);
  }

  lemma StreamParts(m: Message, tail: bytes)
    requires MessageOk(m)
    ensures var fields := FieldBytes(m.fields, 0);
            |Frame(m)| >= 16 && (Frame(m) + tail)[..16] == Fixed(m, |fields|) &&
            (Frame(m) + tail)[16..] == fields + (Padding(|fields|, 8) + (m.body + tail))
  {
    hide Frame, FieldBytes, Fixed;
    var fields := FieldBytes(m.fields, 0);
    FrameLayout(m);
    assert |Fixed(m, |fields|)| == 16;
    AssocStream(Fixed(m, |fields|), fields, Padding(|fields|, 8), m.body, tail);
  }

  lemma ClassifyOver(m: Message, serial: nat)
    requires WellFormedMessage(m)
    ensures Classify(m.kind, FieldBytes(m.fields, 0), m.body, serial)
         == if Answers(m, serial) then Answer(ReplyOf(m)) else Other
  {
    hide FieldBytes, ParseFields, SerialOf, SignatureOf, ErrorNameOf, ReadText;
    ParseWhole(m);
  }

  lemma PadTotal(n: nat)
    ensures Align(16 + n, 8) - 16 == n + |Padding(n, 8)|
  {
  }

  lemma AssocStream(a: bytes, b: bytes, c: bytes, d: bytes, e: bytes)
    ensures a + b + c + d + e == a + (b + (c + (d + e)))
  {
  }

  lemma Slices(fields: bytes, pad: bytes, body: bytes, tail: bytes)
    ensures var rest := fields + (pad + (body + tail));
            var at := |fields| + |pad|;
            rest[..|fields|] == fields && rest[at..at + |body|] == body && rest[at + |body|..] == tail
  {
  }

  /** The sixteen fixed bytes read back. */
  lemma HeadFields(m: Message, n: nat)
    requires |m.body| < U32 && n < U32
    ensures var h := Fixed(m, n);
            h[0] == LITTLE && h[1] == m.kind && FromLe(h[4..8]) == |m.body| && FromLe(h[12..16]) == n
  {
    hide Le;
    var h := Fixed(m, n);
    Spans();
    FromLeOfLe(|m.body|, 4);
    FromLeOfLe(n, 4);
    assert |m.body| % U32 == |m.body| && n % U32 == n;
    assert h[4..8] == Le(|m.body|, 4);
    assert h[12..16] == Le(n, 4);
  }

  lemma ParseWhole(m: Message)
    requires WellFormedMessage(m)
    ensures ParseFields(FieldBytes(m.fields, 0)) == Parsed(Learned(SerialOf(m), SignatureOf(m), ErrorNameOf(m)))
  {
    hide FieldTyped, FieldBytes, ParseLoop, LearnAll, LastOf;
    var fields := FieldBytes(m.fields, 0);
    assert At(fields, 0, fields);
    ParseOver(fields, 0, m.fields, NOTHING);
    LearnsTheLast(m.fields);
  }

  /** Messages one after another. */
  function Stream(ms: seq<Message>): bytes
    requires forall i | 0 <= i < |ms| :: WellFormedMessage(ms[i])
  {
    if ms == [] then []
    else
      assert WellFormedMessage(ms[0]);
      Frame(ms[0]) + Stream(ms[1..])
  }

  /** Messages that answer somebody else are stepped over, one attempt each. */
  lemma {:induction false} OthersSkipped(ms: seq<Message>, tail: bytes, serial: nat, attempts: nat)
    requires forall i | 0 <= i < |ms| :: WellFormedMessage(ms[i]) && !Answers(ms[i], serial)
    requires |ms| <= attempts
    ensures ReadReplies(Stream(ms) + tail, serial, attempts) == ReadReplies(tail, serial, attempts - |ms|)
    decreases |ms|
  {
    hide OneMessage, Frame, Answers, FieldBytes, FieldTyped;
    if ms == [] {
      assert Stream(ms) + tail == tail;
    } else {
      var later := Stream(ms[1..]) + tail;
      assert Stream(ms) + tail == Frame(ms[0]) + later;
      OneMessageOver(ms[0], later, serial);
      OthersSkipped(ms[1..], tail, serial, attempts - 1);
    }
  }

  /**
   Up to fifteen messages that do not answer, then the one that does, then anything: the answer is returned and the
   stream is left at the byte after it.
   */
  lemma ReplyFound(others: seq<Message>, answer: Message, tail: bytes, serial: nat)
    requires |others| < ATTEMPTS && WellFormedMessage(answer) && Answers(answer, serial)
    requires forall i | 0 <= i < |others| :: WellFormedMessage(others[i]) && !Answers(others[i], serial)
    ensures ReadReplies(Stream(others) + (Frame(answer) + tail), serial, ATTEMPTS) == (ReplyOf(answer), tail)
  {
    hide OneMessage, Frame, Answers, ReplyOf, FieldBytes, FieldTyped;
    OthersSkipped(others, Frame(answer) + tail, serial, ATTEMPTS);
    OneMessageOver(answer, tail, serial);
  }

  /** An error whose signature begins with a string is given with that string, whatever its body holds after it. */
  lemma ErrorArrives(others: seq<Message>, m: Message, detail: bytes, more: bytes, tail: bytes, serial: nat)
    requires |others| < ATTEMPTS && WellFormedMessage(m) && m.kind == ERROR && Answers(m, serial)
    requires forall i | 0 <= i < |others| :: WellFormedMessage(others[i]) && !Answers(others[i], serial)
    requires SignatureOf(m) != [] && SignatureOf(m)[0] == S && m.body == EncText(detail, 0) + more
    ensures ReadReplies(Stream(others) + (Frame(m) + tail), serial, ATTEMPTS)
         == (BusError(ErrorNameOf(m), detail), tail)
  {
    hide OneMessage, Frame, Answers, FieldBytes, FieldTyped, EncText, ReadText, Stream, ReadReplies, ErrorNameOf,
      SignatureOf;
    ReplyFound(others, m, tail, serial);
    EncTextLength(detail);
    assert At(m.body, 0, EncText(detail, 0));
    TextOver(m.body, 0, detail);
  }

  lemma EncTextLength(s: bytes)
    ensures |EncText(s, 0)| == 4 + |s| + 1
  {
    assert Padding(0, 4) == [];
  }

  /** Sixteen messages that do not answer are one too many: the reply behind them is not reached. */
  lemma ReplyMissed(others: seq<Message>, tail: bytes, serial: nat)
    requires |others| == ATTEMPTS
    requires forall i | 0 <= i < |others| :: WellFormedMessage(others[i]) && !Answers(others[i], serial)
    ensures ReadReplies(Stream(others) + tail, serial, ATTEMPTS) == (NoAnswer, tail)
  {
    OthersSkipped(others, tail, serial, ATTEMPTS);
  }

  // ---- the call, read back --------------------------------------------------------------------------------------

  /** Reads n strings one after another. */
  function ReadTexts(buf: bytes, c: Cursor, n: nat): (seq<bytes>, Cursor)
    decreases n
  {
    if n == 0 then ([], c)
    else
      var (s, d) := ReadText(buf, c);
      var (rest, e) := ReadTexts(buf, d, n - 1);
      ([s] + rest, e)
  }

  lemma {:induction false} ArgsReadBack(buf: bytes, off: nat, args: seq<bytes>)
    requires At(buf, off, ArgBytes(args, off)) && forall i | 0 <= i < |args| :: |args[i]| < U32
    ensures ReadTexts(buf, Cursor(off, false), |args|) == (args, Cursor(off + |ArgBytes(args, off)|, false))
    decreases |args|
  {
    hide EncText, ReadText;
    if args != [] {
      var first := EncText(args[0], off);
      AtSplit(buf, off, first, ArgBytes(args[1..], off + |first|));
      TextOver(buf, off, args[0]);
      ArgsReadBack(buf, off + |first|, args[1..]);
      assert [args[0]] + args[1..] == args;
    }
  }

  /**
   A call, whatever its strings: its body starts on an 8-byte boundary; a reader of its header finds the path, the
   destination, the interface, the member and the signature, and the agent's own parser the signature and no reply
   serial or error; and the body gives the arguments back.
   */
  lemma CallReadsBack(serial: nat, destination: bytes, path: bytes, iface: bytes, member: bytes, signature: bytes,
                      args: seq<bytes>)
    requires serial < U32 && CallTextsOk(destination, path, iface, member, signature)
    requires forall i | 0 <= i < |args| :: |args[i]| < U32
    ensures var fs := CallFields(destination, path, iface, member, signature);
            var m := CallMessage(serial, fs, args);
            MessageOk(m) && (|Frame(m)| - |m.body|) % 8 == 0 && Frame(m)[|Frame(m)| - |m.body|..] == m.body &&
            (|FieldBytes(fs, 0)| < U32 ==> ParseFields(FieldBytes(fs, 0)) == Parsed(Learned(0, signature, UNNAMED))) &&
            ReadHeader(FieldBytes(fs, 0), Cursor(0, false))
              == (CallReads(destination, path, iface, member, signature), Cursor(|FieldBytes(fs, 0)|, false)) &&
            ReadTexts(m.body, Cursor(0, false), |args|) == (args, Cursor(|m.body|, false))
  {
    hide Frame, FieldBytes, ParseFields, ArgBytes, ReadHeader, CallReads;
    CallHeaderReadsBack(destination, path, iface, member, signature);
    CallFieldsOk(destination, path, iface, member, signature);
    var fs := CallFields(destination, path, iface, member, signature);
    var m := CallMessage(serial, fs, args);
    FrameLayout(m);
    PadTotal(|FieldBytes(fs, 0)|);
    assert At(m.body, 0, m.body);
    ArgsReadBack(m.body, 0, args);
    if |FieldBytes(fs, 0)| < U32 {
      CallFieldsParse(fs, destination, path, iface, member, signature);
    }
  }

  /** A header field as a reader finds it: its code, its type and its text. */
  datatype TextRead = TextRead(code: byte, typ: bytes, text: bytes)

  /** Reads header fields that hold texts, in order, to the end of the buffer. */
  function ReadHeader(buf: bytes, c: Cursor): (seq<TextRead>, Cursor)
    decreases Left(buf, c)
  {
    if c.pos >= |buf| || c.failed then ([], c)
    else
      var (code, d) := ReadByte(buf, PadTo(buf, c, 8));
      var (typ, e) := ReadSig(buf, d);
      var (text, f) := if typ == [G] then ReadSig(buf, e) else ReadText(buf, e);
      var (rest, g) := ReadHeader(buf, f);
      ([TextRead(code, typ, text)] + rest, g)
  }

  /** What a reader of a call's header should find. */
  function CallReads(destination: bytes, path: bytes, iface: bytes, member: bytes, signature: bytes): seq<TextRead> {
    [TextRead(PATH, [O], path), TextRead(DESTINATION, [S], destination), TextRead(INTERFACE, [S], iface),
     TextRead(MEMBER, [S], member)] + if signature == [] then [] else [TextRead(SIGNATURE, [G], signature)]
  }

  predicate HoldsText(f: Field) {
    FieldOk(f) && f.v.Text? && (f.t == Basic(S) || f.t == Basic(O) || f.t == Basic(G))
  }

  function TextReads(fs: seq<Field>): seq<TextRead>
    requires forall i | 0 <= i < |fs| :: HoldsText(fs[i])
  {
    if fs == [] then []
    else
      assert HoldsText(fs[0]);
      [TextRead(fs[0].code, [fs[0].t.code], fs[0].v.text)] + TextReads(fs[1..])
  }

  lemma TextFieldRead(buf: bytes, at: nat, f: Field)
    requires HoldsText(f) && At(buf, at, Enc(f.t, f.v, at))
    ensures Sig(f.t) == [f.t.code]
    ensures (if Sig(f.t) == [G] then ReadSig(buf, Cursor(at, false)) else ReadText(buf, Cursor(at, false)))
         == (f.v.text, Cursor(at + |Enc(f.t, f.v, at)|, false))
  {
    hide ReadSig, ReadText, At;
    if f.t == Basic(G) {
      SignatureRead(buf, at, f.v);
    } else {
      TextOver(buf, at, f.v.text);
    }
  }

  /** A header of texts is read back field by field. */
  lemma {:induction false} HeaderReadsBack(buf: bytes, off: nat, fs: seq<Field>)
    requires forall i | 0 <= i < |fs| :: HoldsText(fs[i]) && FieldOk(fs[i])
    requires At(buf, off, FieldBytes(fs, off)) && off + |FieldBytes(fs, off)| == |buf|
    ensures ReadHeader(buf, Cursor(off, false)) == (TextReads(fs), Cursor(|buf|, false))
    decreases |fs|
  {
    hide Enc, HasType, ReadSig, ReadText, ReadByte, PadTo, Sig;
    if fs != [] {
      var f := fs[0];
      FieldHasType(f);
      var first := Enc(FIELD, FieldValue(f), off);
      AtSplit(buf, off, first, FieldBytes(fs[1..], off + |first|));
      var at := FieldHead(buf, off, f);
      TextFieldRead(buf, at, f);
      HeaderReadsBack(buf, off + |first|, fs[1..]);
    }
  }

  /** The header of a call, whatever its strings, says where it goes, what it calls and with what signature. */
  lemma CallHeaderReadsBack(destination: bytes, path: bytes, iface: bytes, member: bytes, signature: bytes)
    requires CallTextsOk(destination, path, iface, member, signature)
    ensures var fs := CallFields(destination, path, iface, member, signature);
            (forall i | 0 <= i < |fs| :: FieldOk(fs[i])) &&
            ReadHeader(FieldBytes(fs, 0), Cursor(0, false)) ==
              (CallReads(destination, path, iface, member, signature), Cursor(|FieldBytes(fs, 0)|, false))
  {
    hide FieldBytes, ReadHeader;
    CallFieldsOk(destination, path, iface, member, signature);
    var fs := CallFields(destination, path, iface, member, signature);
    var fields := FieldBytes(fs, 0);
    assert At(fields, 0, fields);
    HeaderReadsBack(fields, 0, fs);
    CallTextReads(destination, path, iface, member, signature);
  }

  lemma TextReadsCons(code: byte, typ: byte, text: bytes, rest: seq<Field>)
    requires HoldsText(TextField(code, typ, text)) && forall i | 0 <= i < |rest| :: HoldsText(rest[i])
    ensures TextReads([TextField(code, typ, text)] + rest) == [TextRead(code, [typ], text)] + TextReads(rest)
  {
    hide HoldsText;
    assert ([TextField(code, typ, text)] + rest)[1..] == rest;
  }

  lemma CallTextReads(destination: bytes, path: bytes, iface: bytes, member: bytes, signature: bytes)
    requires forall i | 0 <= i < |CallFields(destination, path, iface, member, signature)| ::
               HoldsText(CallFields(destination, path, iface, member, signature)[i])
    ensures TextReads(CallFields(destination, path, iface, member, signature))
         == CallReads(destination, path, iface, member, signature)
  {
    hide HoldsText, TextReads;
    var fs := CallFields(destination, path, iface, member, signature);
    assert HoldsText(fs[0]) && HoldsText(fs[1]) && HoldsText(fs[2]) && HoldsText(fs[3]) &&
           (signature != [] ==> HoldsText(fs[4]));
    var f4 := if signature == [] then [] else [TextField(SIGNATURE, G, signature)];
    assert forall i | 0 <= i < |f4| :: f4[i] == fs[4];
    var f3 := [TextField(MEMBER, S, member)] + f4;
    var f2 := [TextField(INTERFACE, S, iface)] + f3;
    var f1 := [TextField(DESTINATION, S, destination)] + f2;
    assert fs == [TextField(PATH, O, path)] + f1;
    NoTextReads();
    if signature != [] {
      TextReadsCons(SIGNATURE, G, signature, []);
      assert f4 + [] == f4;
    }
    TextReadsCons(MEMBER, S, member, f4);
    TextReadsCons(INTERFACE, S, iface, f3);
    TextReadsCons(DESTINATION, S, destination, f2);
    TextReadsCons(PATH, O, path, f1);
  }

  lemma NoTextReads()
    ensures TextReads([]) == []
  {
  }

  lemma CallFieldsParse(fs: seq<Field>, destination: bytes, path: bytes, iface: bytes, member: bytes, signature: bytes)
    requires CallTextsOk(destination, path, iface, member, signature)
    requires fs == CallFields(destination, path, iface, member, signature)
    requires (forall i | 0 <= i < |fs| :: FieldOk(fs[i])) && |FieldBytes(fs, 0)| < U32
    ensures ParseFields(FieldBytes(fs, 0)) == Parsed(Learned(0, signature, UNNAMED))
  {
    hide FieldBytes, ParseLoop;
    var fields := FieldBytes(fs, 0);
    assert At(fields, 0, fields);
    ParseOver(fields, 0, fs, NOTHING);
    CallFieldsSay(fs, destination, path, iface, member, signature);
  }

  lemma CallFieldsSay(fs: seq<Field>, destination: bytes, path: bytes, iface: bytes, member: bytes, signature: bytes)
    requires CallTextsOk(destination, path, iface, member, signature)
    requires fs == CallFields(destination, path, iface, member, signature)
    requires forall i | 0 <= i < |fs| :: FieldTyped(fs[i])
    ensures LearnAll(NOTHING, fs) == Learned(0, signature, [])
  {
    var f1 := fs[1..];
    var f2 := f1[1..];
    var f3 := f2[1..];
    var f4 := f3[1..];
    assert f1[0] == fs[1] && f2[0] == fs[2] && f3[0] == fs[3];
    assert LearnAll(NOTHING, fs) == LearnAll(NOTHING, f1) == LearnAll(NOTHING, f2) == LearnAll(NOTHING, f3)
        == LearnAll(NOTHING, f4);
    if signature == [] {
      assert f4 == [];
    } else {
      assert f4 == [TextField(SIGNATURE, G, signature)];
      assert f4[1..] == [];
      assert LearnAll(NOTHING, f4) == LearnAll(Learn(NOTHING, f4[0]), []);
    }
  }
}
