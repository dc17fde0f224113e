/**
 internal/dbus/conn.go: the method call the agent writes, and the loop that finds its reply among whatever else the
 bus delivers.
 */
module DBusConn {
  import opened Bytes
  import opened DBusTypes
  import opened DBusWire
  import opened DBusCodec
  import opened DBusMessage
  import opened DBusShift

  const MAX_MESSAGE: nat := 0x100_0000
  const ATTEMPTS: nat := 16

  const UNNAMED: bytes := Ascii("the system bus returned an error")

  // ---- header fields --------------------------------------------------------------------------------------------

  /** What a reply's header fields tell the caller. */
  datatype Learned = Learned(serial: nat, signature: bytes, errName: bytes)

  datatype Parse = Parsed(learned: Learned) | ParseStalled

  const NOTHING := Learned(0, [], [])

  function ParseLoop(buf: bytes, c: Cursor, acc: Learned): Parse
    decreases Left(buf, c)
  {
    if c.pos >= |buf| || c.failed then Parsed(acc)
    else
      var d := PadTo(buf, c, 8);
      if d.pos >= |buf| then Parsed(acc)
      else
        var (code, e) := ReadByte(buf, d);
        var (typ, f) := ReadSig(buf, e);
        if code == REPLY_SERIAL then
          var (n, g) := ReadWord(buf, f, 4);
          ParseLoop(buf, g, acc.(serial := n))
        else if code == SIGNATURE then
          var (s, g) := ReadSig(buf, f);
          ParseLoop(buf, g, acc.(signature := s))
        else if code == ERROR_NAME then
          var (s, g) := ReadText(buf, f);
          ParseLoop(buf, g, acc.(errName := s))
        else
          match Skip(buf, f, typ)
          case Stalled => ParseStalled
          case Rest(_, g) => ParseLoop(buf, g, acc)
  }

  function Named(l: Learned): Learned {
    if l.errName == [] then l.(errName := UNNAMED) else l
  }

  function ParseFields(buf: bytes): Parse {
    match ParseLoop(buf, Cursor(0, false), NOTHING)
    case Parsed(l) => Parsed(Named(l))
    case ParseStalled => ParseStalled
  }

  /** Reading a field's code and type, and then its value by any of the readers, leaves less to read. */
  lemma FieldMoves(buf: bytes, c: Cursor)
    requires !c.failed && c.pos < |buf|
    ensures var f := ReadSig(buf, ReadByte(buf, PadTo(buf, c, 8)).1).1;
            Left(buf, f) < Left(buf, c) && Left(buf, ReadWord(buf, f, 4).1) < Left(buf, c) &&
            Left(buf, ReadSig(buf, f).1) < Left(buf, c) && Left(buf, ReadText(buf, f).1) < Left(buf, c)
  {
  }

  method ReadFields(buf: bytes) returns (learned: Learned, stalled: bool)
    ensures stalled == ParseFields(buf).ParseStalled?
    ensures !stalled ==> ParseFields(buf) == Parsed(learned)
  {
    hide Skip, ReadSig, ReadWord, ReadText, ReadByte;
    var d := new Decoder(buf);
    learned := NOTHING;
    while d.pos < |d.buf| && !d.failed
      invariant d.buf == buf
      invariant ParseLoop(buf, Cursor(0, false), NOTHING) == ParseLoop(buf, d.At(), learned)
      decreases Left(buf, d.At())
    {
      ghost var was := d.At();
      FieldMoves(buf, was);
      d.Pad(8);
      if d.pos >= |d.buf| {
        break;
      }
      var code := d.GetByte();
      var typ := d.GetSignature();
      if code == REPLY_SERIAL {
        var n := d.GetWord(4);
        learned := learned.(serial := n);
      } else if code == SIGNATURE {
        var s := d.GetSignature();
        learned := learned.(signature := s);
      } else if code == ERROR_NAME {
        var s := d.GetText();
        learned := learned.(errName := s);
      } else {
        var _, s := d.SkipValue(typ);
        if s {
          return learned, true;
        }
      }
    }
    stalled := false;
    if learned.errName == [] {
      learned := learned.(errName := UNNAMED);
    }
  }

  // ---- replies --------------------------------------------------------------------------------------------------

  /** How reading a reply ends. `NeverReturns` is a header field whose skip stalls. */
  datatype Reply =
    | Return(body: bytes, signature: bytes)
    | BusError(name: bytes, detail: bytes)
    | Ended
    | BigEndian
    | TooLarge
    | NoAnswer
    | NeverReturns

  /** One pass of the loop: the answer, or somebody else's message stepped over. */
  datatype Pass = Answer(reply: Reply) | Other

  function OneMessage(stream: bytes, serial: nat): (r: (Pass, bytes))
    ensures |r.1| <= |stream|
  {
    if |stream| < 16 then (Answer(Ended), [])
    else
      var head, rest := stream[..16], stream[16..];
      var bodyLen, fieldsLen := FromLe(head[4..8]), FromLe(head[12..16]);
      if head[0] != LITTLE then (Answer(BigEndian), rest)
      else if bodyLen > MAX_MESSAGE || fieldsLen > MAX_MESSAGE then (Answer(TooLarge), rest)
      else
        var bodyAt := Align(16 + fieldsLen, 8) - 16;
        if |rest| < bodyAt + bodyLen then (Answer(Ended), [])
        else
          (Classify(head[1], rest[..fieldsLen], rest[bodyAt..bodyAt + bodyLen], serial), rest[bodyAt + bodyLen..])
  }

  function Classify(kind: byte, fields: bytes, body: bytes, serial: nat): Pass {
    match ParseFields(fields)
    case ParseStalled => Answer(NeverReturns)
    case Parsed(l) =>
      if kind == ERROR && l.serial == serial then
        Answer(BusError(l.errName,
                        if l.signature != [] && l.signature[0] == S then ReadText(body, Cursor(0, false)).0 else []))
      else if kind == METHOD_RETURN && l.serial == serial then Answer(Return(body, l.signature))
      else Other
  }

  function ReadReplies(stream: bytes, serial: nat, attempts: nat): (Reply, bytes) {
    if attempts == 0 then (NoAnswer, stream)
    else
      var (pass, rest) := OneMessage(stream, serial);
      match pass
      case Answer(reply) => (reply, rest)
      case Other => ReadReplies(rest, serial, attempts - 1)
  }

  // ---- the call -------------------------------------------------------------------------------------------------

  function TextField(code: byte, typ: byte, value: bytes): Field {
    Field(code, Basic(typ), Text(value))
  }

  function CallFields(destination: bytes, path: bytes, iface: bytes, member: bytes, signature: bytes): seq<Field> {
    [TextField(PATH, O, path), TextField(DESTINATION, S, destination), TextField(INTERFACE, S, iface),
     TextField(MEMBER, S, member)] + if signature == [] then [] else [TextField(SIGNATURE, G, signature)]
  }

  /** String arguments one after another. */
  function ArgBytes(args: seq<bytes>, off: nat): bytes
    decreases |args|
  {
    if args == [] then []
    else EncText(args[0], off) + ArgBytes(args[1..], off + |EncText(args[0], off)|)
  }

  function CallMessage(serial: nat, fields: seq<Field>, args: seq<bytes>): Message {
    Message(METHOD_CALL, 0, 1, serial, fields, ArgBytes(args, 0))
  }

  lemma {:induction false} ArgBytesSnoc(args: seq<bytes>, a: bytes, off: nat)
    ensures ArgBytes(args + [a], off) == ArgBytes(args, off) + EncText(a, off + |ArgBytes(args, off)|)
    decreases |args|
  {
    hide EncText;
    if args == [] {
      assert args + [a] == [a] && [a][1..] == [];
      assert ArgBytes([], off + |EncText(a, off)|) == [];
    } else {
      var next := off + |EncText(args[0], off)|;
      assert (args + [a])[1..] == args[1..] + [a];
      ArgBytesSnoc(args[1..], a, next);
    }
  }

  predicate CallTextsOk(destination: bytes, path: bytes, iface: bytes, member: bytes, signature: bytes) {
    |destination| < U32 && |path| < U32 && |iface| < U32 && |member| < U32 && |signature| < 256
  }

  lemma CallFieldsOk(destination: bytes, path: bytes, iface: bytes, member: bytes, signature: bytes)
    requires CallTextsOk(destination, path, iface, member, signature)
    ensures var fs := CallFields(destination, path, iface, member, signature);
            forall i | 0 <= i < |fs| :: FieldOk(fs[i])
  {
  }

  method EncodeArgs(args: seq<bytes>) returns (body: bytes)
    ensures body == ArgBytes(args, 0)
  {
    hide EncText;
    var e := new Encoder();
    var i := 0;
    while i < |args|
      invariant 0 <= i <= |args|
      invariant e.buf == ArgBytes(args[..i], 0)
    {
      assert args[..i + 1] == args[..i] + [args[i]];
      ArgBytesSnoc(args[..i], args[i], 0);
      e.PutText(args[i]);
      i := i + 1;
    }
    assert args[..i] == args;
    body := e.buf;
  }

  method AppendField(e: Encoder, code: byte, typ: byte, value: bytes, ghost fs: seq<Field>)
    requires typ == O || typ == S || typ == G
    requires FieldOk(TextField(code, typ, value)) && forall i | 0 <= i < |fs| :: FieldOk(fs[i])
    requires e.buf == FieldBytes(fs, 0)
    modifies e
    ensures forall i | 0 <= i < |fs| + 1 :: FieldOk((fs + [TextField(code, typ, value)])[i])
    ensures e.buf == FieldBytes(fs + [TextField(code, typ, value)], 0)
  {
    hide FieldBytes, HasType, Enc, FieldOk;
    ghost var f := TextField(code, typ, value);
    ghost var was := e.buf;
    TextFieldLayout(code, typ, value, |was|);
    FieldBytesSnoc(fs, f, 0);
    forall i | 0 <= i < |fs| + 1 ensures FieldOk((fs + [f])[i]) {
    }
    e.Pad(8);
    e.PutByte(code);
    e.PutSignature([typ]);
    if typ == G {
      e.PutSignature(value);
    } else {
      e.PutText(value);
    }
    Regroup4(was, Padding(|was|, 8), [code], EncSig([typ]), EncBasic(typ, Text(value), Align(|was|, 8) + 4));
  }

  lemma TextFieldLayout(code: byte, typ: byte, value: bytes, off: nat)
    requires (typ == O || typ == S || typ == G) && FieldOk(TextField(code, typ, value))
    ensures HasType(Text(value), Basic(typ)) && HasType(FieldValue(TextField(code, typ, value)), FIELD)
    ensures Enc(FIELD, FieldValue(TextField(code, typ, value)), off)
         == Padding(off, 8) + [code] + EncSig([typ]) + EncBasic(typ, Text(value), Align(off, 8) + 4)
  {
    FieldLayout(TextField(code, typ, value), off);
    assert |EncSig([typ])| == 3;
  }

  lemma Regroup4(a: bytes, b: bytes, c: bytes, d: bytes, e: bytes)
    ensures a + b + c + d + e == a + (b + c + d + e)
  {
  }

  class Conn {
    /** What the bus has still to deliver, and what the agent has sent. */
    var input: bytes
    var output: bytes
    var serial: nat

    constructor (stream: bytes)
      ensures input == stream && output == [] && serial == 0
    {
      input, output, serial := stream, [], 0;
    }

    method Call(destination: bytes, path: bytes, iface: bytes, member: bytes, signature: bytes, args: seq<bytes>)
      returns (reply: Reply)
      requires CallTextsOk(destination, path, iface, member, signature)
      modifies this
      ensures serial == (old(serial) + 1) % U32
      ensures var m := CallMessage(serial, CallFields(destination, path, iface, member, signature), args);
              MessageOk(m) && output == old(output) + Frame(m)
      ensures (reply, input) == ReadReplies(old(input), serial, ATTEMPTS)
    {
      hide FieldBytes, Fixed, Frame, CallFields, ReadReplies, FieldOk, ArgBytes;
      var body := EncodeArgs(args);
      serial := (serial + 1) % U32;
      var msg := BuildMessage(serial, destination, path, iface, member, signature, body);
      ghost var fs := CallFields(destination, path, iface, member, signature);
      CallFieldsOk(destination, path, iface, member, signature);
      FrameLayout(CallMessage(serial, fs, args));
      output := output + msg;
      reply := ReadReply();
    }

    method ReadReply() returns (reply: Reply)
      modifies `input
      ensures (reply, input) == ReadReplies(old(input), serial, ATTEMPTS)
    {
      hide OneMessage;
      var attempts := 0;
      while attempts < ATTEMPTS
        invariant 0 <= attempts <= ATTEMPTS
        invariant ReadReplies(old(input), serial, ATTEMPTS) == ReadReplies(input, serial, ATTEMPTS - attempts)
      {
        var done, answer := ReadOne();
        if done {
          return answer;
        }
        attempts := attempts + 1;
      }
      return NoAnswer;
    }

    /** Takes n bytes off the stream, or everything when there are fewer. */
    method ReadFull(n: nat) returns (data: bytes, ok: bool)
      modifies `input
      ensures ok == (n <= |old(input)|)
      ensures ok ==> data == old(input)[..n] && input == old(input)[n..]
      ensures !ok ==> input == []
    {
      if n > |input| {
        input := [];
        return [], false;
      }
      data, ok := input[..n], true;
      input := input[n..];
    }

    method ReadOne() returns (done: bool, reply: Reply)
      modifies `input
      ensures var (pass, rest) := OneMessage(old(input), serial);
              input == rest && done == pass.Answer? && (done ==> pass == Answer(reply))
    {
      hide Classify;
      done := true;
      var head, ok := ReadFull(16);
      if !ok {
        return true, Ended;
      }
      var endian, kind, bodyLen, fieldsLen := ReadHead(head);
      if endian != LITTLE {
        return true, BigEndian;
      }
      if bodyLen > MAX_MESSAGE || fieldsLen > MAX_MESSAGE {
        return true, TooLarge;
      }
      var fields, body, ok1 := ReadParts(fieldsLen, bodyLen);
      if !ok1 {
        return true, Ended;
      }
      done, reply := Judge(kind, fields, body);
    }

    /** The fields, the padding to the body's boundary, and the body: read whatever the message turns out to be. */
    method ReadParts(fieldsLen: nat, bodyLen: nat) returns (fields: bytes, body: bytes, ok: bool)
      modifies `input
      ensures var bodyAt := Align(16 + fieldsLen, 8) - 16;
              ok == (bodyAt + bodyLen <= |old(input)|) &&
              (ok ==> fields == old(input)[..fieldsLen] && body == old(input)[bodyAt..bodyAt + bodyLen] &&
                      input == old(input)[bodyAt + bodyLen..]) &&
              (!ok ==> input == [])
    {
      var rest := input;
      body := [];
      fields, ok := ReadFull(fieldsLen);
      if !ok {
        return;
      }
      var padding := Align(16 + fieldsLen, 8) - (16 + fieldsLen);
      if padding > 0 {
        var _, ok2 := ReadFull(padding);
        if !ok2 {
          ok := false;
          return;
        }
      }
      assert input == rest[fieldsLen + padding..];
      body, ok := ReadFull(bodyLen);
    }

    method Judge(kind: byte, fields: bytes, body: bytes) returns (done: bool, reply: Reply)
      ensures var pass := Classify(kind, fields, body, serial);
              done == pass.Answer? && (done ==> pass == Answer(reply))
    {
      hide ParseFields;
      reply := NoAnswer;
      var learned, stalled := ReadFields(fields);
      if stalled {
        return true, NeverReturns;
      }
      if kind == ERROR && learned.serial == serial {
        var detail := [];
        if learned.signature != [] && learned.signature[0] == S {
          var b := new Decoder(body);
          detail := b.GetText();
        }
        return true, BusError(learned.errName, detail);
      } else if kind == METHOD_RETURN && learned.serial == serial {
        return true, Return(body, learned.signature);
      }
      done := false;
    }
  }

  /** The fixed sixteen bytes of a header. */
  method ReadHead(head: bytes) returns (endian: byte, kind: byte, bodyLen: nat, fieldsLen: nat)
    requires |head| == 16
    ensures endian == head[0] && kind == head[1]
    ensures bodyLen == FromLe(head[4..8]) && fieldsLen == FromLe(head[12..16])
  {
    var d := new Decoder(head);
    endian := d.GetByte();
    kind := d.GetByte();
    var _ := d.GetByte();
    var _ := d.GetByte();
    assert d.At() == Cursor(4, false);
    bodyLen := d.GetWord(4);
    assert d.At() == Cursor(8, false);
    var _ := d.GetWord(4);
    assert d.At() == Cursor(12, false);
    fieldsLen := d.GetWord(4);
  }

  method BuildMessage(serial: nat, destination: bytes, path: bytes, iface: bytes, member: bytes, signature: bytes,
                      body: bytes)
    returns (msg: bytes)
    requires serial < U32 && CallTextsOk(destination, path, iface, member, signature)
    ensures var fs := CallFields(destination, path, iface, member, signature);
            (forall i | 0 <= i < |fs| :: FieldOk(fs[i])) &&
            msg == Fixed(Message(METHOD_CALL, 0, 1, serial, fs, body), |FieldBytes(fs, 0)|) + FieldBytes(fs, 0)
                   + Padding(|FieldBytes(fs, 0)|, 8) + body
  {
    hide FieldBytes, CallFields, HasType, FieldOk;
    ghost var fs := CallFields(destination, path, iface, member, signature);
    CallFieldsOk(destination, path, iface, member, signature);
    var out := new Encoder();
    out.PutByte(LITTLE);
    out.PutByte(METHOD_CALL);
    out.PutByte(0);
    out.PutByte(1);
    assert out.buf == [LITTLE, METHOD_CALL, 0, 1] && Padding(4, 4) == [];
    out.PutUint32(|body| % U32);
    assert out.buf == [LITTLE, METHOD_CALL, 0, 1] + Le(|body| % U32, 4) && Padding(8, 4) == [];
    out.PutUint32(serial);
    assert out.buf == [LITTLE, METHOD_CALL, 0, 1] + Le(|body| % U32, 4) + Le(serial, 4) && Padding(12, 4) == [];
    var fields := EncodeFields(destination, path, iface, member, signature);
    out.PutUint32(|fields| % U32);
    assert out.buf == Fixed(Message(METHOD_CALL, 0, 1, serial, fs, body), |fields|);
    out.buf := out.buf + fields;
    AlignShift(|fields|, 8);
    AlignShift(|fields| + 8, 8);
    assert |out.buf| == |fields| + 8 + 8;
    out.Pad(8);
    out.buf := out.buf + body;
    msg := out.buf;
  }

  method EncodeFields(destination: bytes, path: bytes, iface: bytes, member: bytes, signature: bytes)
    returns (fields: bytes)
    requires CallTextsOk(destination, path, iface, member, signature)
    ensures var fs := CallFields(destination, path, iface, member, signature);
            (forall i | 0 <= i < |fs| :: FieldOk(fs[i])) && fields == FieldBytes(fs, 0)
  {
    ghost var fs := CallFields(destination, path, iface, member, signature);
    CallFieldsOk(destination, path, iface, member, signature);
    var e := new Encoder();
    assert fs[..0] == [] && fs[..1] == fs[..0] + [fs[0]] && fs[..2] == fs[..1] + [fs[1]];
    assert fs[..3] == fs[..2] + [fs[2]] && fs[..4] == fs[..3] + [fs[3]];
    AppendField(e, PATH, O, path, fs[..0]);
    AppendField(e, DESTINATION, S, destination, fs[..1]);
    AppendField(e, INTERFACE, S, iface, fs[..2]);
    AppendField(e, MEMBER, S, member, fs[..3]);
    if signature != [] {
      assert fs == fs[..4] + [fs[4]];
      AppendField(e, SIGNATURE, G, signature, fs[..4]);
    } else {
      assert fs == fs[..4];
    }
    fields := e.buf;
  }
}
