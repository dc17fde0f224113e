/**
 The D-Bus Specification's "Message Format": a header of signature yyyyuua(yv) marshalled at offset 0, padding to 8,
 then the body. And what the agent's three interesting header fields mean in a list of fields.
 */
module DBusMessage {
  import opened Bytes
  import opened DBusTypes
  import opened DBusShift

  const LITTLE: byte := 108
  const METHOD_CALL: byte := 1
  const METHOD_RETURN: byte := 2
  const ERROR: byte := 3

  const PATH: byte := 1
  const INTERFACE: byte := 2
  const MEMBER: byte := 3
  const ERROR_NAME: byte := 4
  const REPLY_SERIAL: byte := 5
  const DESTINATION: byte := 6
  const SIGNATURE: byte := 8

  /** One header field: a code and a variant. */
  datatype Field = Field(code: byte, t: Type, v: Value)

  datatype Message =
    Message(kind: byte, flags: byte, version: byte, serial: nat, fields: seq<Field>, body: bytes)

  const FIELD: Type := Struct([Basic(Y), Variant])
  const HEADER: Type := Struct([Basic(Y), Basic(Y), Basic(Y), Basic(Y), Basic(U), Basic(U), Array(FIELD)])

  function FieldValue(f: Field): Value {
    Many([Num(f.code), Wrapped(f.t, f.v)])
  }

  function FieldValues(fs: seq<Field>): (vs: seq<Value>)
    ensures |vs| == |fs| && forall i | 0 <= i < |fs| :: vs[i] == FieldValue(fs[i])
  {
    if fs == [] then [] else [FieldValue(fs[0])] + FieldValues(fs[1..])
  }

  predicate FieldOk(f: Field) {
    |Sig(f.t)| < 256 && HasType(f.v, f.t)
  }

  predicate MessageOk(m: Message) {
    m.serial < U32 && forall i | 0 <= i < |m.fields| :: FieldOk(m.fields[i])
  }

  lemma FieldHasType(f: Field)
    requires FieldOk(f)
    ensures HasType(FieldValue(f), FIELD)
  {
    var v := FieldValue(f);
    assert HasType(v.items[0], Basic(Y));
    assert HasType(v.items[1], Variant);
  }

  /** A list of header fields marshalled from an offset. */
  function FieldBytes(fs: seq<Field>, off: nat): bytes
    requires forall i | 0 <= i < |fs| :: FieldOk(fs[i])
  {
    if fs == [] then []
    else
      FieldHasType(fs[0]);
      var first := Enc(FIELD, FieldValue(fs[0]), off);
      first + FieldBytes(fs[1..], off + |first|)
  }

  function HeaderValue(m: Message): Value {
    Many([Num(LITTLE), Num(m.kind), Num(m.flags), Num(m.version), Num(|m.body| % U32), Num(m.serial),
          Many(FieldValues(m.fields))])
  }

  lemma HeaderHasType(m: Message)
    requires MessageOk(m)
    ensures HasType(HeaderValue(m), HEADER)
  {
    forall i | 0 <= i < |m.fields| ensures HasType(FieldValues(m.fields)[i], FIELD) {
      FieldHasType(m.fields[i]);
    }
    var vs := HeaderValue(m).items;
    var ts := HEADER.fields;
    assert HasType(vs[6], Array(FIELD));
    forall i | 0 <= i < 7 ensures HasType(vs[i], ts[i]) {
    }
  }

  /** A message on the wire. */
  function Frame(m: Message): bytes
    requires MessageOk(m)
  {
    HeaderHasType(m);
    var head := Enc(HEADER, HeaderValue(m), 0);
    head + Padding(|head|, 8) + m.body
  }

  // ---- layouts --------------------------------------------------------------------------------------------------

  /** One value put in front of others that are all of their types. */
  predicate Typed(ts: seq<Type>, vs: seq<Value>) {
    |ts| == |vs| && forall i | 0 <= i < |ts| :: HasType(vs[i], ts[i])
  }

  lemma EncCons(t: Type, ts: seq<Type>, v: Value, vs: seq<Value>, off: nat)
    requires HasType(v, t) && Typed(ts, vs)
    ensures Typed([t] + ts, [v] + vs)
    ensures EncAll([t] + ts, [v] + vs, off) == Enc(t, v, off) + EncAll(ts, vs, off + |Enc(t, v, off)|)
  {
    hide Enc, HasType;
    forall i | 0 <= i < |ts| + 1 ensures HasType(([v] + vs)[i], ([t] + ts)[i]) {
      if i > 0 {
        assert HasType(vs[i - 1], ts[i - 1]);
      }
    }
    assert ([t] + ts)[1..] == ts && ([v] + vs)[1..] == vs;
  }

  lemma ByteCons(n: byte, ts: seq<Type>, vs: seq<Value>, off: nat)
    requires Typed(ts, vs)
    ensures Typed([Basic(Y)] + ts, [Num(n)] + vs)
    ensures EncAll([Basic(Y)] + ts, [Num(n)] + vs, off) == [n] + EncAll(ts, vs, off + 1)
  {
    hide EncAll, Typed;
    EncCons(Basic(Y), ts, Num(n), vs, off);
  }

  lemma WordCons(n: nat, ts: seq<Type>, vs: seq<Value>, off: nat)
    requires n < U32 && Typed(ts, vs) && off % 4 == 0
    ensures Typed([Basic(U)] + ts, [Num(n)] + vs)
    ensures EncAll([Basic(U)] + ts, [Num(n)] + vs, off) == Le(n, 4) + EncAll(ts, vs, off + 4)
  {
    hide EncAll, Typed;
    EncCons(Basic(U), ts, Num(n), vs, off);
    assert Padding(off, 4) == [];
  }

  lemma EncLast(t: Type, v: Value, off: nat)
    requires HasType(v, t)
    ensures Typed([t], [v]) && EncAll([t], [v], off) == Enc(t, v, off)
  {
    hide Enc, HasType;
    assert EncAll([], [], off + |Enc(t, v, off)|) == [];
    assert [t][1..] == [] && [v][1..] == [];
  }

  /** What one field is on the wire. */
  lemma FieldLayout(f: Field, off: nat)
    requires FieldOk(f)
    ensures HasType(FieldValue(f), FIELD)
    ensures Enc(FIELD, FieldValue(f), off) == Padding(off, 8) + [f.code] + EncSig(Sig(f.t))
                                              + Enc(f.t, f.v, Align(off, 8) + 1 + |EncSig(Sig(f.t))|)
  {
    hide Enc, EncAll, HasType, Typed, EncSig, FieldOk, Sig, Padding;
    FieldHasType(f);
    var start := Align(off, 8);
    var v, w := FieldValue(f), Wrapped(f.t, f.v);
    EncStruct(FIELD.fields, v, off);
    assert HasType(v.items[1], FIELD.fields[1]);
    var s := EncSig(Sig(f.t));
    EncVariant(w, start + 1);
    EncLast(Variant, w, start + 1);
    ByteCons(f.code, [Variant], [w], start);
    assert [Basic(Y)] + [Variant] == FIELD.fields && [Num(f.code)] + [w] == v.items;
    FourParts(Padding(off, 8), [f.code], s, Enc(f.t, f.v, start + 1 + |s|));
  }

  lemma FourParts(a: bytes, b: bytes, c: bytes, d: bytes)
    ensures a + (b + (c + d)) == a + b + c + d
  {
  }

  lemma {:induction false} FieldBytesAreElements(fs: seq<Field>, off: nat)
    requires forall i | 0 <= i < |fs| :: FieldOk(fs[i])
    ensures forall i | 0 <= i < |fs| :: HasType(FieldValues(fs)[i], FIELD)
    ensures EncEach(FIELD, FieldValues(fs), off) == FieldBytes(fs, off)
  {
    hide Enc, HasType;
    forall i | 0 <= i < |fs| ensures HasType(FieldValues(fs)[i], FIELD) {
      FieldHasType(fs[i]);
    }
    if fs != [] {
      assert FieldValues(fs)[1..] == FieldValues(fs[1..]);
      FieldBytesAreElements(fs[1..], off + |Enc(FIELD, FieldValue(fs[0]), off)|);
    }
  }

  /** Fields encoded in a buffer of their own are the bytes of fields encoded in place, after the 16-byte header. */
  lemma FieldBytesShift(fs: seq<Field>)
    requires forall i | 0 <= i < |fs| :: FieldOk(fs[i])
    ensures FieldBytes(fs, 16) == FieldBytes(fs, 0)
  {
    hide FieldBytes, EncEach, HasType, FieldOk, FieldValue;
    FieldBytesAreElements(fs, 0);
    FieldBytesAreElements(fs, 8);
    FieldBytesAreElements(fs, 16);
    EncEachShift(FIELD, FieldValues(fs), 0);
    EncEachShift(FIELD, FieldValues(fs), 8);
  }

  lemma {:induction false} FieldBytesSnoc(fs: seq<Field>, f: Field, off: nat)
    requires FieldOk(f) && forall i | 0 <= i < |fs| :: FieldOk(fs[i])
    ensures HasType(FieldValue(f), FIELD)
    ensures FieldBytes(fs + [f], off) == FieldBytes(fs, off) + Enc(FIELD, FieldValue(f), off + |FieldBytes(fs, off)|)
  {
    hide Enc, HasType;
    FieldHasType(f);
    if fs == [] {
      assert fs + [f] == [f] && [f][1..] == [];
      assert FieldBytes([], off + |Enc(FIELD, FieldValue(f), off)|) == [];
    } else {
      FieldHasType(fs[0]);
      var next := off + |Enc(FIELD, FieldValue(fs[0]), off)|;
      assert (fs + [f])[1..] == fs[1..] + [f];
      FieldBytesSnoc(fs[1..], f, next);
    }
  }

  /** The first sixteen bytes of a message. */
  function Fixed(m: Message, fieldsLen: nat): (s: bytes)
    ensures |s| == 16
  {
    [LITTLE, m.kind, m.flags, m.version] + Le(|m.body| % U32, 4) + Le(m.serial, 4) + Le(fieldsLen % U32, 4)
  }

  /** The header is its sixteen fixed bytes and then the fields. */
  lemma FrameLayout(m: Message)
    requires MessageOk(m)
    ensures var fields := FieldBytes(m.fields, 0);
            Frame(m) == Fixed(m, |fields|) + fields + Padding(|fields|, 8) + m.body
  {
    HeaderHasType(m);
    HeaderLayout(m);
    FieldBytesShift(m.fields);
    var fields := FieldBytes(m.fields, 0);
    AlignShift(|fields|, 8);
    AlignShift(|fields| + 8, 8);
    assert |fields| + 8 + 8 == 16 + |fields|;
  }

  lemma HeaderLayout(m: Message)
    requires MessageOk(m) && HasType(HeaderValue(m), HEADER)
    ensures Enc(HEADER, HeaderValue(m), 0) == Fixed(m, |FieldBytes(m.fields, 16)|) + FieldBytes(m.fields, 16)
  {
    hide EncAll, Typed, HasType, FieldBytes, FieldValues, Le;
    var fields := FieldBytes(m.fields, 16);
    var v0 := Many(FieldValues(m.fields));
    ArrayLayout(m.fields);
    EncLast(Array(FIELD), v0, 12);
    var t1, v1 := [Basic(U)] + [Array(FIELD)], [Num(m.serial)] + [v0];
    WordCons(m.serial, [Array(FIELD)], [v0], 8);
    var t2, v2 := [Basic(U)] + t1, [Num(|m.body| % U32)] + v1;
    WordCons(|m.body| % U32, t1, v1, 4);
    var t3, v3 := [Basic(Y)] + t2, [Num(m.version)] + v2;
    ByteCons(m.version, t2, v2, 3);
    var t4, v4 := [Basic(Y)] + t3, [Num(m.flags)] + v3;
    ByteCons(m.flags, t3, v3, 2);
    var t5, v5 := [Basic(Y)] + t4, [Num(m.kind)] + v4;
    ByteCons(m.kind, t4, v4, 1);
    ByteCons(LITTLE, t5, v5, 0);
    assert [Basic(Y)] + t5 == HEADER.fields && [Num(LITTLE)] + v5 == HeaderValue(m).items;
    Regroup(LITTLE, m.kind, m.flags, m.version, Le(|m.body| % U32, 4), Le(m.serial, 4), Le(|fields| % U32, 4), fields);
    assert Padding(0, 8) == [];
  }

  lemma Regroup(h0: byte, h1: byte, h2: byte, h3: byte, a: bytes, b: bytes, c: bytes, d: bytes)
    ensures [h0] + ([h1] + ([h2] + ([h3] + (a + (b + (c + d)))))) == [h0, h1, h2, h3] + a + b + c + d
  {
    var words := a + (b + (c + d));
    assert [h0] + ([h1] + ([h2] + ([h3] + words))) == [h0, h1, h2, h3] + words;
    assert [h0, h1, h2, h3] + a + b + c + d == [h0, h1, h2, h3] + words;
  }

  lemma ArrayLayout(fs: seq<Field>)
    requires forall i | 0 <= i < |fs| :: FieldOk(fs[i])
    ensures HasType(Many(FieldValues(fs)), Array(FIELD))
    ensures Enc(Array(FIELD), Many(FieldValues(fs)), 12) == Le(|FieldBytes(fs, 16)| % U32, 4) + FieldBytes(fs, 16)
  {
    hide Enc, EncEach, FieldBytes, FieldOk, FieldValue, Le;
    FieldBytesAreElements(fs, 16);
    ArrayHasType(FieldValues(fs));
    EncArray(FIELD, Many(FieldValues(fs)), 12);
    assert Padding(12, 4) == [] && Padding(16, 8) == [] && Align(16, 8) == 16;
  }

  lemma ArrayHasType(vs: seq<Value>)
    requires forall i | 0 <= i < |vs| :: HasType(vs[i], FIELD)
    ensures HasType(Many(vs), Array(FIELD)) && Sig(FIELD)[0] == OPEN
  {
    assert Supported(FIELD) by {
      assert forall i | 0 <= i < 2 :: Supported(FIELD.fields[i]);
    }
    assert Supported(Array(FIELD));
  }
}
