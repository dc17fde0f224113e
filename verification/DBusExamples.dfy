/** The D-Bus Specification's marshalling byte by byte, and messages that are cut off, refused, or name an error. */
module DBusExamples {
  import opened Options
  import opened Bytes
  import opened DBusTypes
  import opened DBusWire
  import opened DBusMessage
  import opened DBusConn
  import opened DBusReply

  // ---- values ---------------------------------------------------------------------------------------------------

  /** The specification's table of alignments ("Summary of D-Bus Marshalling"). */
  lemma Alignments(code: char)
    requires code as int < 128
    ensures AlignmentOf(code as int) ==
              if code in "ygv" then 1
              else if code in "nq" then 2
              else if code in "biusoa" then 4
              else if code in "xtd({" then 8
              else 1
  {
  }

  lemma Byte(n: byte, off: nat)
    ensures HasType(Num(n), Basic(121)) && Enc(Basic(121), Num(n), off) == [n]
  {
  }

  lemma Word(n: nat, off: nat)
    requires n < 65536
    ensures HasType(Num(n), Basic(116))
    ensures Enc(Basic(116), Num(n), off) == Padding(off, 8) + [n % 256, n / 256, 0, 0, 0, 0, 0, 0]
  {
    EightBytes(n);
  }

  /** A byte and a 64-bit number in a struct: both boundaries of eight are filled with zeros. */
  lemma StructExample()
    ensures HasType(Many([Num(7), Num(258)]), Struct([Basic(121), Basic(116)]))
    ensures Enc(Struct([Basic(121), Basic(116)]), Many([Num(7), Num(258)]), 5)
         == [0, 0, 0] + ([7] + ([0, 0, 0, 0, 0, 0, 0] + [2, 1, 0, 0, 0, 0, 0, 0]))
  {
    hide *;
    var b, w, x, y := Basic(121), Basic(116), Num(7), Num(258);
    Byte(7, 8);
    Word(258, 9);
    StructTyped(b, w, x, y);
    EncStruct([b, w], Many([x, y]), 5);
    TwoValues(b, w, x, y, 8);
    Gaps();
  }

  lemma Gaps()
    ensures Padding(9, 8) == [0, 0, 0, 0, 0, 0, 0] && Padding(5, 8) == [0, 0, 0] && Padding(2, 4) == [0, 0]
    ensures Padding(0, 4) == [] && Padding(4, 8) == [0, 0, 0, 0] && Padding(8, 8) == []
    ensures Align(5, 8) == 8 && Align(0, 4) == 0 && Align(4, 8) == 8
  {
  }

  lemma StructTyped(s: Type, t: Type, x: Value, y: Value)
    requires HasType(x, s) && HasType(y, t)
    ensures HasType(Many([x, y]), Struct([s, t])) && Many([x, y]).items == [x, y]
  {
    var v, ts := Many([x, y]), [s, t];
    forall i | 0 <= i < 2 ensures HasType(v.items[i], ts[i]) {
    }
    TypeSupported(x, s);
    TypeSupported(y, t);
  }

  lemma TypeSupported(v: Value, t: Type)
    requires HasType(v, t)
    ensures Supported(t)
  {
  }

  lemma TwoValues(s: Type, t: Type, x: Value, y: Value, off: nat)
    requires HasType(x, s) && HasType(y, t)
    ensures var first := Enc(s, x, off);
            EncAll([s, t], [x, y], off) == first + Enc(t, y, off + |first|)
  {
    hide Enc, HasType;
    var first := Enc(s, x, off);
    assert [s, t][1..] == [t] && [x, y][1..] == [y] && [t][1..] == [] && [y][1..] == [];
    assert EncAll([t], [y], off + |first|) == Enc(t, y, off + |first|) + [];
  }

  lemma EightBytes(n: nat)
    requires n < 65536
    ensures Le(n, 8) == [n % 256, n / 256, 0, 0, 0, 0, 0, 0]
  {
    assert Le(0, 6) == [0, 0, 0, 0, 0, 0] by {
      assert Le(0, 3) == [0, 0, 0];
    }
    assert Le(n / 256, 7) == [n / 256] + Le(0, 6);
  }

  /** A text: its length in four bytes on a boundary of four, its bytes, and a zero. */
  lemma TextExample()
    ensures EncText(Ascii("foo"), 2) == [0, 0] + [3, 0, 0, 0] + Ascii("foo") + [0]
  {
    assert Padding(2, 4) == [0, 0];
    FourBytes(3);
  }

  lemma FourBytes(n: nat)
    requires n < 256
    ensures Le(n, 4) == [n, 0, 0, 0]
  {
    assert Le(0, 3) == [0, 0, 0];
  }

  /** An array's length does not count the padding before its first element. */
  lemma ArrayExample()
    ensures HasType(Many([Num(5)]), Array(Basic(116)))
    ensures Enc(Array(Basic(116)), Many([Num(5)]), 0) == [8, 0, 0, 0] + [0, 0, 0, 0] + [5, 0, 0, 0, 0, 0, 0, 0]
  {
    hide Enc, EncEach, EncBasic, HasType, Padding, Le, Align, Sig, AlignmentOf, Supported;
    var t, x := Basic(116), Num(5);
    Word(5, 8);
    ArrayTyped(t, x);
    WordSig();
    EncArray(t, Many([x]), 0);
    OneValue(t, x, 8);
    FourBytes(8);
    Gaps();
    assert [] + [8, 0, 0, 0] == [8, 0, 0, 0];
  }

  lemma WordSig()
    ensures Sig(Basic(116)) == [116] && AlignmentOf(116) == 8
  {
  }

  lemma ArrayTyped(t: Type, x: Value)
    requires HasType(x, t)
    ensures HasType(Many([x]), Array(t)) && Many([x]).items == [x]
  {
    TypeSupported(x, t);
  }

  lemma OneValue(t: Type, x: Value, off: nat)
    requires HasType(x, t)
    ensures EncEach(t, [x], off) == Enc(t, x, off)
  {
    hide Enc, HasType;
    assert [x][1..] == [];
    assert EncEach(t, [x], off) == Enc(t, x, off) + [];
  }

  // ---- messages -------------------------------------------------------------------------------------------------

  /** A message that the stream ends in is no message, wherever it ends. */
  lemma CutMessageEnds(m: Message, k: nat, serial: nat)
    requires WellFormedMessage(m) && k < |Frame(m)|
    ensures OneMessage(Frame(m)[..k], serial) == (Answer(Ended), [])
  {
    hide Frame, FieldBytes, Classify, Fixed;
    var fields, cut := FieldBytes(m.fields, 0), Frame(m)[..k];
    assert MessageOk(m);
    StreamParts(m, []);
    assert Frame(m) + [] == Frame(m);
    HeadFields(m, |fields|);
    PadTotal(|fields|);
    if k >= 16 {
      assert cut[..16] == Frame(m)[..16];
      assert |Frame(m)[16..]| == |fields| + |Padding(|fields|, 8)| + |m.body|;
    }
  }

  /** Big-endian messages, and those that say they are longer than 16 MiB, are refused by their first sixteen bytes. */
  lemma RefusedHeads(head: bytes, rest: bytes, serial: nat)
    requires |head| == 16
    ensures head[0] != 108 ==> OneMessage(head + rest, serial) == (Answer(BigEndian), rest)
    ensures head[0] == 108 && (FromLe(head[4..8]) > 16 * 1024 * 1024 || FromLe(head[12..16]) > 16 * 1024 * 1024) ==>
              OneMessage(head + rest, serial) == (Answer(TooLarge), rest)
  {
    hide Classify, FromLe;
    var stream := head + rest;
    assert stream[..16] == head && stream[16..] == rest;
  }

  /** An error as the bus sends it: kind 3, its name in field 4, the call it answers in field 5. */
  lemma NamedErrorArrives(serial: nat, name: bytes, tail: bytes)
    requires 0 < serial < U32 && 0 < |name| < 256
    ensures var m := Message(3, 1, 1, 2, [Field(4, Basic(115), Text(name)), Field(5, Basic(117), Num(serial))], []);
            WellFormedMessage(m) && ReadReplies(Frame(m) + tail, serial, 16) == (BusError(name, []), tail)
  {
    hide Frame, FieldBytes, OneMessage, ReadText, Stream, ReadReplies, LastOf, FieldTyped;
    var fs := [Field(4, Basic(115), Text(name)), Field(5, Basic(117), Num(serial))];
    var m := Message(3, 1, 1, 2, fs, []);
    TwoFields(serial, name);
    assert Stream([]) + (Frame(m) + tail) == Frame(m) + tail by { NoMessages(); }
    LastOfTwo(fs[0], fs[1]);
    ReplyFound([], m, tail, serial);
  }

  lemma NoMessages()
    ensures Stream([]) == []
  {
  }

  lemma LastOfTwo(f: Field, g: Field)
    requires f.code == 4 && g.code == 5
    ensures LastOf([f, g], 4) == Some(f) && LastOf([f, g], 5) == Some(g) && LastOf([f, g], 8) == None
  {
    assert [f, g][..1] == [f] && [f][..0] == [];
    assert LastOf([f], 8) == LastOf([], 8) == None;
  }

  lemma TwoFields(serial: nat, name: bytes)
    requires serial < U32 && |name| < 256
    ensures var fs := [Field(4, Basic(115), Text(name)), Field(5, Basic(117), Num(serial))];
            (forall i | 0 <= i < |fs| :: FieldTyped(fs[i])) && |FieldBytes(fs, 0)| < 1000
  {
    var f, g := Field(4, Basic(115), Text(name)), Field(5, Basic(117), Num(serial));
    assert FieldTyped(f) && FieldTyped(g);
    hide FieldTyped, Enc;
    FieldHasType(f);
    FieldHasType(g);
    var first := Enc(FIELD, FieldValue(f), 0);
    ShortField(f, 0);
    ShortField(g, |first|);
    assert [f, g][1..] == [g] && [g][1..] == [];
    assert FieldBytes([g], |first|) == Enc(FIELD, FieldValue(g), |first|) + FieldBytes([], 0);
  }

  lemma ShortField(f: Field, off: nat)
    requires f.t == Basic(115) || f.t == Basic(117)
    requires FieldOk(f) && (f.v.Text? ==> |f.v.text| < 256)
    ensures HasType(FieldValue(f), FIELD) && |Enc(FIELD, FieldValue(f), off)| < 300
  {
    hide Enc, HasType;
    FieldLayout(f, off);
    ShortValue(f.t, f.v, Align(off, 8) + 1 + |EncSig(Sig(f.t))|);
    assert |EncSig(Sig(f.t))| == 3;
  }

  lemma ShortValue(t: Type, v: Value, off: nat)
    requires (t == Basic(115) || t == Basic(117)) && HasType(v, t) && (v.Text? ==> |v.text| < 256)
    ensures |Enc(t, v, off)| < 280
  {
  }
}
