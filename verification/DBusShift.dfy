/** A marshalling depends on its offset only modulo 8, the largest alignment. */
module DBusShift {
  import opened Bytes
  import opened DBusTypes

  lemma AlignShift(off: nat, boundary: nat)
    requires boundary == 1 || boundary == 2 || boundary == 4 || boundary == 8
    ensures Align(off + 8, boundary) == Align(off, boundary) + 8
    ensures Padding(off + 8, boundary) == Padding(off, boundary)
  {
  }

  lemma {:induction false} EncShift(t: Type, v: Value, off: nat)
    requires HasType(v, t)
    ensures Enc(t, v, off + 8) == Enc(t, v, off)
    decreases v, 1
  {
    hide EncBasic, EncEach, EncAll;
    match t
    case Basic(c) => BasicShift(c, v, off);
    case Variant =>
      var s := EncSig(Sig(v.inner));
      EncShift(v.inner, v.value, off + |s|);
      assert off + 8 + |s| == off + |s| + 8;
    case Array(e) => ArrayShift(e, v, off);
    case Struct(fs) =>
      AlignShift(off, 8);
      EncAllShift(fs, v.items, Align(off, 8));
  }

  lemma BasicShift(c: byte, v: Value, off: nat)
    requires HasType(v, Basic(c))
    ensures EncBasic(c, v, off + 8) == EncBasic(c, v, off)
  {
    AlignShift(off, 4);
    AlignShift(off, 8);
  }

  lemma {:induction false} ArrayShift(e: Type, v: Value, off: nat)
    requires HasType(v, Array(e))
    ensures Enc(Array(e), v, off + 8) == Enc(Array(e), v, off)
    decreases v, 0
  {
    hide EncEach;
    AlignShift(off, 4);
    var mid := Align(off, 4) + 4;
    var edge := AlignmentOf(Sig(e)[0]);
    AlignShift(mid, edge);
    EncEachShift(e, v.items, Align(mid, edge));
  }

  lemma {:induction false} EncEachShift(e: Type, vs: seq<Value>, off: nat)
    requires forall i | 0 <= i < |vs| :: HasType(vs[i], e)
    ensures EncEach(e, vs, off + 8) == EncEach(e, vs, off)
    decreases vs, 0
  {
    hide Enc;
    if vs != [] {
      EncShift(e, vs[0], off);
      var next := off + |Enc(e, vs[0], off)|;
      EncEachShift(e, vs[1..], next);
      assert off + 8 + |Enc(e, vs[0], off)| == next + 8;
    }
  }

  lemma {:induction false} EncAllShift(ts: seq<Type>, vs: seq<Value>, off: nat)
    requires |ts| == |vs| && forall i | 0 <= i < |ts| :: HasType(vs[i], ts[i])
    ensures EncAll(ts, vs, off + 8) == EncAll(ts, vs, off)
    decreases vs, 0
  {
    hide Enc;
    if vs != [] {
      EncShift(ts[0], vs[0], off);
      var next := off + |Enc(ts[0], vs[0], off)|;
      EncAllShift(ts[1..], vs[1..], next);
      assert off + 8 + |Enc(ts[0], vs[0], off)| == next + 8;
    }
  }
}
