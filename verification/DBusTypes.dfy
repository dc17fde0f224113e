/**
 The D-Bus wire format as the D-Bus Specification gives it (sections "Type System" and
 "Marshaling (Wire Format)"): types, values, signatures and the little-endian marshalling of a value at an offset.
 This is the reference the agent's own encoder and decoder (module DBusWire) are proved against.
 */
module DBusTypes {
  import opened Bytes

  const Y: byte := 121  // byte
  const B: byte := 98   // boolean
  const N: byte := 110  // int16
  const Q: byte := 113  // uint16
  const I: byte := 105  // int32
  const U: byte := 117  // uint32
  const X: byte := 120  // int64
  const T: byte := 116  // uint64
  const D: byte := 100  // double
  const S: byte := 115  // string
  const O: byte := 111  // object path
  const G: byte := 103  // signature
  const V: byte := 118  // variant
  const A: byte := 97   // array
  const OPEN: byte := 40
  const CLOSE: byte := 41
  const LBRACE: byte := 123
  const RBRACE: byte := 125

  datatype Type =
    | Basic(code: byte)
    | Variant
    | Array(elem: Type)
    | Struct(fields: seq<Type>)
    | Dict(entry: seq<Type>)

  datatype Value =
    | Num(n: nat)
    | Text(text: bytes)
    | Wrapped(inner: Type, value: Value)
    | Many(items: seq<Value>)

  /** A type's signature. */
  function Sig(t: Type): (s: bytes)
    ensures s != []
    decreases t, 1
  {
    match t
    case Basic(c) => [c]
    case Variant => [V]
    case Array(e) => [A] + Sig(e)
    case Struct(fs) => [OPEN] + Sigs(fs) + [CLOSE]
    case Dict(kv) => [LBRACE] + Sigs(kv) + [RBRACE]
  }

  function Sigs(ts: seq<Type>): bytes
    decreases ts, 0
  {
    if ts == [] then [] else Sig(ts[0]) + Sigs(ts[1..])
  }

  predicate IsWord4(c: byte) { c == B || c == I || c == U }
  predicate IsWord8(c: byte) { c == X || c == T || c == D }
  predicate IsText(c: byte) { c == S || c == O }
  predicate IsWord2(c: byte) { c == N || c == Q }

  predicate IsBasic(c: byte) {
    c == Y || IsWord2(c) || IsWord4(c) || IsWord8(c) || IsText(c) || c == G
  }

  /** Basic codes are basic, all the way down. */
  predicate WellFormed(t: Type)
    decreases t
  {
    match t
    case Basic(c) => IsBasic(c)
    case Variant => true
    case Array(e) => WellFormed(e)
    case Struct(fs) => forall i | 0 <= i < |fs| :: WellFormed(fs[i])
    case Dict(kv) => |kv| == 2 && forall i | 0 <= i < |kv| :: WellFormed(kv[i])
  }

  /** The types the agent's decoder can step over: no 16-bit integers, no dictionary entries, no empty struct. */
  predicate Supported(t: Type)
    decreases t
  {
    match t
    case Basic(c) => IsBasic(c) && !IsWord2(c)
    case Variant => true
    case Array(e) => Supported(e)
    case Struct(fs) => fs != [] && forall i | 0 <= i < |fs| :: Supported(fs[i])
    case Dict(_) => false
  }

  /** v is a value of the supported type t; a variant holds a value of a supported type of its own. */
  predicate HasType(v: Value, t: Type)
    decreases v
  {
    Supported(t) &&
    match t
    case Basic(c) =>
      if c == Y then v.Num? && v.n < 256
      else if IsWord4(c) then v.Num? && v.n < U32
      else if IsWord8(c) then v.Num? && v.n < U64
      else v.Text? && |v.text| < (if c == G then 256 else U32)
    case Variant => v.Wrapped? && |Sig(v.inner)| < 256 && HasType(v.value, v.inner)
    case Array(e) => v.Many? && forall i | 0 <= i < |v.items| :: HasType(v.items[i], e)
    case Struct(fs) => v.Many? && |v.items| == |fs| && forall i | 0 <= i < |fs| :: HasType(v.items[i], fs[i])
    case Dict(_) => false
  }

  /** The first multiple of the boundary at or after an offset. */
  function Align(off: nat, boundary: nat): (r: nat)
    requires boundary > 0
    ensures off <= r < off + boundary
    ensures boundary == 4 || boundary == 8 ==> r % boundary == 0
  {
    if off % boundary != 0 then off + boundary - off % boundary else off
  }

  /** Zero bytes up to the next boundary. */
  function Padding(off: nat, boundary: nat): bytes
    requires boundary > 0
  {
    seq(Align(off, boundary) - off, _ => 0)
  }

  /** The boundary a value whose signature starts with this code is aligned to. */
  function AlignmentOf(code: byte): (a: nat)
    ensures a == 1 || a == 2 || a == 4 || a == 8
  {
    if code == Y || code == G || code == V then 1
    else if IsWord2(code) then 2
    else if IsWord4(code) || IsText(code) || code == A then 4
    else if IsWord8(code) || code == OPEN || code == LBRACE then 8
    else 1
  }

  function EncText(s: bytes, off: nat): bytes {
    Padding(off, 4) + Le(|s| % U32, 4) + s + [0]
  }

  function EncSig(s: bytes): bytes {
    [|s| % 256] + s + [0]
  }

  function EncBasic(c: byte, v: Value, off: nat): bytes
    requires HasType(v, Basic(c))
  {
    if c == Y then [v.n]
    else if IsWord4(c) then Padding(off, 4) + Le(v.n, 4)
    else if IsWord8(c) then Padding(off, 8) + Le(v.n, 8)
    else if c == G then EncSig(v.text)
    else EncText(v.text, off)
  }

  /** The marshalling of v as a t starting at offset off, leading padding included. */
  function Enc(t: Type, v: Value, off: nat): bytes
    requires HasType(v, t)
    decreases v, 1
  {
    match t
    case Basic(c) => EncBasic(c, v, off)
    case Variant =>
      var s := EncSig(Sig(v.inner));
      s + Enc(v.inner, v.value, off + |s|)
    case Array(e) =>
      var mid := Align(off, 4) + 4;
      var edge := AlignmentOf(Sig(e)[0]);
      var body := EncEach(e, v.items, Align(mid, edge));
      Padding(off, 4) + Le(|body| % U32, 4) + Padding(mid, edge) + body
    case Struct(fs) =>
      Padding(off, 8) + EncAll(fs, v.items, Align(off, 8))
  }

  /** An array's elements, one after another. */
  function EncEach(e: Type, vs: seq<Value>, off: nat): bytes
    requires forall i | 0 <= i < |vs| :: HasType(vs[i], e)
    decreases vs, 0
  {
    if vs == [] then []
    else
      var first := Enc(e, vs[0], off);
      first + EncEach(e, vs[1..], off + |first|)
  }

  /** A struct's fields, one after another. */
  function EncAll(ts: seq<Type>, vs: seq<Value>, off: nat): bytes
    requires |ts| == |vs| && forall i | 0 <= i < |ts| :: HasType(vs[i], ts[i])
    decreases vs, 0
  {
    if vs == [] then []
    else
      var first := Enc(ts[0], vs[0], off);
      first + EncAll(ts[1..], vs[1..], off + |first|)
  }

  // One unfolding at a time.

  lemma EncArray(e: Type, v: Value, off: nat)
    requires HasType(v, Array(e))
    ensures var mid := Align(off, 4) + 4;
            var edge := AlignmentOf(Sig(e)[0]);
            var body := EncEach(e, v.items, Align(mid, edge));
            Enc(Array(e), v, off) == Padding(off, 4) + Le(|body| % U32, 4) + Padding(mid, edge) + body
  {
    hide EncEach, Sig;
  }

  lemma EncVariant(w: Value, off: nat)
    requires HasType(w, Variant)
    ensures HasType(w.value, w.inner)
    ensures Enc(Variant, w, off) == EncSig(Sig(w.inner)) + Enc(w.inner, w.value, off + |EncSig(Sig(w.inner))|)
  {
    hide EncSig, Sig, Supported, EncEach, EncAll, EncBasic;
  }

  lemma EncStruct(fs: seq<Type>, v: Value, off: nat)
    requires HasType(v, Struct(fs))
    ensures v.Many? && |v.items| == |fs| && forall i | 0 <= i < |fs| :: HasType(v.items[i], fs[i])
    ensures Enc(Struct(fs), v, off) == Padding(off, 8) + EncAll(fs, v.items, Align(off, 8))
  {
    hide EncAll, Supported;
  }
}
