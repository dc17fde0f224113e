/**
 What `skip` and `afterOne` do on well-formed input: they agree with the D-Bus Specification's marshalling. And the
 one way `skip` can fail to return: an array whose elements take no room.
 */
module DBusSkip {
  import opened Bytes
  import opened DBusTypes
  import opened DBusWire

  // ---- afterOne -------------------------------------------------------------------------------------------------

  /** Inside a bracket, a complete type leaves the scan at the same depth. */
  lemma {:induction false} CloseSkipsType(sig: bytes, i: nat, t: Type, depth: int, closing: byte)
    requires WellFormed(t) && At(sig, i, Sig(t)) && depth >= 1
    ensures AfterClose(sig, i, depth, closing) == AfterClose(sig, i + |Sig(t)|, depth, closing)
    decreases t, 2
  {
    match t
    case Basic(c) => AtOne(sig, i, c);
    case Variant => AtOne(sig, i, V);
    case Array(e) =>
      AtSplit(sig, i, [A], Sig(e));
      AtOne(sig, i, A);
      CloseSkipsType(sig, i + 1, e, depth, closing);
    case Struct(fs) => CloseSkipsBracket(sig, i, OPEN, fs, CLOSE, depth, closing);
    case Dict(kv) => CloseSkipsBracket(sig, i, LBRACE, kv, RBRACE, depth, closing);
  }

  lemma {:induction false} CloseSkipsBracket(
      sig: bytes, i: nat, open: byte, ts: seq<Type>, close: byte, depth: int, closing: byte)
    requires (open, close) in {(OPEN, CLOSE), (LBRACE, RBRACE)}
    requires (forall k | 0 <= k < |ts| :: WellFormed(ts[k])) && At(sig, i, [open] + Sigs(ts) + [close]) && depth >= 1
    ensures AfterClose(sig, i, depth, closing) == AfterClose(sig, i + |Sigs(ts)| + 2, depth, closing)
    decreases ts, 1
  {
    AtSplit3(sig, i, [open], Sigs(ts), [close]);
    AtOne(sig, i, open);
    AtOne(sig, i + 1 + |Sigs(ts)|, close);
    CloseSkipsTypes(sig, i + 1, ts, depth + 1, closing);
  }

  lemma {:induction false} CloseSkipsTypes(sig: bytes, i: nat, ts: seq<Type>, depth: int, closing: byte)
    requires (forall k | 0 <= k < |ts| :: WellFormed(ts[k])) && At(sig, i, Sigs(ts)) && depth >= 1
    ensures AfterClose(sig, i, depth, closing) == AfterClose(sig, i + |Sigs(ts)|, depth, closing)
    decreases ts, 0
  {
    if ts != [] {
      AtSplit(sig, i, Sig(ts[0]), Sigs(ts[1..]));
      CloseSkipsType(sig, i, ts[0], depth, closing);
      CloseSkipsTypes(sig, i + |Sig(ts[0])|, ts[1..], depth, closing);
    }
  }

  /** The bracket counting removes exactly the first complete type, dictionaries and 16-bit integers included. */
  lemma {:induction false} AfterOneDropsOneType(t: Type, rest: bytes)
    requires WellFormed(t)
    ensures AfterOne(Sig(t) + rest) == rest
    decreases t
  {
    match t
    case Basic(c) =>
    case Variant =>
    case Array(e) =>
      AfterOneDropsOneType(e, rest);
      assert (Sig(t) + rest)[1..] == Sig(e) + rest;
    case Struct(fs) => AfterOneDropsBracket(OPEN, fs, CLOSE, rest);
    case Dict(kv) => AfterOneDropsBracket(LBRACE, kv, RBRACE, rest);
  }

  lemma AfterOneDropsBracket(open: byte, ts: seq<Type>, close: byte, rest: bytes)
    requires (open, close) in {(OPEN, CLOSE), (LBRACE, RBRACE)} && forall k | 0 <= k < |ts| :: WellFormed(ts[k])
    ensures AfterOne([open] + Sigs(ts) + [close] + rest) == rest
  {
    var sig := [open] + Sigs(ts) + [close] + rest;
    assert At(sig, 0, [open] + Sigs(ts) + [close]);
    AtSplit3(sig, 0, [open], Sigs(ts), [close]);
    AtOne(sig, 1 + |Sigs(ts)|, close);
    CloseSkipsTypes(sig, 1, ts, 1, close);
  }

  lemma {:induction false} SupportedIsWellFormed(t: Type)
    requires Supported(t)
    ensures WellFormed(t)
    decreases t
  {
    match t
    case Basic(_) =>
    case Variant =>
    case Array(e) => SupportedIsWellFormed(e);
    case Struct(fs) =>
      forall i | 0 <= i < |fs| ensures WellFormed(fs[i]) { SupportedIsWellFormed(fs[i]); }
    case Dict(_) =>
  }

  // ---- single reads on well-formed bytes ------------------------------------------------------------------------

  lemma PadOver(buf: bytes, off: nat, boundary: nat)
    requires boundary > 0 && At(buf, off, Padding(off, boundary))
    ensures PadTo(buf, Cursor(off, false), boundary) == Cursor(Align(off, boundary), false)
  {
  }

  lemma WordOver(buf: bytes, off: nat, n: nat, width: nat)
    requires width > 0 && n < Span(width) && At(buf, off, Padding(off, width) + Le(n, width))
    ensures ReadWord(buf, Cursor(off, false), width) == (n, Cursor(Align(off, width) + width, false))
  {
    AtSplit(buf, off, Padding(off, width), Le(n, width));
    PadOver(buf, off, width);
    FromLeOfLe(n, width);
  }

  lemma CountedOver(buf: bytes, off: nat, s: bytes)
    requires At(buf, off, s + [0])
    ensures Counted(buf, |s|, Cursor(off, false)) == (s, Cursor(off + |s| + 1, false))
  {
    assert buf[off..off + |s| + 1] == s + [0];
  }

  lemma TextOver(buf: bytes, off: nat, s: bytes)
    requires |s| < U32 && At(buf, off, EncText(s, off))
    ensures ReadText(buf, Cursor(off, false)) == (s, Cursor(off + |EncText(s, off)|, false))
  {
    var head := Padding(off, 4) + Le(|s|, 4);
    assert |s| % U32 == |s|;
    assert EncText(s, off) == head + (s + [0]);
    AtSplit(buf, off, head, s + [0]);
    assert |s| < Span(4) by { Spans(); }
    WordOver(buf, off, |s|, 4);
    CountedOver(buf, off + |head|, s);
  }

  lemma SigOver(buf: bytes, off: nat, s: bytes)
    requires |s| < 256 && At(buf, off, EncSig(s))
    ensures ReadSig(buf, Cursor(off, false)) == (s, Cursor(off + |s| + 2, false))
  {
    assert EncSig(s) == [|s|] + (s + [0]);
    AtSplit(buf, off, [|s|], s + [0]);
    AtOne(buf, off, |s|);
    CountedOver(buf, off + 1, s);
  }

  // ---- skip -----------------------------------------------------------------------------------------------------

  /** Every value of a supported type takes room. */
  lemma {:induction false} EncNonEmpty(t: Type, v: Value, off: nat)
    requires HasType(v, t)
    ensures |Enc(t, v, off)| > 0
    decreases v
  {
    match t
    case Basic(_) =>
    case Variant =>
    case Array(_) =>
    case Struct(fs) =>
      EncNonEmpty(fs[0], v.items[0], Align(off, 8));
    case Dict(_) =>
  }

  // One unfolding of the code at a time, away from the encodings it is run on.

  lemma VariantStep(buf: bytes, c: Cursor, rest: bytes)
    requires !c.failed && Skip(buf, ReadSig(buf, c).1, ReadSig(buf, c).0).Rest?
    ensures Skip(buf, c, [V] + rest) == Rest(rest, Skip(buf, ReadSig(buf, c).1, ReadSig(buf, c).0).cursor)
  {
    var sig := [V] + rest;
    assert sig[0] == V && sig[1..] == rest;
  }

  lemma ArrayStep(buf: bytes, c: Cursor, inner: bytes, n: nat, e: Cursor, f: Cursor)
    requires inner != [] && !c.failed
    requires ReadWord(buf, c, 4).0 == n <= |buf|
    requires PadTo(buf, ReadWord(buf, c, 4).1, AlignmentOf(inner[0])) == e
    requires SkipElements(buf, e, e.pos + n, inner) == Rest(inner, f)
    ensures Skip(buf, c, [A] + inner) == Rest(AfterOne(inner), f.(pos := e.pos + n))
  {
    var sig := [A] + inner;
    assert sig[0] == A && sig[1..] == inner && sig[1] == inner[0];
  }

  lemma StructStep(buf: bytes, c: Cursor, inner: bytes, rest: bytes, f: Cursor)
    requires !c.failed && SkipFields(buf, PadTo(buf, c, 8), inner) == Rest([CLOSE] + rest, f)
    ensures Skip(buf, c, [OPEN] + inner) == Rest(rest, f)
  {
    var sig := [OPEN] + inner;
    assert sig[0] == OPEN && sig[1..] == inner;
    assert ([CLOSE] + rest)[1..] == rest;
  }

  lemma ElementStep(buf: bytes, c: Cursor, end: nat, sig: bytes, rest: bytes, d: Cursor)
    requires sig != [] && !c.failed && c.pos < end && Skip(buf, c, sig) == Rest(rest, d) && !d.failed && d.pos > c.pos
    ensures SkipElements(buf, c, end, sig) == SkipElements(buf, d, end, sig)
  {
  }

  lemma FieldStep(buf: bytes, c: Cursor, sig: bytes, rest: bytes, d: Cursor)
    requires sig != [] && sig[0] != CLOSE && !c.failed && Skip(buf, c, sig) == Rest(rest, d)
    ensures SkipFields(buf, c, sig) == SkipFields(buf, d, rest)
  {
  }

  /**
   For every supported type, value and start offset, `skip` consumes exactly the value's marshalling, padding
   included, sets no error, and returns the signature after its first complete type.
   */
  lemma {:induction false} SkipOne(buf: bytes, off: nat, t: Type, v: Value, rest: bytes)
    requires HasType(v, t) && At(buf, off, Enc(t, v, off)) && |buf| < U32
    ensures Skip(buf, Cursor(off, false), Sig(t) + rest) == Rest(rest, Cursor(off + |Enc(t, v, off)|, false))
    decreases v, 2
  {
    hide Skip, Enc, At, Sig;
    match t
    case Basic(c) => SkipBasic(buf, off, c, v, rest);
    case Variant => SkipVariant(buf, off, v, rest);
    case Array(e) => SkipArray(buf, off, e, v, rest);
    case Struct(fs) => SkipStruct(buf, off, fs, v, rest);
  }

  lemma SigArray(e: Type, rest: bytes)
    ensures Sig(Array(e)) + rest == [A] + (Sig(e) + rest)
  {
  }

  lemma SigStruct(fs: seq<Type>, rest: bytes)
    ensures Sig(Struct(fs)) + rest == [OPEN] + (Sigs(fs) + ([CLOSE] + rest))
  {
  }

  lemma SigCons(ts: seq<Type>, rest: bytes)
    requires ts != []
    ensures Sigs(ts) + rest == Sig(ts[0]) + (Sigs(ts[1..]) + rest)
  {
  }

  lemma SigHead(t: Type, rest: bytes)
    requires Supported(t)
    ensures (Sig(t) + rest)[0] == Sig(t)[0] != CLOSE
  {
  }

  lemma SkipBasic(buf: bytes, off: nat, c: byte, v: Value, rest: bytes)
    requires HasType(v, Basic(c)) && At(buf, off, Enc(Basic(c), v, off))
    ensures Skip(buf, Cursor(off, false), Sig(Basic(c)) + rest)
            == Rest(rest, Cursor(off + |Enc(Basic(c), v, off)|, false))
  {
    Spans();
    var sig := [c] + rest;
    assert sig[0] == c && sig[1..] == rest;
    if IsWord4(c) {
      WordOver(buf, off, v.n, 4);
    } else if IsWord8(c) {
      WordOver(buf, off, v.n, 8);
    } else if IsText(c) {
      TextOver(buf, off, v.text);
    } else if c == G {
      SigOver(buf, off, v.text);
    }
  }

  lemma {:induction false} SkipVariant(buf: bytes, off: nat, v: Value, rest: bytes)
    requires HasType(v, Variant) && At(buf, off, Enc(Variant, v, off)) && |buf| < U32
    ensures Skip(buf, Cursor(off, false), Sig(Variant) + rest)
            == Rest(rest, Cursor(off + |Enc(Variant, v, off)|, false))
    decreases v, 1
  {
    hide Skip, Enc, At, ReadSig;
    var at := VariantHead(buf, off, v);
    SkipOne(buf, at, v.inner, v.value, []);
    assert Sig(v.inner) + [] == Sig(v.inner);
    VariantStep(buf, Cursor(off, false), rest);
  }

  /** A variant's signature, as the reader crosses it. */
  lemma VariantHead(buf: bytes, off: nat, v: Value) returns (at: nat)
    requires HasType(v, Variant) && At(buf, off, Enc(Variant, v, off))
    ensures ReadSig(buf, Cursor(off, false)) == (Sig(v.inner), Cursor(at, false))
    ensures At(buf, at, Enc(v.inner, v.value, at)) && at + |Enc(v.inner, v.value, at)| == off + |Enc(Variant, v, off)|
  {
    var s := EncSig(Sig(v.inner));
    at := off + |s|;
    AtSplit(buf, off, s, Enc(v.inner, v.value, at));
    SigOver(buf, off, Sig(v.inner));
  }

  lemma {:induction false} SkipStruct(buf: bytes, off: nat, fs: seq<Type>, v: Value, rest: bytes)
    requires HasType(v, Struct(fs)) && At(buf, off, Enc(Struct(fs), v, off)) && |buf| < U32
    ensures Skip(buf, Cursor(off, false), Sig(Struct(fs)) + rest)
         == Rest(rest, Cursor(off + |Enc(Struct(fs), v, off)|, false))
    decreases v, 1
  {
    hide Skip, SkipFields, At;
    SigStruct(fs, rest);
    var start := Align(off, 8);
    AtSplit(buf, off, Padding(off, 8), EncAll(fs, v.items, start));
    PadOver(buf, off, 8);
    SkipMany(buf, start, fs, v.items, [CLOSE] + rest);
    StructStep(buf, Cursor(off, false), Sigs(fs) + ([CLOSE] + rest), rest,
               Cursor(start + |EncAll(fs, v.items, start)|, false));
  }

  lemma {:induction false} SkipArray(buf: bytes, off: nat, e: Type, v: Value, rest: bytes)
    requires HasType(v, Array(e)) && At(buf, off, Enc(Array(e), v, off)) && |buf| < U32
    ensures Skip(buf, Cursor(off, false), Sig(Array(e)) + rest)
            == Rest(rest, Cursor(off + |Enc(Array(e), v, off)|, false))
    decreases v, 1
  {
    hide Skip, SkipElements, At, Enc;
    SigArray(e, rest);
    var n, start := ArrayHead(buf, off, e, v);
    SkipEach(buf, start, e, v.items, rest);
    ArrayStep(buf, Cursor(off, false), Sig(e) + rest, n, Cursor(start, false), Cursor(start + n, false));
    SupportedIsWellFormed(e);
    AfterOneDropsOneType(e, rest);
  }

  /** An array's length and the padding after it, as the reader crosses them. */
  lemma ArrayHead(buf: bytes, off: nat, e: Type, v: Value) returns (n: nat, start: nat)
    requires HasType(v, Array(e)) && At(buf, off, Enc(Array(e), v, off)) && |buf| < U32
    ensures ReadWord(buf, Cursor(off, false), 4).0 == n
    ensures PadTo(buf, ReadWord(buf, Cursor(off, false), 4).1, AlignmentOf(Sig(e)[0])) == Cursor(start, false)
    ensures At(buf, start, EncEach(e, v.items, start))
    ensures n == |EncEach(e, v.items, start)| && start + n == off + |Enc(Array(e), v, off)| && n <= |buf|
  {
    hide Enc, EncEach, Sig;
    var edge := AlignmentOf(Sig(e)[0]);
    var mid := Align(off, 4) + 4;
    start := Align(mid, edge);
    var body := EncEach(e, v.items, start);
    n := |body|;
    var head := Padding(off, 4) + Le(n % U32, 4);
    assert Enc(Array(e), v, off) == head + Padding(mid, edge) + body by { EncArray(e, v, off); }
    AtSplit3(buf, off, head, Padding(mid, edge), body);
    assert n < U32 && n % U32 == n;
    assert n < Span(4) by { Spans(); }
    WordOver(buf, off, n, 4);
    PadOver(buf, mid, edge);
  }

  /** The array loop walks every element and stops at the end. */
  lemma {:induction false} SkipEach(buf: bytes, off: nat, e: Type, vs: seq<Value>, rest: bytes)
    requires forall i | 0 <= i < |vs| :: HasType(vs[i], e)
    requires At(buf, off, EncEach(e, vs, off)) && |buf| < U32
    ensures var end := off + |EncEach(e, vs, off)|;
            SkipElements(buf, Cursor(off, false), end, Sig(e) + rest) == Rest(Sig(e) + rest, Cursor(end, false))
    decreases vs, 0
  {
    hide Skip, At, Sig;
    if vs != [] {
      var first := Enc(e, vs[0], off);
      var tail := EncEach(e, vs[1..], off + |first|);
      AtSplit(buf, off, first, tail);
      EncNonEmpty(e, vs[0], off);
      SkipOne(buf, off, e, vs[0], rest);
      SkipEach(buf, off + |first|, e, vs[1..], rest);
      ElementStep(buf, Cursor(off, false), off + |first| + |tail|, Sig(e) + rest, rest, Cursor(off + |first|, false));
    }
  }

  /** The struct loop walks every field and stops at the closing bracket. */
  lemma {:induction false} SkipMany(buf: bytes, off: nat, ts: seq<Type>, vs: seq<Value>, rest: bytes)
    requires |ts| == |vs| && forall i | 0 <= i < |ts| :: HasType(vs[i], ts[i])
    requires At(buf, off, EncAll(ts, vs, off)) && |buf| < U32
    requires rest != [] && rest[0] == CLOSE
    ensures SkipFields(buf, Cursor(off, false), Sigs(ts) + rest)
            == Rest(rest, Cursor(off + |EncAll(ts, vs, off)|, false))
    decreases vs, 0
  {
    hide Skip, At, Sig;
    if vs == [] {
      assert Sigs(ts) + rest == rest;
    } else {
      var first := Enc(ts[0], vs[0], off);
      AtSplit(buf, off, first, EncAll(ts[1..], vs[1..], off + |first|));
      var later := Sigs(ts[1..]) + rest;
      SigHead(ts[0], later);
      SkipOne(buf, off, ts[0], vs[0], later);
      SkipMany(buf, off + |first|, ts[1..], vs[1..], rest);
      SigCons(ts, rest);
      FieldStep(buf, Cursor(off, false), Sig(ts[0]) + later, later, Cursor(off + |first|, false));
    }
  }
}
