/**
 `skip` on bytes nobody vouches for. When it succeeds it still agrees with `afterOne`, and it has moved forward unless
 the type takes no room, which only an empty struct (or a struct of nothing but empty structs) does.
 */
module DBusStall {
  import opened Bytes
  import opened DBusTypes
  import opened DBusWire
  import opened DBusSkip

  /** Types whose values take no bytes at an aligned offset. The D-Bus Specification forbids them. */
  predicate Weightless(t: Type)
    decreases t
  {
    t.Struct? && forall i | 0 <= i < |t.fields| :: Weightless(t.fields[i])
  }

  /**
   On any buffer and from any position: a skip of one complete type that neither failed nor stalled leaves exactly
   the signature `afterOne` leaves, and has moved forward unless the type is weightless.
   */
  lemma {:induction false} SuccessAgrees(buf: bytes, c: Cursor, t: Type, rest: bytes)
    requires WellFormed(t)
    requires Skip(buf, c, Sig(t) + rest).Rest? && !Skip(buf, c, Sig(t) + rest).cursor.failed
    ensures Skip(buf, c, Sig(t) + rest).sig == rest == AfterOne(Sig(t) + rest)
    ensures c.pos <= Skip(buf, c, Sig(t) + rest).cursor.pos
    ensures Weightless(t) || c.pos < Skip(buf, c, Sig(t) + rest).cursor.pos
    decreases t, 2
  {
    AfterOneDropsOneType(t, rest);
    match t
    case Basic(b) => assert (Sig(t) + rest)[0] == b && (Sig(t) + rest)[1..] == rest;
    case Variant => VariantAgrees(buf, c, rest);
    case Array(e) =>
      SigArray(e, rest);
      AfterOneDropsOneType(e, rest);
      ArrayAgrees(buf, c, Sig(e) + rest);
    case Struct(fs) =>
      SigStruct(fs, rest);
      StructAgrees(buf, c, fs, rest);
    case Dict(_) =>
  }

  lemma VariantAgrees(buf: bytes, c: Cursor, rest: bytes)
    requires Skip(buf, c, [V] + rest).Rest? && !Skip(buf, c, [V] + rest).cursor.failed
    ensures Skip(buf, c, [V] + rest).sig == rest && c.pos < Skip(buf, c, [V] + rest).cursor.pos
  {
    var sig := [V] + rest;
    assert sig[0] == V && sig[1..] == rest;
  }

  lemma ArrayAgrees(buf: bytes, c: Cursor, inner: bytes)
    requires inner != [] && Skip(buf, c, [A] + inner).Rest? && !Skip(buf, c, [A] + inner).cursor.failed
    ensures Skip(buf, c, [A] + inner).sig == AfterOne(inner) && c.pos < Skip(buf, c, [A] + inner).cursor.pos
  {
    var sig := [A] + inner;
    assert sig[0] == A && sig[1..] == inner;
  }

  lemma {:induction false} StructAgrees(buf: bytes, c: Cursor, fs: seq<Type>, rest: bytes)
    requires forall i | 0 <= i < |fs| :: WellFormed(fs[i])
    requires var r := Skip(buf, c, [OPEN] + (Sigs(fs) + ([CLOSE] + rest))); r.Rest? && !r.cursor.failed
    ensures var r := Skip(buf, c, [OPEN] + (Sigs(fs) + ([CLOSE] + rest)));
            r.sig == rest && c.pos <= r.cursor.pos &&
            ((exists i | 0 <= i < |fs| :: !Weightless(fs[i])) ==> c.pos < r.cursor.pos)
    decreases fs, 1
  {
    var inner := Sigs(fs) + ([CLOSE] + rest);
    var sig := [OPEN] + inner;
    assert sig[0] == OPEN && sig[1..] == inner;
    FieldsAgree(buf, PadTo(buf, c, 8), fs, rest);
    assert ([CLOSE] + rest)[1..] == rest;
  }

  lemma {:induction false} FieldsAgree(buf: bytes, c: Cursor, fs: seq<Type>, rest: bytes)
    requires forall i | 0 <= i < |fs| :: WellFormed(fs[i])
    requires var r := SkipFields(buf, c, Sigs(fs) + ([CLOSE] + rest)); r.Rest? && !r.cursor.failed
    ensures var r := SkipFields(buf, c, Sigs(fs) + ([CLOSE] + rest));
            r.sig == [CLOSE] + rest && !c.failed && c.pos <= r.cursor.pos &&
            ((exists i | 0 <= i < |fs| :: !Weightless(fs[i])) ==> c.pos < r.cursor.pos)
    decreases fs, 0
  {
    hide Skip, Sig;
    var tail := [CLOSE] + rest;
    if fs == [] {
      assert Sigs(fs) + tail == tail;
    } else {
      var later := Sigs(fs[1..]) + tail;
      SigCons(fs, tail);
      HeadOpens(fs[0], later);
      FieldsUnroll(buf, c, Sig(fs[0]) + later);
      SuccessAgrees(buf, c, fs[0], later);
      var d := Skip(buf, c, Sig(fs[0]) + later).cursor;
      FieldsAgree(buf, d, fs[1..], rest);
      if i :| 0 <= i < |fs| && !Weightless(fs[i]) {
        assert i == 0 || fs[i] == fs[1..][i - 1];
      }
    }
  }

  lemma HeadOpens(t: Type, rest: bytes)
    requires WellFormed(t)
    ensures (Sig(t) + rest)[0] == Sig(t)[0] != CLOSE
  {
  }

  /** A struct loop that succeeds has succeeded on its first field. */
  lemma FieldsUnroll(buf: bytes, c: Cursor, sig: bytes)
    requires sig != [] && sig[0] != CLOSE
    requires SkipFields(buf, c, sig).Rest? && !SkipFields(buf, c, sig).cursor.failed
    ensures !c.failed && Skip(buf, c, sig).Rest? && !Skip(buf, c, sig).cursor.failed
    ensures SkipFields(buf, c, sig) == SkipFields(buf, Skip(buf, c, sig).cursor, Skip(buf, c, sig).sig)
  {
  }

  /** A weightless value is stepped over without moving. */
  lemma {:induction false} WeightlessStays(buf: bytes, off: nat, t: Type, rest: bytes)
    requires Weightless(t) && off % 8 == 0 && off <= |buf|
    ensures Skip(buf, Cursor(off, false), Sig(t) + rest) == Rest(rest, Cursor(off, false))
    decreases t, 1
  {
    SigStruct(t.fields, rest);
    WeightlessFields(buf, off, t.fields, rest);
    StructStep(buf, Cursor(off, false), Sigs(t.fields) + ([CLOSE] + rest), rest, Cursor(off, false));
  }

  lemma {:induction false} WeightlessFields(buf: bytes, off: nat, fs: seq<Type>, rest: bytes)
    requires (forall i | 0 <= i < |fs| :: Weightless(fs[i])) && off % 8 == 0 && off <= |buf|
    ensures SkipFields(buf, Cursor(off, false), Sigs(fs) + ([CLOSE] + rest)) == Rest([CLOSE] + rest, Cursor(off, false))
    decreases fs, 0
  {
    hide Skip;
    var tail := [CLOSE] + rest;
    if fs == [] {
      assert Sigs(fs) + tail == tail;
    } else {
      var later := Sigs(fs[1..]) + tail;
      SigCons(fs, tail);
      WeightlessStays(buf, off, fs[0], later);
      WeightlessFields(buf, off, fs[1..], rest);
      FieldStep(buf, Cursor(off, false), Sig(fs[0]) + later, later, Cursor(off, false));
    }
  }

  /**
   Exactly when an iteration of the array loop makes no progress: the element is weightless. Array elements that are
   structs start aligned to 8, which is where the loop puts them.
   */
  lemma NoProgressIff(buf: bytes, off: nat, t: Type, rest: bytes)
    requires WellFormed(t) && off % 8 == 0 && off <= |buf|
    ensures Skip(buf, Cursor(off, false), Sig(t) + rest) == Rest(rest, Cursor(off, false)) <==> Weightless(t)
  {
    if Weightless(t) {
      WeightlessStays(buf, off, t, rest);
    } else if Skip(buf, Cursor(off, false), Sig(t) + rest) == Rest(rest, Cursor(off, false)) {
      SuccessAgrees(buf, Cursor(off, false), t, rest);
    }
  }
}
