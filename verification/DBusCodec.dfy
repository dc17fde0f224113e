/** The mutable halves of internal/dbus/wire.go: the encoder's growing buffer and the decoder's moving cursor. */
module DBusCodec {
  import opened Bytes
  import opened DBusTypes
  import opened DBusWire

  lemma AlignWithin(off: nat, k: nat, boundary: nat)
    requires boundary == 1 || boundary == 2 || boundary == 4 || boundary == 8
    requires off <= k <= Align(off, boundary)
    ensures Align(k, boundary) == Align(off, boundary)
  {
  }

  class Encoder {
    var buf: bytes

    constructor ()
      ensures buf == []
    {
      buf := [];
    }

    method Pad(boundary: nat)
      requires boundary == 1 || boundary == 2 || boundary == 4 || boundary == 8
      modifies this
      ensures buf == old(buf) + Padding(|old(buf)|, boundary)
    {
      ghost var end := Align(|buf|, boundary);
      while |buf| < Align(|buf|, boundary)
        invariant |old(buf)| <= |buf| <= end
        invariant buf == old(buf) + seq(|buf| - |old(buf)|, _ => 0)
        decreases end - |buf|
      {
        AlignWithin(|old(buf)|, |buf|, boundary);
        buf := buf + [0];
      }
      AlignWithin(|old(buf)|, |buf|, boundary);
    }

    method PutByte(v: byte)
      modifies this
      ensures buf == old(buf) + [v]
    {
      buf := buf + [v];
    }

    method PutUint32(v: nat)
      requires v < U32
      modifies this
      ensures buf == old(buf) + (Padding(|old(buf)|, 4) + Le(v, 4))
    {
      Pad(4);
      buf := buf + Le(v, 4);
    }

    method PutText(v: bytes)
      modifies this
      ensures buf == old(buf) + EncText(v, |old(buf)|)
    {
      PutUint32(|v| % U32);
      buf := buf + v;
      buf := buf + [0];
    }

    method PutSignature(v: bytes)
      modifies this
      ensures buf == old(buf) + EncSig(v)
    {
      buf := buf + [|v| % 256];
      buf := buf + v;
      buf := buf + [0];
    }
  }

  class Decoder {
    const buf: bytes
    var pos: nat
    var failed: bool

    function At(): Cursor
      reads this
    {
      Cursor(pos, failed)
    }

    constructor (data: bytes)
      ensures buf == data && At() == Cursor(0, false)
    {
      buf, pos, failed := data, 0, false;
    }

    method Need(n: nat) returns (ok: bool)
      modifies this
      ensures pos == old(pos)
      ensures ok <==> !old(failed) && pos + n <= |buf|
      ensures failed == !ok
    {
      if failed {
        return false;
      }
      if pos + n > |buf| {
        failed := true;
        return false;
      }
      return true;
    }

    method Pad(boundary: nat)
      requires boundary > 0
      modifies this
      ensures At() == PadTo(buf, old(At()), boundary)
    {
      var next := Align(pos, boundary);
      if next > |buf| {
        failed := true;
        return;
      }
      pos := next;
    }

    method GetByte() returns (v: byte)
      modifies this
      ensures (v, At()) == ReadByte(buf, old(At()))
    {
      var ok := Need(1);
      if !ok {
        return 0;
      }
      v := buf[pos];
      pos := pos + 1;
    }

    method GetWord(width: nat) returns (v: nat)
      requires width > 0
      modifies this
      ensures (v, At()) == ReadWord(buf, old(At()), width)
    {
      Pad(width);
      var ok := Need(width);
      if !ok {
        return 0;
      }
      v := FromLe(buf[pos..pos + width]);
      pos := pos + width;
    }

    method GetText() returns (v: bytes)
      modifies this
      ensures (v, At()) == ReadText(buf, old(At()))
    {
      var n := GetWord(4);
      var ok := Need(n + 1);
      if !ok {
        return [];
      }
      v := buf[pos..pos + n];
      assert v == buf[pos..pos + n + 1][..n];
      pos := pos + n + 1;
    }

    method GetSignature() returns (v: bytes)
      modifies this
      ensures (v, At()) == ReadSig(buf, old(At()))
    {
      var n: nat := GetByte();
      var ok := Need(n + 1);
      if !ok {
        return [];
      }
      v := buf[pos..pos + n];
      assert v == buf[pos..pos + n + 1][..n];
      pos := pos + n + 1;
    }

    /** One value of the signature. `stalled` says the loop it is in would never end; the code does not return then. */
    method SkipValue(sig: bytes) returns (rest: bytes, stalled: bool)
      modifies this
      ensures var r := Skip(buf, old(At()), sig); stalled == r.Stalled? && (!stalled ==> r == Rest(rest, At()))
      decreases Left(buf, At()), |sig|, 0
    {
      if failed || sig == [] {
        return [], false;
      }
      stalled := false;
      if sig[0] == Y {
        var _ := GetByte();
      } else if IsWord4(sig[0]) {
        var _ := GetWord(4);
      } else if IsWord8(sig[0]) {
        var _ := GetWord(8);
      } else if IsText(sig[0]) {
        var _ := GetText();
      } else if sig[0] == G {
        var _ := GetSignature();
      } else if sig[0] == V {
        var inner := GetSignature();
        var _, s := SkipValue(inner);
        stalled := s;
      } else if sig[0] == A {
        rest, stalled := SkipArrayValue(sig[1..]);
        return;
      } else if sig[0] == OPEN {
        Pad(8);
        rest, stalled := SkipFieldValues(sig[1..]);
        if rest != [] && rest[0] == CLOSE {
          rest := rest[1..];
        }
        return;
      } else {
        failed := true;
        return [], false;
      }
      rest := sig[1..];
    }

    method SkipArrayValue(inner: bytes) returns (rest: bytes, stalled: bool)
      requires !failed
      modifies this
      ensures var r := Skip(buf, old(At()), [A] + inner); stalled == r.Stalled? && (!stalled ==> r == Rest(rest, At()))
      decreases Left(buf, At()), |inner|, 2
    {
      ghost var was := At();
      assert ([A] + inner)[0] == A && ([A] + inner)[1..] == inner;
      if inner == [] {
        failed := true;
        return [], false;
      }
      var n := GetWord(4);
      if n > |buf| {
        failed := true;
        return [], false;
      }
      Pad(AlignmentOf(inner[0]));
      var end := pos + n;
      ghost var start := At();
      while pos < end && !failed
        invariant Moved(buf, was, At())
        invariant SkipElements(buf, start, end, inner) == SkipElements(buf, At(), end, inner)
        decreases Left(buf, At())
      {
        var before := pos;
        var _, s := SkipValue(inner);
        if s || (pos == before && !failed) {
          return [], true;
        }
      }
      pos := end;
      stalled := false;
      rest := RestAfterOne(inner);
    }

    method SkipFieldValues(inner: bytes) returns (rest: bytes, stalled: bool)
      modifies this
      ensures var r := SkipFields(buf, old(At()), inner); stalled == r.Stalled? && (!stalled ==> r == Rest(rest, At()))
      decreases Left(buf, At()), |inner|, 1
    {
      ghost var was := At();
      rest, stalled := inner, false;
      while rest != [] && rest[0] != CLOSE && !failed
        invariant Left(buf, At()) <= Left(buf, was) && |rest| <= |inner|
        invariant SkipFields(buf, was, inner) == SkipFields(buf, At(), rest)
        decreases |rest|
      {
        var next, s := SkipValue(rest);
        if s {
          return [], true;
        }
        rest := next;
      }
    }
  }

  /** `afterOne`, with its loop over the brackets. */
  method RestAfterOne(sig: bytes) returns (rest: bytes)
    ensures rest == AfterOne(sig)
    decreases |sig|
  {
    if sig == [] {
      return [];
    }
    if sig[0] == A {
      rest := RestAfterOne(sig[1..]);
      return;
    }
    if sig[0] != OPEN && sig[0] != LBRACE {
      return sig[1..];
    }
    var closing := if sig[0] == LBRACE then RBRACE else CLOSE;
    var depth := 0;
    var i := 0;
    while i < |sig|
      invariant 0 <= i <= |sig|
      invariant i == 0 ==> depth == 0
      invariant i > 0 ==> AfterOne(sig) == AfterClose(sig, i, depth, closing)
    {
      if sig[i] == OPEN || sig[i] == LBRACE {
        depth := depth + 1;
      } else if sig[i] == CLOSE || sig[i] == RBRACE {
        depth := depth - 1;
        if depth == 0 && sig[i] == closing {
          return sig[i + 1..];
        }
      }
      i := i + 1;
    }
    return [];
  }
}
