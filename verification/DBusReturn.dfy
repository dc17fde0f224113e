/**
 When `skip` returns, for signatures as the bus sends them: any bytes at all. A signature can make it loop for ever, on
 some bytes, exactly when an array of elements that take no room, or a variant, can be reached in it: a variant carries
 a signature of its own, which may be such an array.
 */
module DBusReturn {
  import opened Bytes
  import opened DBusTypes
  import opened DBusWire
  import opened DBusSkip

  // ---- signatures, read as `skip` reads them --------------------------------------------------------------------

  /** Values that `skip` reads at once. */
  predicate Plain(c: byte) {
    c == Y || IsWord4(c) || IsWord8(c) || IsText(c) || c == G
  }

  /** What is left of a signature after a skip that succeeded. */
  function Leftover(sig: bytes): (r: bytes)
    ensures |r| <= |sig| && (sig != [] ==> |r| < |sig|)
    decreases |sig|, 0
  {
    if sig == [] then []
    else if sig[0] == A then AfterOne(sig[1..])
    else if sig[0] == OPEN then
      var r := LeftoverFields(sig[1..]);
      if r != [] && r[0] == CLOSE then r[1..] else r
    else sig[1..]
  }

  function LeftoverFields(s: bytes): (r: bytes)
    ensures |r| <= |s|
    decreases |s|, 1
  {
    if s == [] || s[0] == CLOSE then s else LeftoverFields(Leftover(s))
  }

  /** What `skip` refuses whatever the bytes: an unknown code, an array of nothing, a struct with such a field. */
  predicate Refused(sig: bytes)
    requires sig != []
    decreases |sig|, 0
  {
    if Plain(sig[0]) || sig[0] == V then false
    else if sig[0] == A then sig[1..] == []
    else if sig[0] == OPEN then AnyRefused(sig[1..])
    else true
  }

  predicate AnyRefused(s: bytes)
    decreases |s|, 1
  {
    s != [] && s[0] != CLOSE && (Refused(s) || AnyRefused(Leftover(s)))
  }

  /** What is skipped without moving, from an aligned position: a struct, closed or not, of nothing but such structs. */
  predicate TakesNoRoom(sig: bytes)
    decreases |sig|, 0
  {
    sig != [] && sig[0] == OPEN && NoneTakesRoom(sig[1..])
  }

  predicate NoneTakesRoom(s: bytes)
    decreases |s|, 1
  {
    s == [] || s[0] == CLOSE || (TakesNoRoom(s) && NoneTakesRoom(Leftover(s)))
  }

  /** What may never end, reached before anything that is refused. */
  predicate CanStall(sig: bytes)
    decreases |sig|, 0
  {
    sig != [] &&
    (sig[0] == V ||
     (sig[0] == A && sig[1..] != [] && (TakesNoRoom(sig[1..]) || CanStall(sig[1..]))) ||
     (sig[0] == OPEN && AnyCanStall(sig[1..])))
  }

  predicate AnyCanStall(s: bytes)
    decreases |s|, 1
  {
    s != [] && s[0] != CLOSE && (CanStall(s) || (!Refused(s) && AnyCanStall(Leftover(s))))
  }

  // ---- what success means ---------------------------------------------------------------------------------------

  /**
   A skip that succeeds, on any bytes and from anywhere, was not of a refused signature, leaves what is left over, and
   has moved forward unless the signature takes no room.
   */
  lemma {:induction false} SuccessLeaves(buf: bytes, c: Cursor, sig: bytes)
    requires sig != [] && Skip(buf, c, sig).Rest? && !Skip(buf, c, sig).cursor.failed
    ensures var r := Skip(buf, c, sig);
            !c.failed && !Refused(sig) && r.sig == Leftover(sig) && c.pos <= r.cursor.pos &&
            (!TakesNoRoom(sig) ==> c.pos < r.cursor.pos)
    decreases |sig|, 0
  {
    hide SkipFields, SkipElements, AfterOne, LeftoverFields, AnyRefused, NoneTakesRoom;
    if sig[0] == OPEN {
      StructFields(buf, c, sig);
      FieldsLeave(buf, PadTo(buf, c, 8), sig[1..]);
    } else if sig[0] == V {
      var (inner, d) := ReadSig(buf, c);
      assert Skip(buf, d, inner).Rest?;
    } else if sig[0] == A {
      assert sig[1..] != [];
      var (n, d) := ReadWord(buf, c, 4);
      assert !d.failed;
    }
  }

  /** A struct ends as its loop over the fields does. */
  lemma StructFields(buf: bytes, c: Cursor, sig: bytes)
    requires sig != [] && sig[0] == OPEN && !c.failed
    ensures var r := SkipFields(buf, PadTo(buf, c, 8), sig[1..]);
            Skip(buf, c, sig)
              == if r.Stalled? then Stalled
                 else Rest(if r.sig != [] && r.sig[0] == CLOSE then r.sig[1..] else r.sig, r.cursor)
  {
    hide SkipFields;
  }

  /** The struct loop's first pass. */
  lemma FirstField(buf: bytes, c: Cursor, s: bytes)
    ensures s == [] || s[0] == CLOSE || c.failed ==> SkipFields(buf, c, s) == Rest(s, c)
    ensures s != [] && s[0] != CLOSE && !c.failed ==>
              var r := Skip(buf, c, s);
              SkipFields(buf, c, s) == if r.Stalled? then Stalled else SkipFields(buf, r.cursor, r.sig)
  {
  }

  lemma {:induction false} FieldsLeave(buf: bytes, c: Cursor, s: bytes)
    requires SkipFields(buf, c, s).Rest? && !SkipFields(buf, c, s).cursor.failed
    ensures var r := SkipFields(buf, c, s);
            !c.failed && !AnyRefused(s) && r.sig == LeftoverFields(s) && c.pos <= r.cursor.pos &&
            (!NoneTakesRoom(s) ==> c.pos < r.cursor.pos)
    decreases |s|, 1
  {
    hide Skip, SkipFields, Refused, TakesNoRoom, Leftover;
    FirstField(buf, c, s);
    if s != [] && s[0] != CLOSE && !c.failed {
      var r := Skip(buf, c, s);
      FirstField(buf, r.cursor, r.sig);
      if !r.cursor.failed {
        SuccessLeaves(buf, c, s);
        FieldsLeave(buf, r.cursor, Leftover(s));
      }
    }
  }

  // ---- signatures that always return ----------------------------------------------------------------------------

  /** Over a signature that cannot stall, `skip` returns on every buffer and from every position. */
  lemma {:induction false} SteadyReturns(buf: bytes, c: Cursor, sig: bytes)
    requires !CanStall(sig)
    ensures Skip(buf, c, sig).Rest?
    decreases |sig|, 2, 0
  {
    hide SkipFields, SkipElements, AnyCanStall;
    if sig != [] && !c.failed {
      if sig[0] == OPEN {
        StructFields(buf, c, sig);
        FieldsReturn(buf, PadTo(buf, c, 8), sig[1..]);
      } else if sig[0] == A && sig[1..] != [] {
        var (n, d) := ReadWord(buf, c, 4);
        var e := PadTo(buf, d, AlignmentOf(sig[1]));
        EachReturns(buf, e, e.pos + n, sig[1..]);
      }
    }
  }

  lemma {:induction false} EachReturns(buf: bytes, c: Cursor, end: nat, sig: bytes)
    requires sig != [] && !CanStall(sig) && !TakesNoRoom(sig)
    ensures SkipElements(buf, c, end, sig).Rest?
    decreases |sig|, 3, Left(buf, c)
  {
    hide Skip, CanStall, TakesNoRoom;
    if c.pos < end && !c.failed {
      SteadyReturns(buf, c, sig);
      var d := Skip(buf, c, sig).cursor;
      if !d.failed {
        SuccessLeaves(buf, c, sig);
        EachReturns(buf, d, end, sig);
      }
    }
  }

  lemma {:induction false} FieldsReturn(buf: bytes, c: Cursor, s: bytes)
    requires !AnyCanStall(s)
    ensures SkipFields(buf, c, s).Rest?
    decreases |s|, 3, 0
  {
    hide Skip, SkipFields, CanStall, Refused, Leftover;
    FirstField(buf, c, s);
    if s != [] && s[0] != CLOSE && !c.failed {
      SteadyReturns(buf, c, s);
      var r := Skip(buf, c, s);
      FirstField(buf, r.cursor, r.sig);
      if !r.cursor.failed {
        SuccessLeaves(buf, c, s);
        FieldsReturn(buf, r.cursor, Leftover(s));
      }
    }
  }

  // ---- bytes that step over a signature, and bytes that stall it ------------------------------------------------

  /** An array's length and the padding before its elements. */
  function ArrayStart(first: byte, n: nat, off: nat): bytes {
    Padding(off, 4) + Le(n, 4) + Padding(Align(off, 4) + 4, AlignmentOf(first))
  }

  /** Zeros that a signature which is not refused steps over: empty strings, empty arrays, variants of nothing. */
  function Blank(sig: bytes, off: nat): bytes
    decreases |sig|, 0
  {
    if sig == [] then []
    else if Plain(sig[0]) then EncBasic(sig[0], if IsText(sig[0]) || sig[0] == G then Text([]) else Num(0), off)
    else if sig[0] == V then EncSig([])
    else if sig[0] == A then if sig[1..] == [] then [] else ArrayStart(sig[1], 0, off)
    else if sig[0] == OPEN then Padding(off, 8) + Blanks(sig[1..], Align(off, 8))
    else []
  }

  function Blanks(s: bytes, off: nat): bytes
    decreases |s|, 1
  {
    if s == [] || s[0] == CLOSE then []
    else
      var first := Blank(s, off);
      first + Blanks(Leftover(s), off + |first|)
  }

  /** Bytes on which a signature that can stall does: an array of length one where its elements take no room. */
  function Spoil(sig: bytes, off: nat): bytes
    decreases |sig|, 0
  {
    if sig == [] then []
    else if sig[0] == V then EncSig([A, OPEN, CLOSE]) + ArrayStart(OPEN, 1, off + 5)
    else if sig[0] == A && sig[1..] != [] then
      ArrayStart(sig[1], 1, off) +
      if TakesNoRoom(sig[1..]) then [] else Spoil(sig[1..], off + |ArrayStart(sig[1], 1, off)|)
    else if sig[0] == OPEN then Padding(off, 8) + SpoilAny(sig[1..], Align(off, 8))
    else []
  }

  function SpoilAny(s: bytes, off: nat): bytes
    decreases |s|, 1
  {
    if s == [] || s[0] == CLOSE then []
    else if CanStall(s) then Spoil(s, off)
    else
      var first := Blank(s, off);
      first + SpoilAny(Leftover(s), off + |first|)
  }

  lemma ArrayStartOver(buf: bytes, off: nat, first: byte, n: nat)
    requires n < 256 && At(buf, off, ArrayStart(first, n, off))
    ensures var start := off + |ArrayStart(first, n, off)|;
            ReadWord(buf, Cursor(off, false), 4).0 == n && start == Align(Align(off, 4) + 4, AlignmentOf(first)) &&
            PadTo(buf, ReadWord(buf, Cursor(off, false), 4).1, AlignmentOf(first)) == Cursor(start, false) &&
            off + 4 <= start <= |buf|
  {
    hide AlignmentOf;
    var head := Padding(off, 4) + Le(n, 4);
    AtSplit(buf, off, head, Padding(Align(off, 4) + 4, AlignmentOf(first)));
    assert n < Span(4) by { Spans(); }
    WordOver(buf, off, n, 4);
    PadOver(buf, Align(off, 4) + 4, AlignmentOf(first));
  }

  /** An array's skip, once its length and padding are crossed. */
  lemma ArrayFrom(buf: bytes, off: nat, sig: bytes, n: nat)
    requires sig != [] && sig[0] == A && sig[1..] != [] && n < 256 && At(buf, off, ArrayStart(sig[1], n, off)) &&
             n <= |buf|
    ensures var start := off + |ArrayStart(sig[1], n, off)|;
            var r := SkipElements(buf, Cursor(start, false), start + n, sig[1..]);
            start <= |buf| &&
            Skip(buf, Cursor(off, false), sig)
              == if r.Stalled? then Stalled else Rest(AfterOne(sig[1..]), r.cursor.(pos := start + n))
  {
    hide Skip, SkipElements, AfterOne, ArrayStart, AlignmentOf, ReadWord, PadTo, At;
    ArrayStartOver(buf, off, sig[1], n);
    ArrayUnfolds(buf, Cursor(off, false), sig);
  }

  lemma ArrayUnfolds(buf: bytes, c: Cursor, sig: bytes)
    requires sig != [] && sig[0] == A && sig[1..] != [] && !c.failed
    ensures var (n, d) := ReadWord(buf, c, 4);
            var e := PadTo(buf, d, AlignmentOf(sig[1]));
            var r := SkipElements(buf, e, e.pos + n, sig[1..]);
            n <= |buf| ==>
              Skip(buf, c, sig) == if r.Stalled? then Stalled else Rest(AfterOne(sig[1..]), r.cursor.(pos := e.pos + n))
  {
    hide SkipElements, AfterOne, AlignmentOf, ReadWord, PadTo;
  }

  lemma {:induction false} BlankOver(buf: bytes, off: nat, sig: bytes)
    requires sig != [] && !Refused(sig) && At(buf, off, Blank(sig, off))
    ensures Skip(buf, Cursor(off, false), sig) == Rest(Leftover(sig), Cursor(off + |Blank(sig, off)|, false))
    decreases |sig|, 0
  {
    hide Skip, SkipFields, At, ArrayStart, Blanks, LeftoverFields, AnyRefused;
    var c := sig[0];
    if Plain(c) {
      SkipBasic(buf, off, c, if IsText(c) || c == G then Text([]) else Num(0), sig[1..]);
      assert Sig(Basic(c)) + sig[1..] == sig;
    } else if c == V {
      SigOver(buf, off, []);
      SkipNothing(buf, Cursor(off + 2, false));
      VariantStep(buf, Cursor(off, false), sig[1..]);
      assert [V] + sig[1..] == sig;
    } else if c == A {
      ArrayFrom(buf, off, sig, 0);
      NoElements(buf, Cursor(off + |Blank(sig, off)|, false), sig[1..]);
    } else {
      AtSplit(buf, off, Padding(off, 8), Blanks(sig[1..], Align(off, 8)));
      PadOver(buf, off, 8);
      StructFields(buf, Cursor(off, false), sig);
      BlanksOver(buf, Align(off, 8), sig[1..]);
    }
  }

  lemma SkipNothing(buf: bytes, c: Cursor)
    ensures Skip(buf, c, []) == Rest([], c)
  {
  }

  lemma NoElements(buf: bytes, c: Cursor, sig: bytes)
    requires sig != []
    ensures SkipElements(buf, c, c.pos, sig) == Rest(sig, c)
  {
  }

  lemma {:induction false} BlanksOver(buf: bytes, off: nat, s: bytes)
    requires !AnyRefused(s) && At(buf, off, Blanks(s, off))
    ensures SkipFields(buf, Cursor(off, false), s) == Rest(LeftoverFields(s), Cursor(off + |Blanks(s, off)|, false))
    decreases |s|, 1
  {
    hide Skip, SkipFields, Blank, Refused, Leftover, At;
    FirstField(buf, Cursor(off, false), s);
    if s != [] && s[0] != CLOSE {
      var first := Blank(s, off);
      AtSplit(buf, off, first, Blanks(Leftover(s), off + |first|));
      BlankOver(buf, off, s);
      BlanksOver(buf, off + |first|, Leftover(s));
    }
  }

  /** From an aligned position what takes no room is stepped over without moving. */
  lemma {:induction false} NoRoomStays(buf: bytes, off: nat, sig: bytes)
    requires TakesNoRoom(sig) && off % 8 == 0 && off <= |buf|
    ensures Skip(buf, Cursor(off, false), sig) == Rest(Leftover(sig), Cursor(off, false))
    decreases |sig|, 0
  {
    hide Skip, SkipFields, NoneTakesRoom, LeftoverFields;
    StructFields(buf, Cursor(off, false), sig);
    NoneMoves(buf, off, sig[1..]);
  }

  lemma {:induction false} NoneMoves(buf: bytes, off: nat, s: bytes)
    requires NoneTakesRoom(s) && off % 8 == 0 && off <= |buf|
    ensures SkipFields(buf, Cursor(off, false), s) == Rest(LeftoverFields(s), Cursor(off, false))
    decreases |s|, 1
  {
    hide Skip, SkipFields, TakesNoRoom, Leftover;
    FirstField(buf, Cursor(off, false), s);
    if s != [] && s[0] != CLOSE {
      NoRoomStays(buf, off, s);
      NoneMoves(buf, off, Leftover(s));
    }
  }

  /** An array of length one whose first element stalls, or takes no room, stalls. */
  lemma OneElement(buf: bytes, c: Cursor, sig: bytes)
    requires sig != [] && !c.failed
    requires Skip(buf, c, sig).Stalled? || (Skip(buf, c, sig).Rest? && Skip(buf, c, sig).cursor == c)
    ensures SkipElements(buf, c, c.pos + 1, sig) == Stalled
  {
    hide Skip;
  }

  lemma EmptiesStall(buf: bytes, off: nat, sig: bytes)
    requires sig != [] && sig[0] == A && TakesNoRoom(sig[1..]) && At(buf, off, ArrayStart(OPEN, 1, off))
    ensures Skip(buf, Cursor(off, false), sig) == Stalled
  {
    hide Skip, ArrayStart, NoneTakesRoom;
    assert sig[1] == sig[1..][0] == OPEN;
    ArrayStartOver(buf, off, OPEN, 1);
    var start := off + |ArrayStart(OPEN, 1, off)|;
    ArrayFrom(buf, off, sig, 1);
    NoRoomStays(buf, start, sig[1..]);
    OneElement(buf, Cursor(start, false), sig[1..]);
  }

  lemma {:induction false} SpoilStalls(buf: bytes, off: nat, sig: bytes)
    requires CanStall(sig) && At(buf, off, Spoil(sig, off))
    ensures Skip(buf, Cursor(off, false), sig) == Stalled
    decreases |sig|, 1
  {
    hide Skip, At, ArrayStart, TakesNoRoom, AnyCanStall, SpoilAny, EncSig;
    if sig[0] == V {
      SpoiltVariant(buf, off, sig);
    } else if sig[0] == A {
      SpoiltArray(buf, off, sig);
    } else {
      AtSplit(buf, off, Padding(off, 8), SpoilAny(sig[1..], Align(off, 8)));
      PadOver(buf, off, 8);
      StructFields(buf, Cursor(off, false), sig);
      FieldsStall(buf, Align(off, 8), sig[1..]);
    }
  }

  lemma SpoiltVariant(buf: bytes, off: nat, sig: bytes)
    requires sig != [] && sig[0] == V && At(buf, off, EncSig([A, OPEN, CLOSE]) + ArrayStart(OPEN, 1, off + 5))
    ensures Skip(buf, Cursor(off, false), sig) == Stalled
  {
    hide Skip, At, ArrayStart, TakesNoRoom, ReadSig;
    AtSplit(buf, off, EncSig([A, OPEN, CLOSE]), ArrayStart(OPEN, 1, off + 5));
    SigOver(buf, off, [A, OPEN, CLOSE]);
    EmptyTakesNoRoom();
    EmptiesStall(buf, off + 5, [A, OPEN, CLOSE]);
    VariantStalls(buf, Cursor(off, false), sig);
  }

  lemma {:induction false} SpoiltArray(buf: bytes, off: nat, sig: bytes)
    requires sig != [] && sig[0] == A && CanStall(sig) && At(buf, off, Spoil(sig, off))
    ensures Skip(buf, Cursor(off, false), sig) == Stalled
    decreases |sig|, 0
  {
    hide Skip, SkipElements, At, ArrayStart, TakesNoRoom, AnyCanStall, SpoilAny, EncSig;
    var start := off + |ArrayStart(sig[1], 1, off)|;
    AtSplit(buf, off, ArrayStart(sig[1], 1, off), if TakesNoRoom(sig[1..]) then [] else Spoil(sig[1..], start));
    if TakesNoRoom(sig[1..]) {
      NoRoomOpens(sig[1..]);
      EmptiesStall(buf, off, sig);
    } else {
      ArrayStartOver(buf, off, sig[1], 1);
      ArrayFrom(buf, off, sig, 1);
      SpoilStalls(buf, start, sig[1..]);
      OneElement(buf, Cursor(start, false), sig[1..]);
    }
  }

  lemma NoRoomOpens(sig: bytes)
    requires TakesNoRoom(sig)
    ensures sig[0] == OPEN
  {
  }

  lemma EmptyTakesNoRoom()
    ensures TakesNoRoom([OPEN, CLOSE]) && TakesNoRoom([OPEN]) && [A, OPEN, CLOSE][1..] == [OPEN, CLOSE] &&
            [A, OPEN][1..] == [OPEN]
  {
    assert [OPEN, CLOSE][1..] == [CLOSE] && [OPEN][1..] == [];
  }

  lemma VariantStalls(buf: bytes, c: Cursor, sig: bytes)
    requires sig != [] && sig[0] == V && !c.failed && Skip(buf, ReadSig(buf, c).1, ReadSig(buf, c).0).Stalled?
    ensures Skip(buf, c, sig) == Stalled
  {
  }

  lemma {:induction false} FieldsStall(buf: bytes, off: nat, s: bytes)
    requires AnyCanStall(s) && At(buf, off, SpoilAny(s, off))
    ensures SkipFields(buf, Cursor(off, false), s) == Stalled
    decreases |s|, 2
  {
    hide Skip, SkipFields, Blank, Spoil, Refused, CanStall, Leftover, At;
    FirstField(buf, Cursor(off, false), s);
    if CanStall(s) {
      SpoilStalls(buf, off, s);
    } else {
      var first := Blank(s, off);
      AtSplit(buf, off, first, SpoilAny(Leftover(s), off + |first|));
      BlankOver(buf, off, s);
      FieldsStall(buf, off + |first|, Leftover(s));
    }
  }

  lemma WholeAt(buf: bytes)
    ensures At(buf, 0, buf)
  {
    assert buf[0..0 + |buf|] == buf;
  }

  /**
   Exactly when `skip` can be made to loop for ever, for every signature: there are bytes on which it does if and only
   if the signature can stall. Over any other it returns, whatever the bytes and wherever it starts.
   */
  lemma StallsIff(sig: bytes)
    ensures (exists buf: bytes, c: Cursor :: Skip(buf, c, sig) == Stalled) <==> CanStall(sig)
  {
    hide Skip, CanStall;
    if CanStall(sig) {
      WholeAt(Spoil(sig, 0));
      SpoilStalls(Spoil(sig, 0), 0, sig);
    } else {
      forall buf: bytes, c: Cursor ensures Skip(buf, c, sig) != Stalled {
        SteadyReturns(buf, c, sig);
      }
    }
  }

  lemma OneEmpty()
    ensures ArrayStart(OPEN, 1, 0) == [1, 0, 0, 0, 0, 0, 0, 0]
  {
    assert Le(0, 3) == [0] + Le(0, 2) && Le(0, 2) == [0] + Le(0, 1) && Le(0, 1) == [0] + Le(0, 0) && Le(0, 0) == [];
    assert Le(1, 4) == [1] + Le(0, 3);
    assert Align(0, 4) == 0 && Align(4, 8) == 8;
    assert Padding(0, 4) == [] && Padding(4, 8) == [0, 0, 0, 0];
  }

  /** A value whose signature is `a()`, or `a(` with nothing to close it, and whose length is not zero. */
  lemma EmptyStructArrayStalls()
    ensures Skip([1, 0, 0, 0, 0, 0, 0, 0], Cursor(0, false), [A, OPEN, CLOSE]) == Stalled
    ensures Skip([1, 0, 0, 0, 0, 0, 0, 0], Cursor(0, false), [A, OPEN]) == Stalled
  {
    hide Skip, At, ArrayStart, TakesNoRoom;
    OneEmpty();
    WholeAt([1, 0, 0, 0, 0, 0, 0, 0]);
    EmptyTakesNoRoom();
    EmptiesStall([1, 0, 0, 0, 0, 0, 0, 0], 0, [A, OPEN, CLOSE]);
    EmptiesStall([1, 0, 0, 0, 0, 0, 0, 0], 0, [A, OPEN]);
  }
}
