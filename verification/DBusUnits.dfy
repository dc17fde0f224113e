/** internal/dbus/systemd.go: reading the a(ssssssouso) body of a ListUnits reply. */
module DBusUnits {
  import opened Bytes
  import opened DBusTypes
  import opened DBusWire
  import opened DBusCodec
  import opened DBusSkip
  import opened DBusMessage
  import opened DBusConn

  datatype Unit = Unit(name: bytes, description: bytes, load: bytes, active: bytes, sub: bytes, path: bytes)

  /** The units, or the error the caller is given instead. */
  datatype Units = Listed(units: seq<Unit>) | Refused

  const ROW: Type :=
    Struct([Basic(S), Basic(S), Basic(S), Basic(S), Basic(S), Basic(S), Basic(O), Basic(U), Basic(S), Basic(O)])

  function ReadRow(buf: bytes, c: Cursor): (Unit, Cursor) {
    var (name, d0) := ReadText(buf, PadTo(buf, c, 8));
    var (description, d1) := ReadText(buf, d0);
    var (load, d2) := ReadText(buf, d1);
    var (active, d3) := ReadText(buf, d2);
    var (sub, d4) := ReadText(buf, d3);
    var (_, d5) := ReadText(buf, d4);
    var (path, d6) := ReadText(buf, d5);
    var (_, d7) := ReadWord(buf, d6, 4);
    var (_, d8) := ReadText(buf, d7);
    var (_, d9) := ReadText(buf, d8);
    (Unit(name, description, load, active, sub, path), d9)
  }

  lemma RowAdvances(buf: bytes, c: Cursor)
    ensures Advanced(buf, c, ReadRow(buf, c).1)
  {
    hide ReadText, ReadWord;
  }

  function Keep(units: seq<Unit>, u: Unit): seq<Unit> {
    if u.name != [] then units + [u] else units
  }

  function ReadRows(buf: bytes, c: Cursor, end: nat, acc: seq<Unit>): (seq<Unit>, Cursor)
    decreases Left(buf, c)
  {
    if c.pos >= end || c.failed then (acc, c)
    else
      RowAdvances(buf, c);
      var (u, d) := ReadRow(buf, c);
      if d.failed then (Keep(acc, u), d)
      else ReadRows(buf, d, end, Keep(acc, u))
  }

  function DecodeUnits(body: bytes): Units {
    var (count, c) := ReadWord(body, Cursor(0, false), 4);
    if count > MAX_MESSAGE || count > |body| then Refused
    else
      var d := PadTo(body, c, 8);
      var (units, e) := ReadRows(body, d, d.pos + count, []);
      if e.failed then Refused else Listed(units)
  }

  method GetRow(d: Decoder) returns (unit: Unit)
    modifies d
    ensures (unit, d.At()) == ReadRow(d.buf, old(d.At()))
  {
    hide ReadText, ReadWord;
    d.Pad(8);
    var name := d.GetText();
    var description := d.GetText();
    var load := d.GetText();
    var active := d.GetText();
    var sub := d.GetText();
    var _ := d.GetText();
    var path := d.GetText();
    var _ := d.GetWord(4);
    var _ := d.GetText();
    var _ := d.GetText();
    unit := Unit(name, description, load, active, sub, path);
  }

  /** Any bytes at all give a list or an error; every index is in range because this verifies. */
  method DecodeUnitList(body: bytes) returns (r: Units)
    ensures r == DecodeUnits(body)
  {
    hide ReadRow;
    var d := new Decoder(body);
    var count := d.GetWord(4);
    if count > MAX_MESSAGE || count > |body| {
      return Refused;
    }
    d.Pad(8);
    var end := d.pos + count;
    ghost var start := d.At();
    var units: seq<Unit> := [];
    while d.pos < end && !d.failed
      invariant d.buf == body && (!d.failed ==> d.pos <= |body|)
      invariant ReadRows(body, start, end, []) == ReadRows(body, d.At(), end, units)
      decreases Left(body, d.At())
    {
      RowAdvances(body, d.At());
      var unit := GetRow(d);
      if unit.name != [] {
        units := units + [unit];
      }
    }
    if d.failed {
      return Refused;
    }
    r := Listed(units);
  }

  // ---- decodeUnits inverts the specification's marshalling ------------------------------------------------------

  /** The unit a row of the reply describes. */
  function UnitOf(row: Value): Unit
    requires HasType(row, ROW)
  {
    var f := row.items;
    assert forall i | 0 <= i < 10 :: HasType(f[i], ROW.fields[i]);
    Unit(f[0].text, f[1].text, f[2].text, f[3].text, f[4].text, f[6].text)
  }

  /** The units of the rows that have a name, in order. */
  function NamedUnits(rows: seq<Value>): seq<Unit>
    requires forall i | 0 <= i < |rows| :: HasType(rows[i], ROW)
  {
    if rows == [] then []
    else if UnitOf(rows[0]).name != [] then [UnitOf(rows[0])] + NamedUnits(rows[1..])
    else NamedUnits(rows[1..])
  }

  /** From field k on, the fields are marshalled at off and end at end. */
  ghost predicate Behind(buf: bytes, off: nat, ts: seq<Type>, vs: seq<Value>, k: nat, end: nat) {
    |ts| == |vs| && k <= |ts| && (forall i | 0 <= i < |ts| :: HasType(vs[i], ts[i])) &&
    At(buf, off, EncAll(ts[k..], vs[k..], off)) && off + |EncAll(ts[k..], vs[k..], off)| == end
  }

  lemma PeelOne(buf: bytes, off: nat, ts: seq<Type>, vs: seq<Value>, k: nat, end: nat) returns (first: bytes)
    requires Behind(buf, off, ts, vs, k, end) && k < |ts|
    ensures first == Enc(ts[k], vs[k], off) && At(buf, off, first)
    ensures Behind(buf, off + |first|, ts, vs, k + 1, end)
  {
    hide At, HasType, Enc;
    assert ts[k..][1..] == ts[k + 1..] && vs[k..][1..] == vs[k + 1..];
    first := Enc(ts[k], vs[k], off);
    AtSplit(buf, off, first, EncAll(ts[k + 1..], vs[k + 1..], off + |first|));
  }

  /** A text field read where it was marshalled, with the rest of the fields behind it. */
  lemma PeelText(buf: bytes, off: nat, ts: seq<Type>, vs: seq<Value>, k: nat, end: nat) returns (next: nat)
    requires Behind(buf, off, ts, vs, k, end) && k < |ts| && (ts[k] == Basic(S) || ts[k] == Basic(O))
    ensures vs[k].Text? && ReadText(buf, Cursor(off, false)) == (vs[k].text, Cursor(next, false))
    ensures Behind(buf, next, ts, vs, k + 1, end)
  {
    hide ReadText, At, HasType;
    var first := PeelOne(buf, off, ts, vs, k, end);
    next := off + |first|;
    BasicText(ts[k], vs[k], off);
    TextOver(buf, off, vs[k].text);
  }

  lemma BasicText(t: Type, v: Value, off: nat)
    requires HasType(v, t) && (t == Basic(S) || t == Basic(O))
    ensures v.Text? && |v.text| < U32 && Enc(t, v, off) == EncText(v.text, off)
  {
  }

  /** The job id, which is read and dropped. */
  lemma PeelWord(buf: bytes, off: nat, ts: seq<Type>, vs: seq<Value>, k: nat, end: nat) returns (next: nat)
    requires Behind(buf, off, ts, vs, k, end) && k < |ts| && ts[k] == Basic(U)
    ensures ReadWord(buf, Cursor(off, false), 4).1 == Cursor(next, false)
    ensures Behind(buf, next, ts, vs, k + 1, end)
  {
    hide ReadWord, At;
    var first := PeelOne(buf, off, ts, vs, k, end);
    next := off + |first|;
    Spans();
    WordOver(buf, off, vs[k].n, 4);
  }

  lemma RowOver(buf: bytes, off: nat, row: Value)
    requires HasType(row, ROW) && At(buf, off, Enc(ROW, row, off))
    ensures ReadRow(buf, Cursor(off, false)) == (UnitOf(row), Cursor(off + |Enc(ROW, row, off)|, false))
  {
    hide ReadText, ReadWord, At, HasType, Enc, PadTo, Behind;
    var start, end := RowStart(buf, off, row);
    var vs, ts := row.items, ROW.fields;
    var o1 := PeelText(buf, start, ts, vs, 0, end);
    var o2 := PeelText(buf, o1, ts, vs, 1, end);
    var o3 := PeelText(buf, o2, ts, vs, 2, end);
    var o4 := PeelText(buf, o3, ts, vs, 3, end);
    var o5 := PeelText(buf, o4, ts, vs, 4, end);
    var o6 := PeelText(buf, o5, ts, vs, 5, end);
    var o7 := PeelText(buf, o6, ts, vs, 6, end);
    var o8 := PeelWord(buf, o7, ts, vs, 7, end);
    var o9 := PeelText(buf, o8, ts, vs, 8, end);
    var o10 := PeelText(buf, o9, ts, vs, 9, end);
    NothingBehind(buf, o10, ts, vs, end);
  }

  lemma NothingBehind(buf: bytes, off: nat, ts: seq<Type>, vs: seq<Value>, end: nat)
    requires Behind(buf, off, ts, vs, |ts|, end)
    ensures off == end
  {
    assert vs[|ts|..] == [];
  }

  lemma RowStart(buf: bytes, off: nat, row: Value) returns (start: nat, end: nat)
    requires HasType(row, ROW) && At(buf, off, Enc(ROW, row, off))
    ensures row.Many? && |row.items| == |ROW.fields| == 10
    ensures PadTo(buf, Cursor(off, false), 8) == Cursor(start, false)
    ensures end == off + |Enc(ROW, row, off)| && Behind(buf, start, ROW.fields, row.items, 0, end)
  {
    hide EncAll, At, PadTo;
    start := Align(off, 8);
    end := off + |Enc(ROW, row, off)|;
    assert ROW.fields[0..] == ROW.fields && row.items[0..] == row.items;
    AtSplit(buf, off, Padding(off, 8), EncAll(ROW.fields, row.items, start));
    PadOver(buf, off, 8);
  }

  lemma {:induction false} RowsOver(buf: bytes, off: nat, rows: seq<Value>, acc: seq<Unit>)
    requires forall i | 0 <= i < |rows| :: HasType(rows[i], ROW)
    requires At(buf, off, EncEach(ROW, rows, off))
    ensures var end := off + |EncEach(ROW, rows, off)|;
            ReadRows(buf, Cursor(off, false), end, acc) == (acc + NamedUnits(rows), Cursor(end, false))
    decreases |rows|
  {
    hide Enc, HasType, ReadRow, UnitOf, At;
    if rows == [] {
      assert acc + [] == acc;
    } else {
      var first := Enc(ROW, rows[0], off);
      var tail := EncEach(ROW, rows[1..], off + |first|);
      AtSplit(buf, off, first, tail);
      EncNonEmpty(ROW, rows[0], off);
      RowOver(buf, off, rows[0]);
      var u := UnitOf(rows[0]);
      RowsOver(buf, off + |first|, rows[1..], Keep(acc, u));
      assert acc + ([u] + NamedUnits(rows[1..])) == acc + [u] + NamedUnits(rows[1..]);
    }
  }

  /**
   Every list of units is decoded to itself, rows with no name left out, if and only if its rows take at most what the
   agent will read; a longer list is refused.
   */
  lemma UnitsRoundTrip(rows: seq<Value>)
    requires forall i | 0 <= i < |rows| :: HasType(rows[i], ROW)
    requires HasType(Many(rows), Array(ROW)) && |Enc(Array(ROW), Many(rows), 0)| < U32
    ensures DecodeUnits(Enc(Array(ROW), Many(rows), 0))
         == if |EncEach(ROW, rows, 8)| <= MAX_MESSAGE then Listed(NamedUnits(rows)) else Refused
  {
    hide Enc, EncEach, HasType, ReadWord, ReadRows, PadTo;
    var body := Enc(Array(ROW), Many(rows), 0);
    assert At(body, 0, body);
    var n, start := ArrayHead(body, 0, ROW, Many(rows));
    assert AlignmentOf(Sig(ROW)[0]) == 8;
    EncArray(ROW, Many(rows), 0);
    assert Align(0, 4) + 4 == 4 && Align(4, 8) == 8;
    assert |body| == 8 + |EncEach(ROW, rows, 8)|;
    assert start == 8 && n == |EncEach(ROW, rows, 8)| by { ArrayStartsAt(body, n, start); }
    RowsOver(body, start, rows, []);
    assert [] + NamedUnits(rows) == NamedUnits(rows);
  }

  lemma ArrayStartsAt(body: bytes, n: nat, start: nat)
    requires PadTo(body, ReadWord(body, Cursor(0, false), 4).1, 8) == Cursor(start, false)
    ensures start == 8
  {
    var (_, d) := ReadWord(body, Cursor(0, false), 4);
    assert d.pos == 4;
  }

  // ---- lists that are cut off -----------------------------------------------------------------------------------

  lemma {:induction false} RowsReachEnd(buf: bytes, c: Cursor, end: nat, acc: seq<Unit>)
    requires c.failed || c.pos <= |buf|
    ensures var d := ReadRows(buf, c, end, acc).1;
            d.failed || (!c.failed && end <= d.pos <= |buf|)
    decreases Left(buf, c)
  {
    hide ReadRow, Keep;
    if c.pos < end && !c.failed {
      RowAdvances(buf, c);
      var (u, d) := ReadRow(buf, c);
      if !d.failed {
        RowsReachEnd(buf, d, end, Keep(acc, u));
      }
    }
  }

  /** A list is only given whole: the body holds as many bytes of rows as it says. Whatever is cut off is refused. */
  lemma ListedIsWhole(body: bytes)
    requires DecodeUnits(body).Listed?
    ensures |body| >= 8 && FromLe(body[..4]) + 8 <= |body| && FromLe(body[..4]) <= 16 * 1024 * 1024
  {
    hide ReadRows, FromLe;
    var (count, c) := ReadWord(body, Cursor(0, false), 4);
    var d := PadTo(body, c, 8);
    CountFirst(body);
    RowsReachEnd(body, d, d.pos + count, []);
  }

  lemma CountFirst(body: bytes)
    ensures var (count, c) := ReadWord(body, Cursor(0, false), 4);
            (!c.failed ==> |body| >= 4 && count == FromLe(body[..4]) && c.pos == 4) &&
            (!PadTo(body, c, 8).failed && !c.failed ==> PadTo(body, c, 8).pos == 8 && |body| >= 8) &&
            (c.failed ==> PadTo(body, c, 8).failed)
  {
    hide FromLe;
    assert Align(0, 4) == 0 && Align(4, 8) == 8;
  }
}
