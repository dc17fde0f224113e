/**
 What an entry says, in terms of the fields it was written with: for each kind of field the last one counts, and the
 unit is the one systemd wrote about when systemd did the writing.
 */
module JournalEntries {
  import opened Options
  import opened Bytes
  import opened JournalBlocks
  import opened JournalFormat
  import D = Decimal

  const EQUALS: byte := 61

  /** A payload `name=value` is read as that name and that value, whatever bytes they are and whatever follows. */
  lemma PayloadSays(j: Journal, start: nat, name: bytes, value: bytes)
    requires At(j.file, start, name + [EQUALS] + value) && EQUALS !in name && name != []
    ensures FieldIn(j, start, |name| + 1 + |value|) ==
              if |name| > 64 || KindOf(name) == Other then OTHER
              else if KindOf(name) == Message then Field(Message, [], start + |name| + 1, |value|)
              else if |value| > 256 then OTHER
              else Field(KindOf(name), value, 0, 0)
  {
    hide KindOf, IndexOf, At;
    HeadSays(j, start, name, value);
  }

  /** What reading the start of a payload finds: the first equals sign if it is near enough, and what is around it. */
  lemma HeadSays(j: Journal, start: nat, name: bytes, value: bytes)
    requires At(j.file, start, name + [EQUALS] + value) && EQUALS !in name && name != []
    ensures var length := |name| + 1 + |value|;
            start + length <= |j.file| &&
            var head := j.file[start..start + Min(length, MAX_NAME + 1)];
            IndexOf(head, EQUALS) == (if |name| > MAX_NAME then -1 else |name|) &&
            (|name| <= MAX_NAME ==> head[..|name|] == name && j.file[start + |name| + 1..start + length] == value)
  {
    hide IndexOf;
    var all := name + [EQUALS] + value;
    var n := Min(|all|, MAX_NAME + 1);
    var head := j.file[start..start + n];
    assert j.file[start..start + |all|] == all;
    assert head == j.file[start..start + |all|][..n] == all[..n];
    FirstOfPayload(name, value, n);
    if n <= |name| {
      assert head == name[..n];
      NoneThere(head, EQUALS);
    } else {
      assert head == name + [EQUALS] + value[..n - |name| - 1];
      FirstThere(name, EQUALS, value[..n - |name| - 1]);
      assert j.file[start + |name| + 1..start + |all|] == all[|name| + 1..];
    }
  }

  lemma FirstOfPayload(name: bytes, value: bytes, n: nat)
    requires n <= |name| + 1 + |value|
    ensures (name + [EQUALS] + value)[..n]
         == if n <= |name| then name[..n] else name + [EQUALS] + value[..n - |name| - 1]
    ensures (name + [EQUALS] + value)[|name| + 1..] == value
    ensures n > |name| ==> (name + [EQUALS] + value)[..n][..|name|] == name
  {
  }

  lemma {:induction false} NoneThere(s: bytes, b: byte)
    requires b !in s
    ensures IndexOf(s, b) == -1
  {
    if s != [] {
      NoneThere(s[1..], b);
    }
  }

  lemma {:induction false} FirstThere(s: bytes, b: byte, tail: bytes)
    requires b !in s
    ensures IndexOf(s + [b] + tail, b) == |s|
  {
    if s == [] {
      assert s + [b] + tail == [b] + tail;
    } else {
      assert (s + [b] + tail)[1..] == s[1..] + [b] + tail;
      FirstThere(s[1..], b, tail);
    }
  }

  /** Plain text, as field names are. */
  predicate Plain(s: string) {
    forall i | 0 <= i < |s| :: s[i] < 128 as char && s[i] != '='
  }

  lemma PlainNames()
    ensures Plain("_SYSTEMD_UNIT") && Plain("UNIT") && Plain("PRIORITY") && Plain("SYSLOG_FACILITY")
    ensures Plain("SYSLOG_IDENTIFIER") && Plain("_TRANSPORT") && Plain("MESSAGE")
  {
  }

  /** The fields that are read, by the names journald gives them. */
  function KindNamed(name: string): Kind {
    match name
    case "_SYSTEMD_UNIT" => UnitField
    case "UNIT" => About
    case "PRIORITY" => Priority
    case "SYSLOG_FACILITY" => Facility
    case "SYSLOG_IDENTIFIER" => Identifier
    case "_TRANSPORT" => Transport
    case "MESSAGE" => Message
    case _ => Other
  }

  lemma KindByName(name: string)
    requires Plain(name)
    ensures KindOf(Ascii(name)) == KindNamed(name)
  {
    hide Ascii, Plain;
    PlainNames();
    AsciiOnce(name, "_SYSTEMD_UNIT");
    AsciiOnce(name, "UNIT");
    AsciiOnce(name, "PRIORITY");
    AsciiOnce(name, "SYSLOG_FACILITY");
    AsciiOnce(name, "SYSLOG_IDENTIFIER");
    AsciiOnce(name, "_TRANSPORT");
    AsciiOnce(name, "MESSAGE");
  }

  lemma AsciiStep(s: string)
    ensures s == "" ==> Ascii(s) == []
    ensures s != "" ==> Ascii(s) == [s[0] as int % 256] + Ascii(s[1..]) && s == [s[0]] + s[1..]
  {
  }

  lemma {:induction false} AsciiOnce(s: string, t: string)
    requires Plain(s) && Plain(t)
    ensures Ascii(s) == Ascii(t) <==> s == t
  {
    hide Ascii;
    AsciiStep(s);
    AsciiStep(t);
    if s != "" && t != "" {
      AsciiOnce(s[1..], t[1..]);
      assert ([s[0] as int % 256] + Ascii(s[1..]))[1..] == Ascii(s[1..]);
      assert ([t[0] as int % 256] + Ascii(t[1..]))[1..] == Ascii(t[1..]);
    }
  }

  /** A field written under its name is read as what it says, as long as it is short enough. */
  lemma NamedPayload(j: Journal, start: nat, name: string, value: bytes)
    requires At(j.file, start, Ascii(name) + [EQUALS] + value) && |value| <= MAX_FIELD
    requires Plain(name) && 0 < |name| <= MAX_NAME && KindNamed(name) != Message
    ensures FieldIn(j, start, |name| + 1 + |value|)
         == if KindNamed(name) == Other then OTHER else Field(KindNamed(name), value, 0, 0)
  {
    hide Ascii, FieldIn, KindOf, KindNamed, At, Plain;
    KindByName(name);
    NoEquals(name);
    PayloadSays(j, start, Ascii(name), value);
  }

  lemma {:induction false} NoEquals(s: string)
    requires Plain(s)
    ensures EQUALS !in Ascii(s)
  {
    if s != "" {
      NoEquals(s[1..]);
    }
  }

  /** A data object is stored compressed when its flags name one of the three ways: XZ (1), LZ4 (2) or ZSTD (4). */
  lemma FlagsSay(j: Journal, off: int)
    requires Readable(j) && ObjectAt(j, off, 1).Some? && ObjectAt(j, off, 1).value.0 > PayloadAt(j)
    ensures 0 <= off < |j.file| - 1
    ensures var flags := j.file[off + 1];
            FieldAt(j, off).kind == Compressed <==> flags % 2 == 1 || flags / 2 % 2 == 1 || flags / 4 % 2 == 1
  {
    hide FieldIn, Word64;
    var size := ObjectAt(j, off, 1).value.0;
    LowFlags(ObjectAt(j, off, 1).value.1);
    NeverCompressed(j, off + PayloadAt(j), size - PayloadAt(j));
  }

  lemma NeverCompressed(j: Journal, start: nat, length: nat)
    requires start + length <= |j.file|
    ensures FieldIn(j, start, length).kind != Compressed
  {
    hide Ascii, IndexOf;
  }

  lemma LowFlags(flags: byte)
    ensures flags % 8 != 0 <==> flags % 2 == 1 || flags / 2 % 2 == 1 || flags / 4 % 2 == 1
  {
  }

  lemma {:induction false} DecimalSnoc(v: bytes, c: byte, acc: nat)
    requires AllDigits(v) && 48 <= c <= 57
    ensures AllDigits(v + [c]) && Decimal(v + [c], acc) == 10 * Decimal(v, acc) + (c - 48)
  {
    if v == [] {
      assert v + [c] == [c] && [c][1..] == [];
    } else {
      assert (v + [c])[1..] == v[1..] + [c];
      DecimalSnoc(v[1..], c, 10 * acc + (v[0] - 48));
    }
  }

  lemma {:induction false} DecimalIsValue(v: bytes)
    requires AllDigits(v)
    ensures D.AllDigits(v) && Decimal(v, 0) == D.Value(v)
  {
    if v != [] {
      var front, c := v[..|v| - 1], v[|v| - 1];
      DecimalIsValue(front);
      DecimalSnoc(front, c, 0);
      assert v == front + [c];
    }
  }

  function Unsigned(v: bytes): bytes {
    if v != [] && (v[0] == 43 || v[0] == 45) then v[1..] else v
  }

  /** A number written in decimal digits, with a sign before them if one likes; after a minus only zero is one. */
  predicate Writes(v: bytes, n: nat) {
    Unsigned(v) != [] && D.AllDigits(Unsigned(v)) && D.Value(Unsigned(v)) == n && (v[0] == 45 ==> n == 0)
  }

  /** A priority or a facility is the number that is written, if it is in range; anything else says nothing. */
  lemma SmallSays(v: bytes, most: nat, n: nat)
    ensures Small(v, most) == n <==> n <= most && Writes(v, n)
    ensures -1 <= Small(v, most) <= most
  {
    hide D.Value, Decimal;
    var digits := Unsigned(v);
    if AllDigits(digits) {
      DecimalIsValue(digits);
    }
    assert AllDigits(digits) <==> D.AllDigits(digits);
  }

  /** A message is the first 2048 bytes of what was written, and says that it was cut exactly when there was more. */
  lemma MessageSays(j: Journal, e: Entry, value: bytes)
    requires e.message > 0 && At(j.file, e.message, value) && e.messageLen == |value|
    ensures MessageOf(j, e) == if |value| > 2048 then (value[..2048], true) else (value, false)
  {
    var n := if |value| < 2048 then |value| else 2048;
    assert j.file[e.message..e.message + n] == j.file[e.message..e.message + |value|][..n];
  }

  /** A file is read when it has the signature, no incompatible flag beyond the first five, and its whole header. */
  lemma HeaderSays(file: bytes)
    ensures var h := Header(file);
            (h.Some? <==>
               |file| >= 200 && file[..8] == Ascii("LPKSHHRH") && FromLe(file[12..16]) < 32 &&
               200 <= Word64(file, 88) <= |file|) &&
            (h.Some? ==>
               h.value.file == file && h.value.headerSize == Word64(file, 88) &&
               h.value.entryArray == Word64(file, 176) && h.value.tail == Word64(file, 192) &&
               (h.value.compact <==> FromLe(file[12..16]) >= 16))
  {
    hide Word64, Ascii, FromLe;
  }

  /** The fields of an entry's items. */
  function Fields(j: Journal, off: nat, i: nat, n: nat): seq<Field>
    requires Readable(j) && i <= n && off + 64 + EntryItemsLength(j, n) <= |j.file|
    decreases n - i
  {
    if i == n then [] else [FieldAt(j, EntryItem(j, off, i))] + Fields(j, off, i + 1, n)
  }

  /** The last field of a kind. */
  function LastOf(fs: seq<Field>, kind: Kind): Option<Field> {
    if fs == [] then None
    else if LastOf(fs[1..], kind).Some? then LastOf(fs[1..], kind)
    else if fs[0].kind == kind then Some(fs[0])
    else None
  }

  function ValueOr(f: Option<Field>, otherwise: bytes): bytes {
    if f.Some? then f.value.value else otherwise
  }

  /** The last number of a kind that is in range. */
  function NumberOr(fs: seq<Field>, kind: Kind, most: int, otherwise: int): int {
    if fs == [] then otherwise
    else
      NumberOr(fs[1..], kind, most,
               if fs[0].kind == kind && Small(fs[0].value, most) >= 0 then Small(fs[0].value, most) else otherwise)
  }

  /** A draft after some fields, by what came last. */
  ghost predicate Says(r: Draft, d: Draft, fs: seq<Field>) {
    var message := LastOf(fs, Message);
    r.entry.at == d.entry.at &&
    r.entry.unit == ValueOr(LastOf(fs, UnitField), d.entry.unit) &&
    r.about == ValueOr(LastOf(fs, About), d.about) &&
    r.entry.identifier == ValueOr(LastOf(fs, Identifier), d.entry.identifier) &&
    r.entry.transport == ValueOr(LastOf(fs, Transport), d.entry.transport) &&
    r.entry.priority == NumberOr(fs, Priority, 7, d.entry.priority) &&
    r.entry.facility == NumberOr(fs, Facility, 23, d.entry.facility) &&
    r.entry.message == (if message.Some? then message.value.at else d.entry.message) &&
    r.entry.messageLen == (if message.Some? then message.value.length else d.entry.messageLen) &&
    (r.entry.compressed <==> d.entry.compressed || LastOf(fs, Compressed).Some?)
  }

  lemma SaysNothing(d: Draft)
    ensures Says(d, d, [])
  {
  }

  lemma SaysMore(r: Draft, d: Draft, f: Field, fs: seq<Field>)
    requires Says(r, Take(d, f), fs)
    ensures Says(r, d, [f] + fs)
  {
    hide LastOf, NumberOr, Small, Take;
    TakeKeeps(d, f);
    LastOfCons(f, fs);
    NumberOrCons(f, fs);
  }

  /** One field changes what it speaks of and nothing else. */
  lemma TakeKeeps(d: Draft, f: Field)
    ensures var r := Take(d, f);
            r.entry.at == d.entry.at &&
            r.entry.unit == (if f.kind == UnitField then f.value else d.entry.unit) &&
            r.about == (if f.kind == About then f.value else d.about) &&
            r.entry.identifier == (if f.kind == Identifier then f.value else d.entry.identifier) &&
            r.entry.transport == (if f.kind == Transport then f.value else d.entry.transport) &&
            r.entry.priority
              == (if f.kind == Priority && Small(f.value, 7) >= 0 then Small(f.value, 7) else d.entry.priority) &&
            r.entry.facility
              == (if f.kind == Facility && Small(f.value, 23) >= 0 then Small(f.value, 23) else d.entry.facility) &&
            r.entry.message == (if f.kind == Message then f.at else d.entry.message) &&
            r.entry.messageLen == (if f.kind == Message then f.length else d.entry.messageLen) &&
            (r.entry.compressed <==> d.entry.compressed || f.kind == Compressed)
  {
    hide Small;
  }

  lemma LastOfCons(f: Field, fs: seq<Field>)
    ensures forall kind ::
              LastOf([f] + fs, kind)
                == if LastOf(fs, kind).Some? then LastOf(fs, kind) else if f.kind == kind then Some(f) else None
  {
    assert ([f] + fs)[1..] == fs;
  }

  lemma NumberOrCons(f: Field, fs: seq<Field>)
    ensures forall kind, most, otherwise ::
              NumberOr([f] + fs, kind, most, otherwise)
                == NumberOr(fs, kind, most,
                            if f.kind == kind && Small(f.value, most) >= 0 then Small(f.value, most) else otherwise)
  {
    hide Small;
    assert ([f] + fs)[1..] == fs;
  }

  lemma {:induction false} ItemsSay(j: Journal, off: nat, i: nat, n: nat, d: Draft)
    requires Readable(j) && i <= n && off + 64 + EntryItemsLength(j, n) <= |j.file|
    ensures Says(TakeItems(j, off, i, n, d), d, Fields(j, off, i, n))
    decreases n - i
  {
    hide Says, Take, FieldAt, EntryItem;
    if i == n {
      SaysNothing(d);
    } else {
      var f := FieldAt(j, EntryItem(j, off, i));
      ItemsSay(j, off, i + 1, n, Take(d, f));
      SaysMore(TakeItems(j, off, i + 1, n, Take(d, f)), d, f, Fields(j, off, i + 1, n));
    }
  }

  /**
   An entry, by its fields: the last of each kind; the unit systemd wrote about when the writer was systemd itself or
   no unit; no priority or facility unless one in range was written; and compressed only when it has no message beside.
   */
  lemma EntrySays(j: Journal, off: int)
    requires Readable(j) && EntryAt(j, off).Some?
    ensures off >= 0 && ObjectAt(j, off, OBJECT_ENTRY).Some? && ObjectAt(j, off, OBJECT_ENTRY).value.0 >= 64
    ensures var e, n := EntryAt(j, off).value, EntryItems(j, ObjectAt(j, off, OBJECT_ENTRY).value.0);
            var fs := Fields(j, off, 0, n);
            var own, about := ValueOr(LastOf(fs, UnitField), []), ValueOr(LastOf(fs, About), []);
            e.at == Word64(j.file, off + 24) &&
            e.unit == (if about == [] || (own != [] && own != Ascii("init.scope")) then own else about) &&
            e.identifier == ValueOr(LastOf(fs, Identifier), []) && e.transport == ValueOr(LastOf(fs, Transport), []) &&
            e.priority == NumberOr(fs, Priority, 7, -1) && e.facility == NumberOr(fs, Facility, 23, -1) &&
            e.message == (if LastOf(fs, Message).Some? then LastOf(fs, Message).value.at else 0) &&
            e.messageLen == (if LastOf(fs, Message).Some? then LastOf(fs, Message).value.length else 0) &&
            (e.compressed <==> LastOf(fs, Compressed).Some? && e.message == 0)
  {
    hide TakeItems, ObjectAt, LastOf, NumberOr, Fields, Ascii;
    var n := EntryItems(j, ObjectAt(j, off, OBJECT_ENTRY).value.0);
    ItemsSay(j, off, 0, n, Blank(Word64(j.file, off + 24)));
  }
}
