/**
 A well-formed journal file with one line of a unit, followed by any number of later entries of nobody: up to what count
 of them the line is found, and what is said when it is not. The file is laid out as systemd's Journal File Format says.
 */
module JournalBusy {
  import opened Options
  import opened Bytes
  import opened JournalBlocks
  import opened JournalFormat
  import opened JournalEntries
  import opened JournalFile
  import opened JournalReads
  import opened JournalLines

  const UNIT: bytes := Ascii("a")

  /** Everything the unit wrote, ever. */
  const QUERY := Query(UNIT, 0, U32)

  // ---- the file -------------------------------------------------------------------------------------------------

  function Zeros(n: nat): (r: bytes)
    ensures |r| == n
  {
    seq(n, _ => 0)
  }

  /** The compact layout is the fifth of the flags a reader must know. */
  function HeaderOf(compact: bool, arrayAt: nat, tail: nat): (r: bytes)
    ensures |r| == 200
  {
    Ascii("LPKSHHRH") + Zeros(4) + Le(if compact then 16 else 0, 4) + Zeros(72) + Le(200, 8) + Zeros(80)
    + Le(arrayAt, 8) + Zeros(8) + Le(tail, 8)
  }

  /** An object: its type, its size, and what is in it. */
  function ObjectOf(kind: byte, size: nat, rest: bytes): (r: bytes)
    ensures |r| == 16 + |rest|
  {
    [kind] + Zeros(7) + Le(size, 8) + rest
  }

  /** A field's payload after 64 bytes, or in the compact layout 72, filled up. */
  function DataOf(compact: bool, payload: bytes, fill: nat): (r: bytes)
    ensures |r| == (if compact then 72 else 64) + |payload| + fill
  {
    if compact then ObjectOf(OBJECT_DATA, 72 + |payload|, Zeros(56) + payload + Zeros(fill))
    else ObjectOf(OBJECT_DATA, 64 + |payload|, Zeros(48) + payload + Zeros(fill))
  }

  function EntryOf(at: nat, items: bytes): (r: bytes)
    ensures |r| == 64 + |items|
  {
    ObjectOf(OBJECT_ENTRY, 64 + |items|, Zeros(8) + Le(at, 8) + Zeros(32) + items)
  }

  const UNIT_AT: nat := 200
  const MESSAGE_AT: nat := 288
  const LINE_AT: nat := 376
  const OTHERS_AT: nat := 472
  const MANY: nat := 0x100_0000

  /** The later entries, with no field, one after another. */
  function Others(n: nat): (r: bytes)
    ensures |r| == 64 * n
  {
    if n == 0 then [] else Others(n - 1) + EntryOf(n + 1, [])
  }

  /** Where the entries are, in the order they were written. */
  function Offsets(n: nat): (r: seq<nat>)
    ensures |r| == n + 1
  {
    if n == 0 then [LINE_AT] else Offsets(n - 1) + [OTHERS_AT + 64 * (n - 1)]
  }

  /** Offsets are eight bytes wide, or in the compact layout four. */
  function Words(compact: bool, ns: seq<nat>): (r: bytes)
    ensures |r| == if compact then 4 * |ns| else 8 * |ns|
  {
    if ns == [] then []
    else Words(compact, ns[..|ns| - 1]) + Le(ns[|ns| - 1], if compact then 4 else 8)
  }

  function ArrayAtEnd(n: nat): nat {
    OTHERS_AT + 64 * n
  }

  function Payload(name: string, value: bytes): bytes {
    Ascii(name) + [EQUALS] + value
  }

  /** The line's two fields: each an offset and a hash, or in the compact layout an offset alone. */
  function LineItems(compact: bool): (r: bytes)
    ensures |r| == if compact then 8 else 32
  {
    if compact then Le(UNIT_AT, 4) + Le(MESSAGE_AT, 4)
    else Le(UNIT_AT, 8) + Zeros(8) + Le(MESSAGE_AT, 8) + Zeros(8)
  }

  function LineOf(compact: bool): (r: bytes)
    ensures |r| == 96
  {
    EntryOf(1, LineItems(compact)) + Zeros(if compact then 24 else 0)
  }

  function UnitData(compact: bool): (r: bytes)
    ensures |r| == 88
  {
    DataOf(compact, Payload("_SYSTEMD_UNIT", UNIT), if compact then 1 else 9)
  }

  function MessageData(compact: bool): (r: bytes)
    ensures |r| == 88
  {
    DataOf(compact, Payload("MESSAGE", Ascii("x")), if compact then 7 else 15)
  }

  /** The array of the entries' places. */
  function ArrayOf(compact: bool, ns: seq<nat>): bytes {
    var words := Words(compact, ns);
    ObjectOf(OBJECT_ENTRY_ARRAY, 24 + |words|, Le(0, 8) + words)
  }

  function BusyFile(compact: bool, n: nat): (r: bytes)
    ensures |r| >= ArrayAtEnd(n)
  {
    HeaderOf(compact, ArrayAtEnd(n), n + 1) + UnitData(compact) + MessageData(compact) + LineOf(compact) + Others(n)
    + ArrayOf(compact, Offsets(n))
  }

  function Busy(compact: bool, n: nat): GoodJournal {
    Journal(BusyFile(compact, n), compact, 200, ArrayAtEnd(n), n + 1)
  }

  // ---- reading it -----------------------------------------------------------------------------------------------

  lemma AtPart(whole: bytes, off: nat, part: bytes, k: nat, piece: bytes)
    requires At(whole, off, part) && At(part, k, piece)
    ensures At(whole, off + k, piece)
  {
    assert part == part[..k] + piece + part[k + |piece|..];
    AtSplit3(whole, off, part[..k], piece, part[k + |piece|..]);
  }

  lemma WordAt(file: bytes, off: nat, n: nat)
    requires At(file, off, Le(n, 8)) && n < 0x8000_0000_0000_0000
    ensures off + 8 <= |file| && Word64(file, off) == n
  {
    Spans();
    FromLeOfLe(n, 8);
  }

  lemma HalfAt(file: bytes, off: nat, n: nat)
    requires At(file, off, Le(n, 4)) && n < U32
    ensures off + 4 <= |file| && Word32(file, off) == n
  {
    Spans();
    FromLeOfLe(n, 4);
  }

  /** The start of an object, and what follows. */
  lemma ObjectSays(file: bytes, off: nat, kind: byte, size: nat, rest: bytes)
    requires At(file, off, ObjectOf(kind, size, rest)) && size < 0x8000_0000_0000_0000
    ensures off + 16 + |rest| <= |file| && file[off] == kind && file[off + 1] == 0 && Word64(file, off + 8) == size
    ensures At(file, off + 16, rest)
  {
    hide Le, Word64;
    var o := ObjectOf(kind, size, rest);
    assert o[0] == kind && o[1] == 0;
    assert file[off] == file[off..off + |o|][0] && file[off + 1] == file[off..off + |o|][1];
    assert At(o, 8, Le(size, 8));
    assert At(o, 16, rest);
    AtPart(file, off, o, 8, Le(size, 8));
    AtPart(file, off, o, 16, rest);
    WordAt(file, off + 8, size);
  }

  lemma ObjectThere(j: GoodJournal, off: nat, kind: byte, size: nat, rest: bytes)
    requires At(j.file, off, ObjectOf(kind, size, rest))
    requires 16 <= size <= 16 + |rest| && size < 0x8000_0000_0000_0000 && off >= j.headerSize && off % 8 == 0
    ensures ObjectAt(j, off, kind).Some? && ObjectAt(j, off, kind).value.0 == size &&
            ObjectAt(j, off, kind).value.1 == 0
  {
    hide Word64, ObjectOf;
    ObjectSays(j.file, off, kind, size, rest);
  }

  lemma DataSays(j: GoodJournal, off: nat, p: bytes, fill: nat)
    requires At(j.file, off, DataOf(j.compact, p, fill)) && off >= j.headerSize && off % 8 == 0 && 0 < |p| < U32
    ensures var o := ObjectAt(j, off, OBJECT_DATA);
            o.Some? && o.value.0 == PayloadAt(j) + |p| && o.value.1 == 0 && At(j.file, off + PayloadAt(j), p)
  {
    hide ObjectAt, ObjectOf, Word64;
    var gap := PayloadAt(j) - 16;
    var rest := Zeros(gap) + p + Zeros(fill);
    ObjectThere(j, off, OBJECT_DATA, PayloadAt(j) + |p|, rest);
    ObjectSays(j.file, off, OBJECT_DATA, PayloadAt(j) + |p|, rest);
    assert At(rest, gap, p);
    AtPart(j.file, off + 16, rest, gap, p);
  }

  /** A data object is read as the field it holds. */
  lemma DataThere(j: GoodJournal, off: nat, name: bytes, value: bytes, fill: nat)
    requires At(j.file, off, DataOf(j.compact, name + [EQUALS] + value, fill))
    requires off >= j.headerSize && off % 8 == 0
    requires EQUALS !in name && 0 < |name| <= MAX_NAME && |value| <= MAX_FIELD && KindOf(name) != Other
    ensures FieldAt(j, off)
         == if KindOf(name) == Message then Field(Message, [], off + PayloadAt(j) + |name| + 1, |value|)
            else Field(KindOf(name), value, 0, 0)
  {
    hide KindOf, ObjectAt, FieldIn, DataOf, At;
    DataSays(j, off, name + [EQUALS] + value, fill);
    PayloadSays(j, off + PayloadAt(j), name, value);
  }

  /** An entry object, by its time and its items. */
  lemma EntryThere(j: GoodJournal, off: nat, at: nat, items: bytes)
    requires At(j.file, off, EntryOf(at, items)) && off >= j.headerSize && off % 8 == 0 && at < U64 / 2 && |items| < U32
    ensures ObjectAt(j, off, OBJECT_ENTRY).Some? && ObjectAt(j, off, OBJECT_ENTRY).value.0 == 64 + |items|
    ensures off + 64 + |items| <= |j.file|
    ensures Word64(j.file, off + 24) == at && At(j.file, off + 64, items)
  {
    hide ObjectAt, ObjectOf, Word64, Le;
    var rest := Zeros(8) + Le(at, 8) + Zeros(32) + items;
    ObjectThere(j, off, OBJECT_ENTRY, 64 + |items|, rest);
    ObjectSays(j.file, off, OBJECT_ENTRY, 64 + |items|, rest);
    assert At(rest, 8, Le(at, 8));
    assert At(rest, 48, items);
    AtPart(j.file, off + 16, rest, 8, Le(at, 8));
    AtPart(j.file, off + 16, rest, 48, items);
    WordAt(j.file, off + 24, at);
  }

  /** Where everything is. */
  lemma Places(compact: bool, n: nat)
    ensures var file := BusyFile(compact, n);
            At(file, 0, HeaderOf(compact, ArrayAtEnd(n), n + 1)) && At(file, UNIT_AT, UnitData(compact)) &&
            At(file, MESSAGE_AT, MessageData(compact)) && At(file, LINE_AT, LineOf(compact)) &&
            At(file, OTHERS_AT, Others(n)) && At(file, ArrayAtEnd(n), ArrayOf(compact, Offsets(n)))
  {
    hide At, HeaderOf, UnitData, MessageData, LineOf, Others, ArrayOf, Offsets;
    SixParts(HeaderOf(compact, ArrayAtEnd(n), n + 1), UnitData(compact), MessageData(compact), LineOf(compact),
             Others(n), ArrayOf(compact, Offsets(n)));
  }

  lemma SixParts(a: bytes, b: bytes, c: bytes, d: bytes, e: bytes, f: bytes)
    ensures var w := a + b + c + d + e + f;
            At(w, 0, a) && At(w, |a|, b) && At(w, |a| + |b|, c) && At(w, |a| + |b| + |c|, d) &&
            At(w, |a| + |b| + |c| + |d|, e) && At(w, |a| + |b| + |c| + |d| + |e|, f)
  {
    hide At;
    var w := a + b + c + d + e + f;
    AtWhole(w);
    AtSplit(w, 0, a + b + c + d + e, f);
    AtSplit(w, 0, a + b + c + d, e);
    AtSplit(w, 0, a + b + c, d);
    AtSplit3(w, 0, a, b, c);
  }

  lemma AtWhole(s: bytes)
    ensures At(s, 0, s)
  {
  }

  lemma {:induction false} OtherAt(whole: bytes, off: nat, n: nat, k: nat)
    requires At(whole, off, Others(n)) && 1 <= k <= n
    ensures At(whole, off + 64 * (k - 1), EntryOf(k + 1, []))
  {
    hide At, EntryOf;
    AtSplit(whole, off, Others(n - 1), EntryOf(n + 1, []));
    if k < n {
      OtherAt(whole, off, n - 1, k);
    }
  }

  lemma {:induction false} WordsAt(whole: bytes, off: nat, compact: bool, ns: seq<nat>, i: nat)
    requires At(whole, off, Words(compact, ns)) && i < |ns|
    ensures At(whole, off + if compact then 4 * i else 8 * i, Le(ns[i], if compact then 4 else 8))
    decreases |ns|
  {
    hide At, Le;
    var m := |ns| - 1;
    AtSplit(whole, off, Words(compact, ns[..m]), Le(ns[m], if compact then 4 else 8));
    if i < m {
      WordsAt(whole, off, compact, ns[..m], i);
    }
  }

  lemma {:induction false} OffsetsAt(n: nat, i: nat)
    requires i <= n
    ensures Offsets(n)[i] == if i == 0 then LINE_AT else OTHERS_AT + 64 * (i - 1)
  {
    if i < n {
      OffsetsAt(n - 1, i);
    }
  }

  lemma ArrayCounts(j: GoodJournal, off: nat, count: nat)
    requires ObjectAt(j, off, OBJECT_ENTRY_ARRAY).Some?
    requires ObjectAt(j, off, OBJECT_ENTRY_ARRAY).value.0 == 24 + ItemsLength(j, count)
    ensures ArrayAt(j, off) == Some(EntryArray(off, count))
  {
    hide ObjectAt;
  }

  lemma WordsLength(j: GoodJournal, ns: seq<nat>)
    ensures |Words(j.compact, ns)| == ItemsLength(j, |ns|) && |Words(j.compact, ns)| <= 8 * |ns|
  {
  }

  lemma ArraySays(j: GoodJournal, off: nat, ns: seq<nat>)
    requires At(j.file, off, ArrayOf(j.compact, ns)) && off >= j.headerSize && off % 8 == 0 && |ns| < U32
    ensures ArrayAt(j, off) == Some(EntryArray(off, |ns|)) && off + 24 + ItemsLength(j, |ns|) <= |j.file|
    ensures Word64(j.file, off + 16) == 0 && At(j.file, off + 24, Words(j.compact, ns))
  {
    hide *;
    ArrayIs(j.compact, ns);
    WordsLength(j, ns);
    ArrayHolds(j, off, Words(j.compact, ns));
    ArrayCounts(j, off, |ns|);
  }

  lemma ArrayIs(compact: bool, ns: seq<nat>)
    ensures var words := Words(compact, ns);
            ArrayOf(compact, ns) == ObjectOf(OBJECT_ENTRY_ARRAY, 24 + |words|, Le(0, 8) + words)
  {
  }

  lemma ArrayHolds(j: GoodJournal, off: nat, words: bytes)
    requires At(j.file, off, ObjectOf(OBJECT_ENTRY_ARRAY, 24 + |words|, Le(0, 8) + words))
    requires off >= j.headerSize && off % 8 == 0 && |words| < U32 * 16
    ensures var o := ObjectAt(j, off, OBJECT_ENTRY_ARRAY);
            o.Some? && o.value.0 == 24 + |words| && off + 24 + |words| <= |j.file| &&
            Word64(j.file, off + 16) == 0 && At(j.file, off + 24, words)
  {
    hide ObjectAt, ObjectOf, Le, Word64, At;
    ObjectThere(j, off, OBJECT_ENTRY_ARRAY, 24 + |words|, Le(0, 8) + words);
    ObjectSays(j.file, off, OBJECT_ENTRY_ARRAY, 24 + |words|, Le(0, 8) + words);
    AtSplit(j.file, off + 16, Le(0, 8), words);
    WordAt(j.file, off + 16, 0);
    AtLength(j.file, off + 24, words);
  }

  lemma AtLength(whole: bytes, off: nat, part: bytes)
    requires At(whole, off, part)
    ensures off + |part| <= |whole|
  {
  }

  lemma ArrayThere(compact: bool, n: nat)
    requires n < MANY
    ensures ArrayAt(Busy(compact, n), ArrayAtEnd(n)) == Some(EntryArray(ArrayAtEnd(n), n + 1))
    ensures Word64(BusyFile(compact, n), ArrayAtEnd(n) + 16) == 0
    ensures At(BusyFile(compact, n), ArrayAtEnd(n) + 24, Words(compact, Offsets(n)))
  {
    hide ArrayAt, ArrayOf, UnitData, MessageData, LineOf, HeaderOf, BusyFile, Words, Offsets, Word64, At, Others;
    Places(compact, n);
    ArraySays(Busy(compact, n), ArrayAtEnd(n), Offsets(n));
  }

  /** The one array holds the entries' places. */
  lemma ItemsAre(compact: bool, n: nat)
    requires n < MANY
    ensures Items(Busy(compact, n), EntryArray(ArrayAtEnd(n), n + 1)) == Offsets(n)
  {
    hide BusyFile, Words, Offsets, Le, Word64, Word32, At;
    var j, off := Busy(compact, n), ArrayAtEnd(n);
    ArrayThere(compact, n);
    forall i: nat | i <= n ensures Item(j, EntryArray(off, n + 1), i) == Offsets(n)[i] {
      WordsAt(j.file, off + 24, compact, Offsets(n), i);
      OffsetsAt(n, i);
      if compact {
        HalfAt(j.file, off + 24 + 4 * i, Offsets(n)[i]);
      } else {
        WordAt(j.file, off + 24 + 8 * i, Offsets(n)[i]);
      }
    }
  }

  lemma NewestAre(compact: bool, n: nat)
    requires n < MANY
    ensures NewestFirst(Busy(compact, n)) == Backwards(Offsets(n))
  {
    hide ArrayAt, Items, Offsets, BusyFile, Word64, At, Words;
    ArrayThere(compact, n);
    ItemsAre(compact, n);
    var j, a := Busy(compact, n), EntryArray(ArrayAtEnd(n), n + 1);
    ChainStep(j, ArrayAtEnd(n));
    assert Chain(j, ArrayAtEnd(n)) == [a];
    assert [a][1..] == [];
    assert Concat(j, [a]) == Items(j, a) + [];
    assert Items(j, a) + [] == Items(j, a);
  }

  // ---- its entries ----------------------------------------------------------------------------------------------

  function LineEntry(compact: bool): Entry {
    Entry(1, UNIT, -1, -1, [], [], if compact then 368 else 360, 1, false)
  }

  function Later(k: nat): Entry {
    Entry(k + 1, [], -1, -1, [], [], 0, 0, false)
  }

  /** The entries, newest first. */
  function Shown(compact: bool, m: nat): seq<Entry> {
    if m == 0 then [LineEntry(compact)] else [Later(m)] + Shown(compact, m - 1)
  }

  /** An entry without fields. */
  lemma BareReads(j: GoodJournal, off: nat, at: nat)
    requires At(j.file, off, EntryOf(at, [])) && off >= j.headerSize && off % 8 == 0 && at < U64 / 2
    ensures EntryAt(j, off) == Some(Entry(at, [], -1, -1, [], [], 0, 0, false))
  {
    hide ObjectAt, EntryOf, Word64, At;
    EntryThere(j, off, at, []);
  }

  lemma OtherReads(compact: bool, n: nat, k: nat)
    requires 1 <= k <= n < MANY
    ensures EntryAt(Busy(compact, n), OTHERS_AT + 64 * (k - 1)) == Some(Later(k))
  {
    hide EntryAt, EntryOf, UnitData, MessageData, LineOf, HeaderOf, BusyFile, Others, ArrayOf, Offsets, At;
    Places(compact, n);
    OtherAt(BusyFile(compact, n), OTHERS_AT, n, k);
    BareReads(Busy(compact, n), OTHERS_AT + 64 * (k - 1), k + 1);
  }

  lemma NamesSay()
    ensures KindOf(Ascii("_SYSTEMD_UNIT")) == UnitField && KindOf(Ascii("MESSAGE")) == Message
    ensures EQUALS !in Ascii("_SYSTEMD_UNIT") && EQUALS !in Ascii("MESSAGE")
  {
    hide Ascii, KindOf, Plain;
    PlainNames();
    KindByName("_SYSTEMD_UNIT");
    KindByName("MESSAGE");
    NoEquals("_SYSTEMD_UNIT");
    NoEquals("MESSAGE");
  }

  lemma FieldsRead(compact: bool, n: nat)
    requires n < MANY
    ensures FieldAt(Busy(compact, n), UNIT_AT) == Field(UnitField, UNIT, 0, 0)
    ensures FieldAt(Busy(compact, n), MESSAGE_AT) == Field(Message, [], if compact then 368 else 360, 1)
  {
    hide FieldAt, LineOf, DataOf, HeaderOf, BusyFile, Others, ArrayOf, Offsets, At, Ascii, KindOf;
    Places(compact, n);
    NamesSay();
    DataThere(Busy(compact, n), UNIT_AT, Ascii("_SYSTEMD_UNIT"), UNIT, if compact then 1 else 9);
    DataThere(Busy(compact, n), MESSAGE_AT, Ascii("MESSAGE"), Ascii("x"), if compact then 7 else 15);
  }

  lemma LineThere(compact: bool, n: nat)
    requires n < MANY
    ensures At(BusyFile(compact, n), LINE_AT, EntryOf(1, LineItems(compact)))
  {
    hide EntryOf, UnitData, MessageData, HeaderOf, BusyFile, Others, ArrayOf, Offsets, At, LineItems;
    Places(compact, n);
    AtSplit(BusyFile(compact, n), LINE_AT, EntryOf(1, LineItems(compact)), Zeros(if compact then 24 else 0));
  }

  lemma ItemsRead(compact: bool, n: nat)
    requires n < MANY
    ensures var j := Busy(compact, n);
            var o := ObjectAt(j, LINE_AT, OBJECT_ENTRY);
            o.Some? && o.value.0 >= 64 && EntryItems(j, o.value.0) == 2 &&
            LINE_AT + 64 + EntryItemsLength(j, 2) <= |j.file| && Word64(j.file, LINE_AT + 24) == 1 &&
            EntryItem(j, LINE_AT, 0) == UNIT_AT && EntryItem(j, LINE_AT, 1) == MESSAGE_AT
  {
    hide ObjectAt, EntryOf, BusyFile, Le, Word64, Word32, At;
    var file, at := BusyFile(compact, n), LINE_AT + 64;
    LineThere(compact, n);
    EntryThere(Busy(compact, n), LINE_AT, 1, LineItems(compact));
    if compact {
      AtSplit(file, at, Le(UNIT_AT, 4), Le(MESSAGE_AT, 4));
      HalfAt(file, at, UNIT_AT);
      HalfAt(file, at + 4, MESSAGE_AT);
    } else {
      AtSplit3(file, at, Le(UNIT_AT, 8) + Zeros(8), Le(MESSAGE_AT, 8), Zeros(8));
      AtSplit(file, at, Le(UNIT_AT, 8), Zeros(8));
      WordAt(file, at, UNIT_AT);
      WordAt(file, at + 16, MESSAGE_AT);
    }
  }

  lemma LineReads(compact: bool, n: nat)
    requires n < MANY
    ensures EntryAt(Busy(compact, n), LINE_AT) == Some(LineEntry(compact))
  {
    hide ObjectAt, BusyFile, Word64, FieldAt, EntryItem;
    FieldsRead(compact, n);
    ItemsRead(compact, n);
    var j, d := Busy(compact, n), Blank(1);
    assert TakeItems(j, LINE_AT, 0, 2, d) == TakeItems(j, LINE_AT, 1, 2, Take(d, FieldAt(j, UNIT_AT)));
    assert TakeItems(j, LINE_AT, 0, 2, d) == Take(Take(d, FieldAt(j, UNIT_AT)), FieldAt(j, MESSAGE_AT));
  }

  lemma {:induction false} EntriesAre(compact: bool, n: nat, m: nat)
    requires m <= n < MANY
    ensures EntriesAt(Busy(compact, n), Backwards(Offsets(m))) == Shown(compact, m)
  {
    hide EntryAt, BusyFile, Backwards;
    var j := Busy(compact, n);
    if m == 0 {
      LineReads(compact, n);
      BackwardsSnoc([], LINE_AT);
      assert [] + [LINE_AT as int] == Offsets(0);
      assert Backwards([]) == [] by { BackwardsNone(); }
      EntriesNone(j);
      EntriesStep(j, [LINE_AT]);
    } else {
      var off := OTHERS_AT + 64 * (m - 1);
      OtherReads(compact, n, m);
      BackwardsSnoc(Offsets(m - 1), off);
      EntriesAre(compact, n, m - 1);
      EntriesStep(j, [off] + Backwards(Offsets(m - 1)));
      assert ([off] + Backwards(Offsets(m - 1)))[1..] == Backwards(Offsets(m - 1));
    }
  }

  lemma BackwardsNone()
    ensures Backwards([]) == []
  {
  }

  /** It is a journal file the reader accepts. */
  lemma HeaderReads(compact: bool, n: nat)
    requires n < MANY
    ensures Header(BusyFile(compact, n)).Some? && Header(BusyFile(compact, n)).value == Busy(compact, n)
  {
    hide UnitData, MessageData, LineOf, BusyFile, Others, ArrayOf, Offsets, Le, Word64, Ascii;
    var file, h, flags := BusyFile(compact, n), HeaderOf(compact, ArrayAtEnd(n), n + 1), if compact then 16 else 0;
    Places(compact, n);
    HeaderParts(compact, ArrayAtEnd(n), n + 1);
    assert file[..200] == h;
    assert file[..8] == h[..8] == Ascii("LPKSHHRH");
    AtPart(file, 0, h, 12, Le(flags, 4));
    HalfAt(file, 12, flags);
    AtPart(file, 0, h, 88, Le(200, 8));
    AtPart(file, 0, h, 176, Le(ArrayAtEnd(n), 8));
    AtPart(file, 0, h, 192, Le(n + 1, 8));
    WordAt(file, 88, 200);
    WordAt(file, 176, ArrayAtEnd(n));
    WordAt(file, 192, n + 1);
  }

  lemma HeaderParts(compact: bool, arrayAt: nat, tail: nat)
    ensures var h := HeaderOf(compact, arrayAt, tail);
            h[..8] == Ascii("LPKSHHRH") && At(h, 12, Le(if compact then 16 else 0, 4)) && At(h, 88, Le(200, 8)) &&
            At(h, 176, Le(arrayAt, 8)) && At(h, 192, Le(tail, 8))
  {
    hide Le, Ascii;
  }

  lemma {:induction false} ShownFall(compact: bool, m: nat)
    ensures Falling(Shown(compact, m)) && |Shown(compact, m)| == m + 1
    ensures forall i | 0 <= i < |Shown(compact, m)| ::
            0 < Shown(compact, m)[i].at <= m + 1 && !Shown(compact, m)[i].compressed
  {
    if m > 0 {
      ShownFall(compact, m - 1);
      assert Shown(compact, m)[1..] == Shown(compact, m - 1);
    }
  }

  lemma {:induction false} NoneTooOld(es: seq<Entry>)
    requires forall i | 0 <= i < |es| :: es[i].at > 0
    ensures UpTo(es, 0) == es
  {
    if es != [] {
      NoneTooOld(es[1..]);
    }
  }

  /** Only the last of them offers anything. */
  lemma {:induction false} OffersAre(rules: Rules, j: Journal, compact: bool, m: nat, n: nat)
    requires !rules.loginProgram([])
    ensures Present(First(Offers(rules, j, QUERY, Shown(compact, m)), n))
         == if n > m then [KeepEntry(j, LineEntry(compact))] else []
  {
    hide KeepEntry, Offer, LineEntry, Later, Offers, Present, First;
    PresentCons(None, []);
    OffersNone(rules, j, QUERY);
    if m == 0 {
      OffersCons(rules, j, QUERY, LineEntry(compact), []);
      OffersOne(rules, j, compact, 1);
      FirstCons(Some(KeepEntry(j, LineEntry(compact))), [], n);
      assert [Some(KeepEntry(j, LineEntry(compact)))] + [] == Offers(rules, j, QUERY, Shown(compact, 0));
      assert [Some(KeepEntry(j, LineEntry(compact)))] + [] == [Some(KeepEntry(j, LineEntry(compact)))];
      FirstNone<Option<Kept>>([], if n == 0 then 0 else n - 1);
      PresentCons(Some(KeepEntry(j, LineEntry(compact))), []);
    } else {
      OffersCons(rules, j, QUERY, Later(m), Shown(compact, m - 1));
      OffersOne(rules, j, compact, m);
      FirstCons(None, Offers(rules, j, QUERY, Shown(compact, m - 1)), n);
      if n > 0 {
        PresentCons(None, First(Offers(rules, j, QUERY, Shown(compact, m - 1)), n - 1));
        OffersAre(rules, j, compact, m - 1, n - 1);
      }
    }
  }

  lemma OffersOne(rules: Rules, j: Journal, compact: bool, m: nat)
    requires !rules.loginProgram([])
    ensures Offer(rules, j, QUERY, LineEntry(compact)) == Some(KeepEntry(j, LineEntry(compact))) &&
            Offer(rules, j, QUERY, Later(m)) == None
  {
  }

  lemma {:induction false} NothingCompressed(rules: Rules, j: Journal, q: Query, es: seq<Entry>, g: Gathered)
    requires forall i | 0 <= i < |es| :: !es[i].compressed
    ensures Feed(q.since, Gatherer(rules, j, q), g, es).1.compressed == g.compressed
  {
    hide KeepEntry, Wanted;
    if es != [] && es[0].at >= q.since && Gather(rules, j, q, g, es[0]).1 {
      NothingCompressed(rules, j, q, es[1..], Gather(rules, j, q, g, es[0]).0);
    }
  }

  /** What is in the file, for whoever asks. */
  lemma BusyHolds(rules: Rules, compact: bool, n: nat)
    requires n < MANY && !rules.loginProgram([])
    ensures var j := Busy(compact, n);
            Entries(j) == Shown(compact, n) && TimeOrdered(j) &&
              EligibleIn(rules, [j], QUERY) == [KeepEntry(j, LineEntry(compact))] &&
            AllOffers(rules, [j], QUERY) == Offers(rules, j, QUERY, Shown(compact, n))
  {
    hide BusyFile, KeepEntry, Offers, Present, Shown, Offsets, Falling;
    var j := Busy(compact, n);
    NewestAre(compact, n);
    EntriesAre(compact, n, n);
    ShownFall(compact, n);
    NoneTooOld(Shown(compact, n));
    OffersStep(rules, [j], QUERY);
    OffersAre(rules, j, compact, n, n + 1);
    OffersFirst(rules, j, QUERY, Shown(compact, n), 0);
    var offers := Offers(rules, j, QUERY, Shown(compact, n));
    assert First(offers, n + 1) == offers;
    assert [j][1..] == [];
    assert offers + [] == offers && Present(offers) + [] == Present(offers);
  }

  lemma BusyKeeps(rules: Rules, compact: bool, n: nat)
    requires n < MANY && !rules.loginProgram([])
    ensures GatherFiles(rules, [Busy(compact, n)], QUERY, 0, Gathered([], 0)).0.kept
         == if n < MAX_SCAN then [KeepEntry(Busy(compact, n), LineEntry(compact))] else []
  {
    hide Busy, KeepEntry, Offers, Present, Shown, GatherFiles, AllOffers, First, TimeOrdered, EligibleIn, Entries;
    BusyHolds(rules, compact, n);
    PicksNewest(rules, [Busy(compact, n)], QUERY);
    OffersAre(rules, Busy(compact, n), compact, n, MAX_SCAN);
    Full([KeepEntry(Busy(compact, n), LineEntry(compact))], []);
    Full([], []);
  }

  lemma BusyHidesNothing(rules: Rules, compact: bool, n: nat)
    requires n < MANY && !rules.loginProgram([])
    ensures GatherFiles(rules, [Busy(compact, n)], QUERY, 0, Gathered([], 0)).0.compressed == 0
  {
    hide BusyFile, GatherFiles, GatherFile, Entries, Feed, Gatherer, Shown, TimeOrdered, EligibleIn, AllOffers, Offers;
    var j, start := Busy(compact, n), Gathered([], 0);
    BusyHolds(rules, compact, n);
    GatherStep(rules, [j], QUERY, 0, start);
    assert [j][1..] == [];
    OneFile(rules, j, start);
    ShownFall(compact, n);
    NothingCompressed(rules, j, QUERY, First(Shown(compact, n), MAX_SCAN), start);
    var (scanned, g) := GatherFile(rules, j, QUERY, 0, start);
    GatherStep(rules, [], QUERY, scanned, g);
  }

  lemma OneFile(rules: Rules, j: GoodJournal, g: Gathered)
    ensures GatherFile(rules, j, QUERY, 0, g) == Feed(0, Gatherer(rules, j, QUERY), g, First(Entries(j), MAX_SCAN))
  {
    hide Feed, Gatherer, Walk, First, Entries;
    WalkFeeds(j, 0, MAX_SCAN, Gatherer(rules, j, QUERY), g);
  }

  /**
   The unit's line is there, in a well-formed file in time order, and it is found as long as fewer than MAX_SCAN entries
   of others came after it. From then on the answer is the one for a unit that wrote nothing: no line, nothing
   truncated, nothing withheld.
   */
  lemma ScanLimitMisleads(rules: Rules, compact: bool, n: nat, r: Snippet)
    requires n < MANY && !rules.loginUnit(UNIT) && !rules.loginProgram([])
    ensures var j := Busy(compact, n);
            Header(j.file).Some? && Header(j.file).value == j && TimeOrdered(j) &&
            EligibleIn(rules, [j], QUERY) == [KeepEntry(j, LineEntry(compact))]
    ensures Answers(rules, [Busy(compact, n)], QUERY, r) ==>
              if n < MAX_SCAN then r.lines != [] else r == Snippet([], 0, false, false)
  {
    hide BusyFile, KeepEntry, Offers, Present, Shown, GatherFiles, AllOffers, GatherFile, Entries, Answers,
      TimeOrdered, Header;
    HeaderReads(compact, n);
    BusyHolds(rules, compact, n);
    BusyKeeps(rules, compact, n);
    BusyHidesNothing(rules, compact, n);
    if Answers(rules, [Busy(compact, n)], QUERY, r) {
      NoLinesIff(rules, [Busy(compact, n)], QUERY, r);
    }
  }
}
