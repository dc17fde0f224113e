/**
 systemd's Journal File Format, as much of it as internal/journal/file.go reads, defined directly over the file's bytes:
 objects, the chain of entry arrays ("Entry Array Objects"), entries and their fields.
 */
module JournalFormat {
  import opened Options
  import opened Bytes
  import opened JournalBlocks

  const OBJECT_DATA: byte := 1
  const OBJECT_ENTRY: byte := 3
  const OBJECT_ENTRY_ARRAY: byte := 6
  const OBJECT_HEADER: nat := 16
  const MIN_HEADER: nat := 200
  const MAX_ARRAYS: nat := 4096
  const MAX_ITEMS: nat := 512
  const MAX_NAME: nat := 64
  const MAX_FIELD: nat := 256
  const MAX_MESSAGE: nat := 2048

  /** A journal file's bytes and what its header says. */
  datatype Journal = Journal(file: bytes, compact: bool, headerSize: int, entryArray: int, tail: int)

  predicate Readable(j: Journal) {
    MIN_HEADER <= j.headerSize <= |j.file|
  }

  type GoodJournal = j: Journal | Readable(j) witness Journal(seq(MIN_HEADER, _ => 0), false, MIN_HEADER, 0, 0)

  function Word64(file: bytes, off: nat): int
    requires off + 8 <= |file|
  {
    Signed(FromLe(file[off..off + 8]))
  }

  function Word32(file: bytes, off: nat): int
    requires off + 4 <= |file|
  {
    FromLe(file[off..off + 4])
  }

  /** The header, or nothing when this is not a journal file the reader understands. */
  function Header(file: bytes): (r: Option<Journal>)
    ensures r.Some? ==> Readable(r.value) && r.value.file == file
  {
    if |file| < MIN_HEADER || file[..8] != Ascii("LPKSHHRH") then None
    else
      var incompatible := FromLe(file[12..16]);
      if incompatible >= 32 then None  // a flag above the five this reader knows
      else
        var headerSize := Word64(file, 88);
        if headerSize < MIN_HEADER || headerSize > |file| then None
        else
          Some(Journal(file, (incompatible / 16) % 2 == 1, headerSize, Word64(file, 176), Word64(file, 192)))
  }

  /** An object of the wanted type wholly inside the file, past its header and aligned: its size and flags. */
  function ObjectAt(j: Journal, off: int, want: byte): (r: Option<(int, byte)>)
    requires Readable(j)
    ensures r.Some? ==> off >= j.headerSize && OBJECT_HEADER <= r.value.0 <= |j.file| - off
  {
    if off < j.headerSize || off % 8 != 0 || off + OBJECT_HEADER > |j.file| then None
    else if j.file[off] != want then None
    else
      var size := Word64(j.file, off + 8);
      if size < OBJECT_HEADER || size > |j.file| - off then None else Some((size, j.file[off + 1]))
  }

  // ---- entry arrays ---------------------------------------------------------------------------------------------

  /** An array item is an offset, 32 bits wide in the compact layout. */
  function ItemsLength(j: Journal, n: nat): nat {
    if j.compact then 4 * n else 8 * n
  }

  datatype EntryArray = EntryArray(off: nat, n: nat)

  /** The entry array at an offset, if there is one. */
  function ArrayAt(j: Journal, off: int): (r: Option<EntryArray>)
    requires Readable(j)
    ensures r.Some? ==> InFile(j, r.value) && r.value.off == off
  {
    var o := ObjectAt(j, off, OBJECT_ENTRY_ARRAY);
    if o.None? || o.value.0 < 24 then None
    else Some(EntryArray(off, if j.compact then (o.value.0 - 24) / 4 else (o.value.0 - 24) / 8))
  }

  /** Every item of the array is inside the file. */
  predicate InFile(j: Journal, a: EntryArray) {
    a.off + 24 + ItemsLength(j, a.n) <= |j.file|
  }

  /** The whole chain from an offset: each array names the next, which must be further on in the file. */
  function Chain(j: Journal, off: int): (r: seq<EntryArray>)
    requires Readable(j)
    ensures forall i | 0 <= i < |r| :: InFile(j, r[i]) && r[i].off >= off
    decreases |j.file| - off
  {
    if off == 0 || ArrayAt(j, off).None? then []
    else
      var next := Word64(j.file, off + 16);
      [ArrayAt(j, off).value] + if next <= off then [] else Chain(j, next)
  }

  predicate Increasing(c: seq<EntryArray>) {
    forall a, b | 0 <= a < b < |c| :: c[a].off < c[b].off
  }

  lemma IncreasingCons(x: EntryArray, c: seq<EntryArray>)
    requires Increasing(c) && forall i | 0 <= i < |c| :: x.off < c[i].off
    ensures Increasing([x] + c)
  {
  }

  /** Offsets strictly increase along the chain, so it cannot come back on itself. */
  lemma {:induction false} ChainIncreases(j: Journal, off: int)
    requires Readable(j)
    ensures Increasing(Chain(j, off))
    decreases |j.file| - off
  {
    if off != 0 && ArrayAt(j, off).Some? {
      var next := Word64(j.file, off + 16);
      if next > off {
        ChainIncreases(j, next);
        IncreasingCons(ArrayAt(j, off).value, Chain(j, next));
      }
    }
  }

  function Item(j: Journal, a: EntryArray, i: nat): int
    requires InFile(j, a) && i < a.n
  {
    if j.compact then Word32(j.file, a.off + 24 + 4 * i) else Word64(j.file, a.off + 24 + 8 * i)
  }

  /** The entry offsets an array holds, unused slots included. */
  function Items(j: Journal, a: EntryArray): seq<int>
    requires InFile(j, a)
  {
    seq(a.n, i requires 0 <= i < a.n => Item(j, a, i))
  }

  function Concat(j: Journal, arrays: seq<EntryArray>): seq<int>
    requires forall i | 0 <= i < |arrays| :: InFile(j, arrays[i])
  {
    if arrays == [] then [] else Items(j, arrays[0]) + Concat(j, arrays[1..])
  }

  function NonZero(s: seq<int>): seq<int> {
    if s == [] then [] else (if s[0] != 0 then [s[0]] else []) + NonZero(s[1..])
  }

  function Reverse(s: seq<int>): seq<int> {
    if s == [] then [] else Reverse(s[1..]) + [s[0]]
  }

  /** The arrays the reader looks at: the chain, up to a limit that only a damaged file reaches. */
  function Arrays(j: Journal): (r: seq<EntryArray>)
    requires Readable(j)
    ensures forall i | 0 <= i < |r| :: InFile(j, r[i])
    ensures r <= Chain(j, j.entryArray) && (|r| == |Chain(j, j.entryArray)| || |r| == 4096)
  {
    var c := Chain(j, j.entryArray);
    if |c| > MAX_ARRAYS then c[..MAX_ARRAYS] else c
  }

  /** Every entry offset in the file, newest first. */
  function NewestFirst(j: Journal): seq<int>
    requires Readable(j)
  {
    Reverse(NonZero(Concat(j, Arrays(j))))
  }

  /** Hands offsets to a visitor until it says stop. */
  function Visit<S>(step: (S, int) -> (S, bool), s: S, offs: seq<int>): S
    decreases |offs|
  {
    if offs == [] then s
    else
      var (next, more) := step(s, offs[0]);
      if more then Visit(step, next, offs[1..]) else next
  }

  // Newest first, a piece at a time.

  lemma {:induction false} NonZeroAppend(s: seq<int>, t: seq<int>)
    ensures NonZero(s + t) == NonZero(s) + NonZero(t)
  {
    if s == [] {
      assert s + t == t;
    } else {
      assert (s + t)[1..] == s[1..] + t;
      NonZeroAppend(s[1..], t);
    }
  }

  lemma {:induction false} ReverseAppend(s: seq<int>, t: seq<int>)
    ensures Reverse(s + t) == Reverse(t) + Reverse(s)
  {
    if s == [] {
      assert s + t == t;
      assert Reverse(t) + [] == Reverse(t);
    } else {
      assert (s + t)[1..] == s[1..] + t;
      ReverseAppend(s[1..], t);
    }
  }

  /** The offsets among these items, the last first. */
  function Backwards(s: seq<int>): seq<int> {
    Reverse(NonZero(s))
  }

  lemma BackwardsSnoc(s: seq<int>, x: int)
    ensures Backwards(s + [x]) == (if x != 0 then [x] else []) + Backwards(s)
  {
    NonZeroAppend(s, [x]);
    assert [x][1..] == [];
    ReverseAppend(NonZero(s), NonZero([x]));
    if x != 0 {
      assert NonZero([x]) == [x] && Reverse([x]) == [x];
    } else {
      assert NonZero([x]) == [] && Reverse([]) == [];
      assert [] + Backwards(s) == Backwards(s);
    }
  }

  lemma {:induction false} ConcatSnoc(j: Journal, arrays: seq<EntryArray>, a: EntryArray)
    requires InFile(j, a) && forall i | 0 <= i < |arrays| :: InFile(j, arrays[i])
    ensures Concat(j, arrays + [a]) == Concat(j, arrays) + Items(j, a)
  {
    hide Items, InFile;
    if arrays == [] {
      assert arrays + [a] == [a] && [a][1..] == [];
    } else {
      assert (arrays + [a])[1..] == arrays[1..] + [a];
      ConcatSnoc(j, arrays[1..], a);
    }
  }

  /** The reverse order loses and adds nothing: an offset is visited as often as it is stored, zeros excepted. */
  lemma {:induction false} BackwardsKeeps(s: seq<int>)
    ensures forall x | x != 0 :: multiset(Backwards(s))[x] == multiset(s)[x]
    ensures multiset(Backwards(s))[0] == 0
  {
    if s == [] {
    } else {
      var front, x := s[..|s| - 1], s[|s| - 1];
      assert s == front + [x];
      BackwardsSnoc(front, x);
      BackwardsKeeps(front);
    }
  }

  // ---- fields and entries ---------------------------------------------------------------------------------------

  datatype Kind = Other | UnitField | About | Priority | Message | Compressed | Facility | Identifier | Transport

  datatype Field = Field(kind: Kind, value: bytes, at: int, length: int)

  const OTHER := Field(Other, [], 0, 0)

  function IndexOf(s: bytes, b: byte): (r: int)
    ensures -1 <= r < |s|
  {
    if s == [] then -1
    else if s[0] == b then 0
    else
      var rest := IndexOf(s[1..], b);
      if rest < 0 then -1 else rest + 1
  }

  /** IndexOf is the first place, or there is none. */
  lemma {:induction false} NotBefore(s: bytes, b: byte)
    ensures var i := IndexOf(s, b);
            if i < 0 then b !in s else i < |s| && s[i] == b && b !in s[..i]
  {
    if s != [] && s[0] != b {
      NotBefore(s[1..], b);
      var i := IndexOf(s, b);
      if i >= 0 {
        assert s[..i] == [s[0]] + s[1..][..i - 1];
      }
    }
  }

  function KindOf(name: bytes): Kind {
    if name == Ascii("_SYSTEMD_UNIT") then UnitField
    else if name == Ascii("UNIT") then About
    else if name == Ascii("PRIORITY") then Priority
    else if name == Ascii("SYSLOG_FACILITY") then Facility
    else if name == Ascii("SYSLOG_IDENTIFIER") then Identifier
    else if name == Ascii("_TRANSPORT") then Transport
    else if name == Ascii("MESSAGE") then Message
    else Other
  }

  function PayloadAt(j: Journal): nat {
    if j.compact then 72 else 64
  }

  /** A data object, classified by its field name. */
  function FieldAt(j: Journal, off: int): Field
    requires Readable(j)
  {
    var o := ObjectAt(j, off, OBJECT_DATA);
    if o.None? || o.value.0 <= PayloadAt(j) then OTHER
    else if o.value.1 % 8 != 0 then OTHER.(kind := Compressed)
    else FieldIn(j, off + PayloadAt(j), o.value.0 - PayloadAt(j))
  }

  /** A payload `name=value` that starts and ends where it is told. */
  function FieldIn(j: Journal, start: nat, length: nat): Field
    requires start + length <= |j.file|
  {
    var head := j.file[start..start + Min(length, MAX_NAME + 1)];
    var eq := IndexOf(head, 61);
    if eq <= 0 then OTHER
    else
      var kind := KindOf(head[..eq]);
      var valueAt, valueLen := start + eq + 1, length - eq - 1;
      if kind == Message then Field(Message, [], valueAt, valueLen)
      else if kind == Other || valueLen > MAX_FIELD then OTHER
      else Field(kind, j.file[valueAt..valueAt + valueLen], 0, 0)
  }

  datatype Entry = Entry(at: int, unit: bytes, priority: int, facility: int, identifier: bytes, transport: bytes,
                         message: int, messageLen: int, compressed: bool)

  /** An entry being put together: `unit` is what _SYSTEMD_UNIT said, `about` what UNIT said. */
  datatype Draft = Draft(entry: Entry, about: bytes)

  /** A number from 0 to most as strconv.Atoi reads it, an optional sign and digits; -1 for anything else. */
  function Small(v: bytes, most: int): int {
    if v == [] then -1
    else
      var signed := v[0] == 43 || v[0] == 45;
      var digits := if signed then v[1..] else v;
      if digits == [] || !AllDigits(digits) then -1
      else
        var n := Decimal(digits, 0);
        if v[0] == 45 && n > 0 then -1 else if n <= most then n else -1
  }

  predicate AllDigits(v: bytes) {
    forall i | 0 <= i < |v| :: 48 <= v[i] <= 57
  }

  function Decimal(v: bytes, acc: nat): nat
    requires AllDigits(v)
  {
    if v == [] then acc else Decimal(v[1..], 10 * acc + (v[0] - 48))
  }

  function Take(d: Draft, f: Field): Draft {
    match f.kind
    case Other => d
    case UnitField => d.(entry := d.entry.(unit := f.value))
    case About => d.(about := f.value)
    case Priority => if Small(f.value, 7) >= 0 then d.(entry := d.entry.(priority := Small(f.value, 7))) else d
    case Facility => if Small(f.value, 23) >= 0 then d.(entry := d.entry.(facility := Small(f.value, 23))) else d
    case Identifier => d.(entry := d.entry.(identifier := f.value))
    case Transport => d.(entry := d.entry.(transport := f.value))
    case Message => d.(entry := d.entry.(message := f.at, messageLen := f.length))
    case Compressed => d.(entry := d.entry.(compressed := true))
  }

  /** An entry's items follow its 64-byte header: an offset each, and a hash in the wide layout. */
  function EntryItemsLength(j: Journal, n: nat): nat {
    if j.compact then 4 * n else 16 * n
  }

  function EntryItem(j: Journal, off: nat, i: nat): int
    requires off + 64 + EntryItemsLength(j, i + 1) <= |j.file|
  {
    if j.compact then Word32(j.file, off + 64 + 4 * i) else Word64(j.file, off + 64 + 16 * i)
  }

  function TakeItems(j: Journal, off: nat, i: nat, n: nat, d: Draft): Draft
    requires Readable(j) && i <= n && off + 64 + EntryItemsLength(j, n) <= |j.file|
    decreases n - i
  {
    if i == n then d
    else TakeItems(j, off, i + 1, n, Take(d, FieldAt(j, EntryItem(j, off, i))))
  }

  const INIT_SCOPE: bytes := Ascii("init.scope")

  function Finish(d: Draft): Entry {
    var unit := if d.about != [] && (d.entry.unit == [] || d.entry.unit == INIT_SCOPE) then d.about else d.entry.unit;
    d.entry.(unit := unit, compressed := d.entry.compressed && d.entry.message == 0)
  }

  function Blank(at: int): Draft {
    Draft(Entry(at, [], -1, -1, [], [], 0, 0, false), [])
  }

  function EntryItems(j: Journal, size: int): (n: nat)
    requires size >= 64
    ensures n <= 512 && EntryItemsLength(j, n) <= size - 64
    ensures n < 512 ==> EntryItemsLength(j, n + 1) > size - 64
  {
    Min(if j.compact then (size - 64) / 4 else (size - 64) / 16, MAX_ITEMS)
  }

  /** The entry at an offset, if it can be read. */
  function EntryAt(j: Journal, off: int): Option<Entry>
    requires Readable(j)
  {
    var o := ObjectAt(j, off, OBJECT_ENTRY);
    if o.None? || o.value.0 < 64 then None
    else Some(Finish(TakeItems(j, off, 0, EntryItems(j, o.value.0), Blank(Word64(j.file, off + 24)))))
  }

  /** An entry's message, up to MAX_MESSAGE bytes, and whether it was cut there. */
  function MessageOf(j: Journal, e: Entry): (bytes, bool) {
    if e.message == 0 then ([], false)
    else
      var n := if e.messageLen < MAX_MESSAGE then e.messageLen else MAX_MESSAGE;
      match Direct(j.file, e.message, n)
      case None => ([], false)
      case Some(b) => (b, e.messageLen > n)
  }
}
