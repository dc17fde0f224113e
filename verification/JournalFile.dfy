/**
 internal/journal/file.go as it runs: one open file read through the block cache, with its field memo. Every method is
 proved to give what JournalFormat says of the bytes, whatever was read before.
 */
module JournalFile {
  import opened Options
  import opened Bytes
  import opened JournalBlocks
  import opened JournalFormat

  const MEMO: nat := 16384
  const CHUNK: nat := 4096

  /** Slices of slices. */
  lemma Within(file: bytes, a: nat, b: nat, c: nat, d: nat)
    requires a <= b <= |file| && c <= d <= b - a
    ensures file[a..b][c..d] == file[a + c..a + d]
  {
    var x, y := file[a..b][c..d], file[a + c..a + d];
    assert |x| == |y|;
    forall i | 0 <= i < |x| ensures x[i] == y[i] {
      assert x[i] == file[a..b][c + i];
    }
  }

  class File {
    const journal: GoodJournal
    const reader: BlockReader
    var fields: map<int, Field>
    var entriesScanned: nat

    /** The memo only ever holds what reading the object again would give. */
    ghost predicate Valid()
      reads this, reader
    {
      reader.file == journal.file && reader.Valid() &&
      |fields| <= MEMO && forall off | off in fields :: fields[off] == FieldAt(journal, off)
    }

    constructor (j: GoodJournal)
      ensures Valid() && journal == j && fresh(reader) && entriesScanned == 0
    {
      journal := j;
      reader := new BlockReader(j.file);
      fields, entriesScanned := map[], 0;
    }

    method Object(off: int, want: byte) returns (r: Option<(int, byte)>)
      requires Valid()
      modifies reader
      ensures Valid() && r == ObjectAt(journal, off, want)
    {
      if off < journal.headerSize || off % 8 != 0 || off + OBJECT_HEADER > |journal.file| {
        return None;
      }
      var b := reader.Read(off, OBJECT_HEADER);
      var head := b.value;
      if head[0] != want {
        return None;
      }
      Within(journal.file, off, off + OBJECT_HEADER, 8, 16);
      var size := Signed(FromLe(head[8..16]));
      if size < OBJECT_HEADER || size > |journal.file| - off {
        return None;
      }
      r := Some((size, head[1]));
    }

    /** The chain of entry arrays, oldest first. */
    method ListArrays() returns (out: seq<EntryArray>)
      requires Valid()
      modifies reader
      ensures Valid() && out == Arrays(journal)
    {
      hide ObjectAt, Word64, InFile, ArrayAt, Chain;
      out := [];
      var off := journal.entryArray;
      var i := 0;
      ghost var whole := Chain(journal, off);
      while off != 0 && i < MAX_ARRAYS
        invariant i == |out| <= MAX_ARRAYS
        invariant Valid()
        invariant whole == out + Chain(journal, off)
        decreases MAX_ARRAYS - i
      {
        ChainStep(journal, off);
        var a := NextArray(off);
        if a.None? {
          break;
        }
        var next := Word(off + 16);
        out := out + [a.value];
        i := i + 1;
        if next <= off {
          off := 0;
          break;
        }
        off := next;
      }
      ChainStep(journal, off);
      assert out + [] == out && (out + Chain(journal, off))[..|out|] == out;
      assert out == if |whole| > MAX_ARRAYS then whole[..MAX_ARRAYS] else whole;
    }

    method Word(off: nat) returns (n: int)
      requires Valid() && off + 8 <= |journal.file|
      modifies reader
      ensures Valid() && n == Word64(journal.file, off)
    {
      var b := reader.Read(off, 8);
      n := Signed(FromLe(b.value));
    }

    method NextArray(off: int) returns (r: Option<EntryArray>)
      requires Valid()
      modifies reader
      ensures Valid() && r == ArrayAt(journal, off)
      ensures r.Some? ==> off + 24 <= |journal.file|
    {
      var o := Object(off, OBJECT_ENTRY_ARRAY);
      if o.None? || o.value.0 < 24 {
        return None;
      }
      r := Some(EntryArray(off, if journal.compact then (o.value.0 - 24) / 4 else (o.value.0 - 24) / 8));
    }

    /**
     Calls the visitor with each entry offset, newest first, until it returns false; a chunk of items at a time.
     */
    method EachEntry<S>(step: (S, int) -> (S, bool), s0: S) returns (s: S)
      requires Valid()
      modifies reader
      ensures Valid() && s == Visit(step, s0, NewestFirst(journal))
    {
      hide Visit, Items, Backwards, Concat, Arrays, InFile;
      var arrays := ListArrays();
      s := s0;
      var ai := |arrays|;
      assert arrays[..ai] == arrays;
      assert NewestFirst(journal) == Backwards(Concat(journal, arrays)) by { NewestIsBackwards(journal); }
      while ai > 0
        invariant 0 <= ai <= |arrays| && Valid()
        invariant forall i | 0 <= i < |arrays| :: InFile(journal, arrays[i])
        invariant Visit(step, s0, NewestFirst(journal)) == Visit(step, s, Backwards(Concat(journal, arrays[..ai])))
      {
        ai := ai - 1;
        var a := arrays[ai];
        ghost var older := Concat(journal, arrays[..ai]);
        ghost var items := Items(journal, a);
        assert arrays[..ai + 1] == arrays[..ai] + [a];
        ConcatSnoc(journal, arrays[..ai], a);
        ItemsCount(journal, a);
        assert items[..a.n] == items;
        var hi := a.n;
        while hi > 0
          invariant 0 <= hi <= a.n && Valid() && |items| == a.n
          invariant Visit(step, s0, NewestFirst(journal)) == Visit(step, s, Backwards(older + items[..hi]))
        {
          var lo := if hi > CHUNK then hi - CHUNK else 0;
          var stopped;
          s, stopped := VisitChunk(step, s, a, lo, hi, older);
          if stopped {
            return;
          }
          hi := lo;
        }
        assert older + items[..0] == older;
      }
      assert arrays[..0] == [];
      NothingLeft(journal, step, s);
    }

    /** One chunk of an array's items, read at once. */
    method VisitChunk<S>(step: (S, int) -> (S, bool), s0: S, a: EntryArray, lo: nat, hi: nat, ghost older: seq<int>)
      returns (s: S, stopped: bool)
      requires Valid() && InFile(journal, a) && lo <= hi <= a.n && hi - lo <= CHUNK
      modifies reader
      ensures Valid() && |Items(journal, a)| == a.n
      ensures Visit(step, s0, Backwards(older + Items(journal, a)[..hi]))
           == if stopped then s else Visit(step, s, Backwards(older + Items(journal, a)[..lo]))
    {
      hide Visit, Backwards, Items, IsChunk, InFile;
      ghost var items := Items(journal, a);
      ItemsCount(journal, a);
      s, stopped := s0, false;
      var b := ReadChunk(a, lo, hi);
      var i := hi;
      while i > lo
        invariant lo <= i <= hi && Valid() && !stopped
        invariant Visit(step, s0, Backwards(older + items[..hi])) == Visit(step, s, Backwards(older + items[..i]))
      {
        i := i - 1;
        ChunkItem(journal, a, lo, hi, i, b);
        var e := if journal.compact then FromLe(b[(i - lo) * 4..(i - lo) * 4 + 4])
                 else Signed(FromLe(b[(i - lo) * 8..(i - lo) * 8 + 8]));
        VisitItem(step, s, older, items, i, e);
        if e != 0 {
          var (next, more) := step(s, e);
          s := next;
          if !more {
            stopped := true;
            return;
          }
        }
      }
    }

    method ReadChunk(a: EntryArray, lo: nat, hi: nat) returns (b: bytes)
      requires Valid() && InFile(journal, a) && lo <= hi <= a.n && hi - lo <= CHUNK
      modifies reader
      ensures Valid() && IsChunk(journal, a, lo, hi, b)
    {
      if journal.compact {
        var r := reader.Read(a.off + 24 + lo * 4, (hi - lo) * 4);
        b := r.value;
      } else {
        var r := reader.Read(a.off + 24 + lo * 8, (hi - lo) * 8);
        b := r.value;
      }
    }

    /** One data object, classified; the answer is remembered, and the memo is emptied when it is full. */
    method Data(off: int) returns (fd: Field)
      requires Valid()
      modifies this`fields, reader
      ensures Valid() && fd == FieldAt(journal, off)
    {
      hide FieldAt;
      if off in fields {
        return fields[off];
      }
      fd := ReadData(off);
      if |fields| >= MEMO {
        fields := map[];
      }
      fields := fields[off := fd];
    }

    method ReadData(off: int) returns (fd: Field)
      requires Valid()
      modifies reader
      ensures Valid() && fd == FieldAt(journal, off)
    {
      hide ObjectAt, FieldIn;
      var o := Object(off, OBJECT_DATA);
      if o.None? || o.value.0 <= PayloadAt(journal) {
        return OTHER;
      }
      if o.value.1 % 8 != 0 {
        return OTHER.(kind := Compressed);
      }
      fd := ReadPayload(off + PayloadAt(journal), o.value.0 - PayloadAt(journal));
    }

    method ReadPayload(start: nat, length: nat) returns (fd: Field)
      requires Valid() && start + length <= |journal.file|
      modifies reader
      ensures Valid() && fd == FieldIn(journal, start, length)
    {
      hide KindOf, IndexOf, FieldAt;
      var h := reader.Read(start, Min(length, MAX_NAME + 1));
      var head := h.value;
      var eq := FindByte(head, 61);
      if eq <= 0 {
        return OTHER;
      }
      var kind := KindOf(head[..eq]);
      var valueAt, valueLen := start + eq + 1, length - eq - 1;
      if kind == Message {
        return Field(Message, [], valueAt, valueLen);
      }
      if kind == Other || valueLen > MAX_FIELD {
        return OTHER;
      }
      var v := reader.Read(valueAt, valueLen);
      fd := Field(kind, v.value, 0, 0);
    }

    /** One entry and the fields this reader looks at. */
    method ReadEntry(off: int) returns (r: Option<Entry>)
      requires Valid()
      modifies this`fields, reader
      ensures Valid() && r == EntryAt(journal, off)
    {
      hide ObjectAt, FieldAt, TakeItems, FromLe, Finish;
      var o := Object(off, OBJECT_ENTRY);
      if o.None? || o.value.0 < 64 {
        return None;
      }
      var b := reader.Read(off, 64);
      Within(journal.file, off, off + 64, 24, 32);
      var at := Signed(FromLe(b.value[24..32]));
      var n := EntryItems(journal, o.value.0);
      var draft := ReadItems(off, n, Blank(at));
      r := Some(Finish(draft));
    }

    method ReadItems(off: nat, n: nat, blank: Draft) returns (draft: Draft)
      requires Valid() && n <= MAX_ITEMS && off + 64 + EntryItemsLength(journal, n) <= |journal.file|
      modifies this`fields, reader
      ensures Valid() && draft == TakeItems(journal, off, 0, n, blank)
    {
      hide FieldAt, Take, FromLe, EntryItem;
      var items := reader.Read(off + 64, EntryItemsLength(journal, n));
      draft := blank;
      var i := 0;
      while i < n
        invariant 0 <= i <= n && Valid()
        invariant TakeItems(journal, off, 0, n, blank) == TakeItems(journal, off, i, n, draft)
      {
        EntryItemIs(journal, off, n, i, items.value);
        var d := if journal.compact then FromLe(items.value[i * 4..i * 4 + 4])
                 else Signed(FromLe(items.value[i * 16..i * 16 + 8]));
        var fd := Data(d);
        draft := Take(draft, fd);
        i := i + 1;
      }
    }

    /**
     Calls fn with each entry, newest first, until fn returns false, an entry is older than `since`, or `limit` entries
     have been read. Entries are read as the walk comes to them, through the memo and the same block cache as the items.
     */
    method Backward<T>(since: int, limit: nat, fn: (T, Entry) -> (T, bool), t0: T) returns (t: T)
      requires Valid()
      modifies this`entriesScanned, this`fields, reader
      ensures Valid() && (entriesScanned, t) == Walk(journal, since, limit, fn, old(entriesScanned), t0)
    {
      hide Visit, Items, Backwards, Concat, Arrays, InFile, Stepper;
      var arrays := ListArrays();
      ghost var step := Stepper(journal, since, limit, fn);
      ghost var s0 := (entriesScanned, t0);
      t := t0;
      var ai := |arrays|;
      assert arrays[..ai] == arrays;
      assert NewestFirst(journal) == Backwards(Concat(journal, arrays)) by { NewestIsBackwards(journal); }
      while ai > 0
        invariant 0 <= ai <= |arrays| && Valid()
        invariant forall i | 0 <= i < |arrays| :: InFile(journal, arrays[i])
        invariant Visit(step, s0, NewestFirst(journal))
                  == Visit(step, (entriesScanned, t), Backwards(Concat(journal, arrays[..ai])))
      {
        ai := ai - 1;
        var a := arrays[ai];
        ghost var older := Concat(journal, arrays[..ai]);
        assert arrays[..ai + 1] == arrays[..ai] + [a];
        ConcatSnoc(journal, arrays[..ai], a);
        ItemsCount(journal, a);
        assert Items(journal, a)[..a.n] == Items(journal, a);
        var hi := a.n;
        while hi > 0
          invariant 0 <= hi <= a.n && Valid() && |Items(journal, a)| == a.n
          invariant Visit(step, s0, NewestFirst(journal))
                 == Visit(step, (entriesScanned, t), Backwards(older + Items(journal, a)[..hi]))
        {
          var lo := if hi > CHUNK then hi - CHUNK else 0;
          var stopped;
          t, stopped := BackwardChunk(since, limit, fn, t, a, lo, hi, older);
          if stopped {
            return;
          }
          hi := lo;
        }
        assert older + Items(journal, a)[..0] == older;
      }
      assert arrays[..0] == [];
      NothingLeft(journal, step, (entriesScanned, t));
    }

    /** One chunk of an array's items, and the entries they lead to. */
    method BackwardChunk<T>(since: int, limit: nat, fn: (T, Entry) -> (T, bool), t0: T, a: EntryArray, lo: nat, hi: nat,
                            ghost older: seq<int>)
      returns (t: T, stopped: bool)
      requires Valid() && InFile(journal, a) && lo <= hi <= a.n && hi - lo <= CHUNK
      modifies this`entriesScanned, this`fields, reader
      ensures Valid() && |Items(journal, a)| == a.n
      ensures var step, s := Stepper(journal, since, limit, fn), (entriesScanned, t);
              Visit(step, (old(entriesScanned), t0), Backwards(older + Items(journal, a)[..hi]))
                == if stopped then s else Visit(step, s, Backwards(older + Items(journal, a)[..lo]))
    {
      hide Visit, Backwards, Items, IsChunk, InFile, Stepper;
      ghost var items, step := Items(journal, a), Stepper(journal, since, limit, fn);
      ghost var s0 := (entriesScanned, t0);
      ItemsCount(journal, a);
      t, stopped := t0, false;
      var b := ReadChunk(a, lo, hi);
      var i := hi;
      while i > lo
        invariant lo <= i <= hi && Valid() && !stopped
        invariant Visit(step, s0, Backwards(older + items[..hi]))
                  == Visit(step, (entriesScanned, t), Backwards(older + items[..i]))
      {
        i := i - 1;
        ChunkItem(journal, a, lo, hi, i, b);
        var e := if journal.compact then FromLe(b[(i - lo) * 4..(i - lo) * 4 + 4])
                 else Signed(FromLe(b[(i - lo) * 8..(i - lo) * 8 + 8]));
        VisitItem(step, (entriesScanned, t), older, items, i, e);
        if e != 0 {
          var more;
          t, more := BackwardItem(since, limit, fn, t, e);
          if !more {
            stopped := true;
            return;
          }
        }
      }
    }

    /** One entry of the walk: read, counted, and handed to the caller. */
    method BackwardItem<T>(since: int, limit: nat, fn: (T, Entry) -> (T, bool), t0: T, off: int)
      returns (t: T, more: bool)
      requires Valid()
      modifies this`entriesScanned, this`fields, reader
      ensures Valid() &&
              ((entriesScanned, t), more) == Stepper(journal, since, limit, fn)((old(entriesScanned), t0), off)
    {
      hide EntryAt;
      t := t0;
      if entriesScanned >= limit {
        return t, false;
      }
      var e := ReadEntry(off);
      if e.None? {
        return t, true;
      }
      entriesScanned := entriesScanned + 1;
      if e.value.at < since {
        return t, false;
      }
      var r := fn(t, e.value);
      t, more := r.0, r.1;
    }

    method ReadMessage(e: Entry) returns (text: bytes, cut: bool)
      requires Valid()
      modifies reader
      ensures Valid() && (text, cut) == MessageOf(journal, e)
    {
      if e.message == 0 {
        return [], false;
      }
      var n := if e.messageLen < MAX_MESSAGE then e.messageLen else MAX_MESSAGE;
      var b := reader.Read(e.message, n);
      if b.None? {
        return [], false;
      }
      return b.value, e.messageLen > n;
    }
  }

  /** Reads a file's header; nothing when it is not a journal this reader understands. */
  method OpenJournal(file: bytes) returns (r: Option<Journal>)
    ensures r == Header(file)
  {
    hide Ascii, FromLe;
    var reader := new BlockReader(file);
    var b := reader.Read(0, MIN_HEADER);
    if b.None? {
      return None;
    }
    var h := b.value;
    assert h == file[0..MIN_HEADER];
    Within(file, 0, MIN_HEADER, 0, 8);
    Within(file, 0, MIN_HEADER, 12, 16);
    Within(file, 0, MIN_HEADER, 88, 96);
    Within(file, 0, MIN_HEADER, 176, 184);
    Within(file, 0, MIN_HEADER, 192, 200);
    assert h[..8] == h[0..8] && file[..8] == file[0..8];
    if h[..8] != Ascii("LPKSHHRH") {
      return None;
    }
    var incompatible := FromLe(h[12..16]);
    if incompatible >= 32 {
      return None;
    }
    var headerSize := Signed(FromLe(h[88..96]));
    if headerSize < MIN_HEADER || headerSize > |file| {
      return None;
    }
    r := Some(Journal(file, (incompatible / 16) % 2 == 1, headerSize,
                      Signed(FromLe(h[176..184])), Signed(FromLe(h[192..200]))));
  }

  method FindByte(s: bytes, b: byte) returns (r: int)
    ensures r == IndexOf(s, b)
  {
    var i := 0;
    while i < |s|
      invariant 0 <= i <= |s|
      invariant IndexOf(s, b) == if IndexOf(s[i..], b) < 0 then -1 else i + IndexOf(s[i..], b)
    {
      assert s[i..][1..] == s[i + 1..];
      if s[i] == b {
        assert s[i..][0] == b && IndexOf(s[i..], b) == 0;
        return i;
      }
      i := i + 1;
    }
    assert s[i..] == [];
    return -1;
  }

  lemma EntryItemIs(j: Journal, off: nat, n: nat, i: nat, items: bytes)
    requires i < n && off + 64 + EntryItemsLength(j, n) <= |j.file|
    requires items == j.file[off + 64..off + 64 + EntryItemsLength(j, n)]
    ensures j.compact ==> i * 4 + 4 <= |items| && FromLe(items[i * 4..i * 4 + 4]) == EntryItem(j, off, i)
    ensures !j.compact ==> i * 16 + 8 <= |items| && Signed(FromLe(items[i * 16..i * 16 + 8])) == EntryItem(j, off, i)
  {
    hide FromLe;
    var base := off + 64;
    if j.compact {
      Within(j.file, base, base + 4 * n, i * 4, i * 4 + 4);
    } else {
      Within(j.file, base, base + 16 * n, i * 16, i * 16 + 8);
    }
  }

  predicate IsChunk(j: Journal, a: EntryArray, lo: nat, hi: nat, b: bytes)
    requires InFile(j, a) && lo <= hi <= a.n
  {
    b == if j.compact then j.file[a.off + 24 + lo * 4..a.off + 24 + hi * 4]
         else j.file[a.off + 24 + lo * 8..a.off + 24 + hi * 8]
  }

  lemma ChunkItem(j: Journal, a: EntryArray, lo: nat, hi: nat, i: nat, b: bytes)
    requires InFile(j, a) && lo <= i < hi <= a.n && IsChunk(j, a, lo, hi, b)
    ensures |Items(j, a)| == a.n
    ensures j.compact ==> |b| == (hi - lo) * 4 && FromLe(b[(i - lo) * 4..(i - lo) * 4 + 4]) == Items(j, a)[i]
    ensures !j.compact ==> |b| == (hi - lo) * 8 && Signed(FromLe(b[(i - lo) * 8..(i - lo) * 8 + 8])) == Items(j, a)[i]
  {
    hide Items, FromLe;
    var base := a.off + 24;
    if j.compact {
      Within(j.file, base + lo * 4, base + hi * 4, (i - lo) * 4, (i - lo) * 4 + 4);
      assert base + lo * 4 + (i - lo) * 4 == base + 4 * i;
      ItemIs(j, a, i);
    } else {
      Within(j.file, base + lo * 8, base + hi * 8, (i - lo) * 8, (i - lo) * 8 + 8);
      assert base + lo * 8 + (i - lo) * 8 == base + 8 * i;
      ItemIs(j, a, i);
    }
  }

  lemma ItemIs(j: Journal, a: EntryArray, i: nat)
    requires InFile(j, a) && i < a.n
    ensures |Items(j, a)| == a.n && Items(j, a)[i] == Item(j, a, i)
  {
  }

  lemma ItemsCount(j: Journal, a: EntryArray)
    requires InFile(j, a)
    ensures |Items(j, a)| == a.n
  {
  }

  lemma NewestIsBackwards(j: GoodJournal)
    ensures NewestFirst(j) == Backwards(Concat(j, Arrays(j)))
  {
  }

  lemma NothingLeft<S>(j: Journal, step: (S, int) -> (S, bool), s: S)
    ensures Visit(step, s, Backwards(Concat(j, []))) == s
  {
  }

  lemma VisitItem<S>(step: (S, int) -> (S, bool), s: S, older: seq<int>, items: seq<int>, i: nat, e: int)
    requires i < |items| && items[i] == e
    ensures Visit(step, s, Backwards(older + items[..i + 1]))
         == if e == 0 then Visit(step, s, Backwards(older + items[..i]))
            else if step(s, e).1 then Visit(step, step(s, e).0, Backwards(older + items[..i])) else step(s, e).0
  {
    hide Visit, Backwards;
    assert older + items[..i + 1] == older + items[..i] + [e];
    BackwardsSnoc(older + items[..i], e);
    VisitStep(step, s, e, Backwards(older + items[..i]));
  }

  lemma VisitStep<S>(step: (S, int) -> (S, bool), s: S, e: int, rest: seq<int>)
    ensures Visit(step, s, (if e != 0 then [e] else []) + rest)
         == if e == 0 then Visit(step, s, rest)
            else if step(s, e).1 then Visit(step, step(s, e).0, rest) else step(s, e).0
  {
    if e == 0 {
      assert [] + rest == rest;
    } else {
      assert ([e] + rest)[1..] == rest;
    }
  }

  /** What one offset does to a backward walk: its count of entries read, and what the caller has gathered. */
  function BackStep<T>(j: GoodJournal, since: int, limit: nat, fn: (T, Entry) -> (T, bool), st: (nat, T), off: int)
    : ((nat, T), bool)
  {
    if st.0 >= limit then (st, false)
    else
      match EntryAt(j, off)
      case None => (st, true)
      case Some(e) =>
        if e.at < since then ((st.0 + 1, st.1), false)
        else
          var (t, more) := fn(st.1, e);
          ((st.0 + 1, t), more)
  }

  function Stepper<T>(j: GoodJournal, since: int, limit: nat, fn: (T, Entry) -> (T, bool))
    : ((nat, T), int) -> ((nat, T), bool)
  {
    (st, off) => BackStep(j, since, limit, fn, st, off)
  }

  /** A backward walk over the whole file. */
  function Walk<T>(j: GoodJournal, since: int, limit: nat, fn: (T, Entry) -> (T, bool), scanned: nat, t: T): (nat, T) {
    Visit(Stepper(j, since, limit, fn), (scanned, t), NewestFirst(j))
  }

  lemma ChainStep(j: Journal, off: int)
    requires Readable(j)
    ensures off == 0 || ArrayAt(j, off).None? ==> Chain(j, off) == []
    ensures off != 0 && ArrayAt(j, off).Some? ==>
              off + 24 <= |j.file| &&
              Chain(j, off) == [ArrayAt(j, off).value] + if Word64(j.file, off + 16) <= off then []
                                                         else Chain(j, Word64(j.file, off + 16))
    ensures Chain(j, 0) == []
  {
  }
}
