/**
 internal/dbus/wire.go as functions: what each read of the decoder does to its cursor, and the signature-directed
 `skip` with its bracket-counting companion `afterOne`. The class Decoder runs them on a mutable cursor.
 */
module DBusWire {
  import opened Bytes
  import opened DBusTypes

  /** A decoder's mutable part: where it is, and whether a read has failed. */
  datatype Cursor = Cursor(pos: nat, failed: bool)

  function Fail(c: Cursor): Cursor {
    c.(failed := true)
  }

  function PadTo(buf: bytes, c: Cursor, boundary: nat): Cursor
    requires boundary > 0
  {
    var next := Align(c.pos, boundary);
    if next > |buf| then Fail(c) else c.(pos := next)
  }

  /** Takes n bytes, or fails. */
  function Take(buf: bytes, c: Cursor, n: nat): (r: (bytes, Cursor))
    ensures r.1.failed || |r.0| == n
  {
    if !c.failed && c.pos + n <= |buf| then (buf[c.pos..c.pos + n], c.(pos := c.pos + n)) else ([], Fail(c))
  }

  /** A read that took something: the cursor is further on, inside the buffer, unless it failed. */
  predicate Advanced(buf: bytes, c: Cursor, d: Cursor) {
    d.failed || (!c.failed && c.pos < d.pos <= |buf|)
  }

  function ReadByte(buf: bytes, c: Cursor): (r: (byte, Cursor))
    ensures Advanced(buf, c, r.1)
  {
    var (b, d) := Take(buf, c, 1);
    (if d.failed then 0 else b[0], d)
  }

  /** uint32 (width 4) and uint64 (width 8). */
  function ReadWord(buf: bytes, c: Cursor, width: nat): (r: (nat, Cursor))
    requires width > 0
    ensures Advanced(buf, c, r.1)
  {
    var (b, d) := Take(buf, PadTo(buf, c, width), width);
    (if d.failed then 0 else FromLe(b), d)
  }

  function Counted(buf: bytes, n: nat, c: Cursor): (r: (bytes, Cursor))
    ensures Advanced(buf, c, r.1)
  {
    var (b, d) := Take(buf, c, n + 1);
    (if d.failed then [] else b[..n], d)
  }

  function ReadText(buf: bytes, c: Cursor): (r: (bytes, Cursor))
    ensures Advanced(buf, c, r.1)
  {
    var (n, d) := ReadWord(buf, c, 4);
    Counted(buf, n, d)
  }

  function ReadSig(buf: bytes, c: Cursor): (r: (bytes, Cursor))
    ensures Advanced(buf, c, r.1)
  {
    var (n, d) := ReadByte(buf, c);
    Counted(buf, n, d)
  }

  /** The signature after the bracket that closes the one open at depth > 0; empty when nothing closes it. */
  function AfterClose(sig: bytes, i: nat, depth: int, closing: byte): (r: bytes)
    requires i <= |sig|
    ensures |r| <= |sig| - i
    decreases |sig| - i
  {
    if i == |sig| then []
    else if sig[i] == OPEN || sig[i] == LBRACE then AfterClose(sig, i + 1, depth + 1, closing)
    else if sig[i] == CLOSE || sig[i] == RBRACE then
      if depth == 1 && sig[i] == closing then sig[i + 1..] else AfterClose(sig, i + 1, depth - 1, closing)
    else AfterClose(sig, i + 1, depth, closing)
  }

  function AfterOne(sig: bytes): (r: bytes)
    ensures sig != [] ==> |r| < |sig|
  {
    if sig == [] then []
    else if sig[0] == A then AfterOne(sig[1..])
    else if sig[0] == OPEN then AfterClose(sig, 1, 1, CLOSE)
    else if sig[0] == LBRACE then AfterClose(sig, 1, 1, RBRACE)
    else sig[1..]
  }

  /**
   How a call of `skip` ends. `Stalled` is the array loop running an iteration that leaves the cursor where it
   was without failing: the next iteration starts from the same state, so the loop never ends.
   */
  datatype Skipped = Rest(sig: bytes, cursor: Cursor) | Stalled

  /** What is left to read, for termination. */
  function Left(buf: bytes, c: Cursor): nat {
    if c.failed || c.pos > |buf| then 0 else |buf| - c.pos + 1
  }

  /** A read moves the cursor forward inside the buffer, or fails. */
  predicate Moved(buf: bytes, c: Cursor, d: Cursor) {
    d.failed || (!c.failed && c.pos <= d.pos <= |buf|)
  }

  function Skip(buf: bytes, c: Cursor, sig: bytes): (r: Skipped)
    ensures r.Rest? && sig != [] ==> Moved(buf, c, r.cursor) && |r.sig| < |sig|
    ensures r.Rest? && (sig == [] || c.failed) ==> r == Rest([], c)
    decreases Left(buf, c), |sig|, 0
  {
    if c.failed || sig == [] then Rest([], c)
    else if sig[0] == Y then Rest(sig[1..], ReadByte(buf, c).1)
    else if IsWord4(sig[0]) then Rest(sig[1..], ReadWord(buf, c, 4).1)
    else if IsWord8(sig[0]) then Rest(sig[1..], ReadWord(buf, c, 8).1)
    else if IsText(sig[0]) then Rest(sig[1..], ReadText(buf, c).1)
    else if sig[0] == G then Rest(sig[1..], ReadSig(buf, c).1)
    else if sig[0] == V then
      var (inner, d) := ReadSig(buf, c);
      match Skip(buf, d, inner)
      case Stalled => Stalled
      case Rest(_, e) => Rest(sig[1..], e)
    else if sig[0] == A then
      if sig[1..] == [] then Rest([], Fail(c))
      else
        var (n, d) := ReadWord(buf, c, 4);
        if n > |buf| then Rest([], Fail(d))
        else
          var e := PadTo(buf, d, AlignmentOf(sig[1]));
          match SkipElements(buf, e, e.pos + n, sig[1..])
          case Stalled => Stalled
          case Rest(_, f) => Rest(AfterOne(sig[1..]), f.(pos := e.pos + n))
    else if sig[0] == OPEN then
      match SkipFields(buf, PadTo(buf, c, 8), sig[1..])
      case Stalled => Stalled
      case Rest(rest, f) => Rest(if rest != [] && rest[0] == CLOSE then rest[1..] else rest, f)
    else Rest([], Fail(c))
  }

  /** The array case's loop. */
  function SkipElements(buf: bytes, c: Cursor, end: nat, sig: bytes): (r: Skipped)
    requires sig != []
    ensures r.Rest? && !r.cursor.failed ==> !c.failed && c.pos <= r.cursor.pos && end <= r.cursor.pos
    ensures r.Rest? && !r.cursor.failed ==> r.cursor.pos <= |buf| || r.cursor == c
    decreases Left(buf, c), |sig|, 1
  {
    if c.pos >= end || c.failed then Rest(sig, c)
    else
      match Skip(buf, c, sig)
      case Stalled => Stalled
      case Rest(_, d) =>
        if d.failed then Rest(sig, d)
        else if d.pos == c.pos then Stalled
        else SkipElements(buf, d, end, sig)
  }

  /** The struct case's loop. Every pass shortens the signature, so its "cannot advance" check never fires. */
  function SkipFields(buf: bytes, c: Cursor, sig: bytes): (r: Skipped)
    ensures r.Rest? ==> |r.sig| <= |sig| && (Moved(buf, c, r.cursor) || r.cursor == c)
    decreases Left(buf, c), |sig|, 1
  {
    if sig == [] || sig[0] == CLOSE || c.failed then Rest(sig, c)
    else
      match Skip(buf, c, sig)
      case Stalled => Stalled
      case Rest(rest, d) => SkipFields(buf, d, rest)
  }
}
