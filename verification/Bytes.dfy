/** Bytes and little-endian words, shared by the two wire formats the agent reads. */
module Bytes {
  type byte = b: int | 0 <= b < 256
  type bytes = seq<byte>

  const U32: nat := 0x1_0000_0000
  const U64: nat := 0x1_0000_0000_0000_0000

  /** How many values fit in `width` bytes. */
  function Span(width: nat): nat {
    if width == 0 then 1 else 256 * Span(width - 1)
  }

  /** The low `width` bytes of n, least significant first: what AppendUint32 and AppendUint64 write. */
  function Le(n: nat, width: nat): (s: bytes)
    ensures |s| == width
    decreases n, width
  {
    if width == 0 then [] else [n % 256] + Le(n / 256, width - 1)
  }

  /** The number little-endian bytes stand for. */
  function FromLe(s: bytes): (n: nat) {
    if s == [] then 0 else s[0] + 256 * FromLe(s[1..])
  }

  lemma {:induction false} FromLeOfLe(n: nat, width: nat)
    requires n < Span(width)
    ensures FromLe(Le(n, width)) == n
    decreases width
  {
    if width > 0 {
      FromLeOfLe(n / 256, width - 1);
      assert Le(n, width)[1..] == Le(n / 256, width - 1);
    }
  }

  lemma {:induction false} FromLeBound(s: bytes)
    ensures FromLe(s) < Span(|s|)
  {
    if s != [] {
      FromLeBound(s[1..]);
    }
  }

  lemma Spans()
    ensures Span(4) == U32 && Span(8) == U64
  {
    assert Span(4) == 256 * (256 * (256 * (256 * Span(0))));
    assert Span(8) == 256 * (256 * (256 * (256 * Span(4))));
  }

  /** The bytes of an ASCII string. */
  function Ascii(s: string): (b: bytes)
    ensures |b| == |s|
  {
    if s == "" then [] else [s[0] as int % 256] + Ascii(s[1..])
  }

  /** A 64-bit word read as a signed integer. */
  function Signed(n: nat): int {
    if n >= 0x8000_0000_0000_0000 then n - 0x1_0000_0000_0000_0000 else n
  }

  /** `part` is what `whole` holds from `off` on. */
  ghost predicate At(whole: bytes, off: nat, part: bytes) {
    off + |part| <= |whole| && whole[off..off + |part|] == part
  }

  lemma AtSplit(whole: bytes, off: nat, left: bytes, right: bytes)
    ensures At(whole, off, left + right) <==> At(whole, off, left) && At(whole, off + |left|, right)
  {
    if off + |left| + |right| <= |whole| {
      var w := whole[off..off + |left| + |right|];
      assert w[..|left|] == whole[off..off + |left|];
      assert w[|left|..] == whole[off + |left|..off + |left| + |right|];
      assert w == w[..|left|] + w[|left|..];
      assert (left + right)[..|left|] == left && (left + right)[|left|..] == right;
    }
  }

  lemma AtSplit3(whole: bytes, off: nat, x: bytes, y: bytes, z: bytes)
    ensures At(whole, off, x + y + z) <==>
            At(whole, off, x) && At(whole, off + |x|, y) && At(whole, off + |x| + |y|, z)
  {
    AtSplit(whole, off, x + y, z);
    AtSplit(whole, off, x, y);
  }

  lemma AtOne(whole: bytes, off: nat, b: byte)
    ensures At(whole, off, [b]) <==> off < |whole| && whole[off] == b
  {
  }
}
