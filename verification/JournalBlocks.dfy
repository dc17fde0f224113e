/** internal/journal/file.go: reading a file through a small cache of 64 KiB blocks, evicted oldest first. */
module JournalBlocks {
  import opened Options
  import opened Bytes

  const BLOCK: nat := 0x1_0000
  const MAX_BLOCKS: nat := 32
  const MAX_READ: nat := 0x10_0000

  /** The read the cache stands for: exactly those bytes of the file, or an error when they are not all there. */
  function Direct(file: bytes, off: int, n: int): Option<bytes> {
    if off < 0 || n < 0 || off + n > |file| || n > MAX_READ then None else Some(file[off..off + n])
  }

  function Min(a: nat, b: nat): nat {
    if a < b then a else b
  }

  /** The i-th block of a file; the last one may be short. */
  function BlockOf(file: bytes, i: nat): bytes
    requires i * BLOCK < |file|
  {
    file[i * BLOCK..Min(i * BLOCK + BLOCK, |file|)]
  }

  lemma BlockSlice(file: bytes, i: nat, lo: nat, hi: nat)
    requires i * BLOCK < |file| && lo <= hi <= |BlockOf(file, i)|
    ensures BlockOf(file, i)[lo..hi] == file[i * BLOCK + lo..i * BLOCK + hi]
  {
  }

  lemma Joined(file: bytes, a: nat, b: nat, c: nat)
    requires a <= b <= c <= |file|
    ensures file[a..b] + file[b..c] == file[a..c]
  {
  }

  lemma BlockRead(file: bytes, i: nat)
    requires i * BLOCK < |file|
    ensures BlockOf(file, i) == file[i * BLOCK..i * BLOCK + Min(BLOCK, |file| - i * BLOCK)]
  {
  }

  class BlockReader {
    const file: bytes
    var order: seq<nat>
    var cache: map<nat, bytes>

    /** The cache holds the blocks in the queue, each once, each a slice of the file. */
    ghost predicate Valid()
      reads this
    {
      |order| <= MAX_BLOCKS &&
      (forall i, j | 0 <= i < j < |order| :: order[i] != order[j]) &&
      (forall i | 0 <= i < |order| :: order[i] in cache) &&
      (forall i | i in cache :: i in order && i * BLOCK < |file| && cache[i] == BlockOf(file, i))
    }

    constructor (data: bytes)
      ensures Valid() && file == data && order == []
    {
      file, order, cache := data, [], map[];
    }

    method Block(i: nat) returns (blk: bytes)
      requires Valid() && i * BLOCK < |file|
      modifies this
      ensures Valid() && blk == BlockOf(file, i)
      ensures i in cache
      ensures old(i in cache) ==> order == old(order) && cache == old(cache)
      ensures old(i !in cache) ==>
        order == (if |old(order)| < MAX_BLOCKS then old(order) else old(order)[1..]) + [i]
    {
      hide BlockOf;
      if i in cache {
        return cache[i];
      }
      var n := Min(BLOCK, |file| - i * BLOCK);
      blk := file[i * BLOCK..i * BLOCK + n];
      BlockRead(file, i);
      if |order| >= MAX_BLOCKS {
        Evict();
      }
      Remember(i, blk);
    }

    method Remember(i: nat, blk: bytes)
      requires Valid() && |order| < MAX_BLOCKS && i !in cache && i * BLOCK < |file| && blk == BlockOf(file, i)
      modifies this
      ensures Valid() && order == old(order) + [i] && cache == old(cache)[i := blk]
    {
      hide BlockOf;
      assert i !in order;
      cache := cache[i := blk];
      order := order + [i];
    }

    /** Forgets the block that was read first. */
    method Evict()
      requires Valid() && |order| > 0
      modifies this
      ensures Valid() && order == old(order)[1..] && cache == old(cache) - {old(order)[0]}
    {
      ghost var was := order;
      cache := cache - {order[0]};
      order := order[1..];
      forall i | i in cache ensures i in order {
        var k :| 0 <= k < |was| && was[k] == i;
        assert order[k - 1] == i;
      }
    }

    method Read(off: int, n: int) returns (r: Option<bytes>)
      requires Valid()
      modifies this
      ensures Valid() && r == Direct(file, off, n)
    {
      if off < 0 || n < 0 || off + n > |file| || n > MAX_READ {
        return None;
      }
      if n == 0 {
        assert file[off..off + n] == [];
        return Some([]);
      }
      var first, last := off / BLOCK, (off + n - 1) / BLOCK;
      if first == last {
        var blk := Block(first);
        var start := off - first * BLOCK;
        BlockSlice(file, first, start, start + n);
        return Some(blk[start..start + n]);
      }
      var out := ReadAcross(off, n, first, last);
      r := Some(out);
    }

    /** The pieces of every block the range touches. */
    method ReadAcross(off: nat, n: nat, first: nat, last: nat) returns (out: bytes)
      requires Valid() && n > 0 && off + n <= |file|
      requires first == off / BLOCK && last == (off + n - 1) / BLOCK && first < last
      modifies this
      ensures Valid() && out == file[off..off + n]
    {
      hide Valid, BlockOf;
      out := [];
      var i := first;
      while i <= last
        invariant first <= i <= last + 1
        invariant Valid()
        invariant out == file[off..if i == first then off else Min(i * BLOCK, off + n)]
      {
        var blk := Block(i);
        var lo, hi := 0, |blk|;
        if i == first {
          lo := off - first * BLOCK;
        }
        if i == last {
          hi := off + n - last * BLOCK;
        }
        BlockLength(file, i);
        BlockSlice(file, i, lo, hi);
        Joined(file, off, i * BLOCK + lo, i * BLOCK + hi);
        out := out + blk[lo..hi];
        i := i + 1;
      }
    }
  }

  lemma BlockLength(file: bytes, i: nat)
    requires i * BLOCK < |file|
    ensures |BlockOf(file, i)| == Min(BLOCK, |file| - i * BLOCK)
  {
  }

  /** What can be read: any range inside the file, of at most a mebibyte. */
  lemma ReadableRange(file: bytes, off: int, n: int)
    ensures Direct(file, off, n) ==
              if 0 <= off && 0 <= n <= 1024 * 1024 && off + n <= |file| then Some(file[off..off + n]) else None
  {
  }
}
