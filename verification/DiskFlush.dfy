/** Flushing cached blocks of one piece: runs of neighbouring blocks are written in one go. */
module DiskFlush {
  import opened DiskBlocks

  function Min(a: nat, b: nat): nat { if a < b then a else b }

  /** The buffers of a scatter-gather list, one behind the other. */
  function Join(iov: seq<seq<Byte>>): seq<Byte> {
    if iov == [] then [] else Join(iov[..|iov| - 1]) + iov[|iov| - 1]
  }

  /** The cached blocks passed so far are counted, and the hasher has moved on. */
  predicate Accounted(blocks: seq<Block>, a: nat, b: nat, h: nat, count: nat, hash: nat)
    requires a <= b <= |blocks|
  {
    count == |CachedIn(blocks, a, b)| && hash == Hashed(blocks, a, b, h)
  }

  lemma AccountNext(blocks: seq<Block>, a: nat, b: nat, h: nat, count: nat, hash: nat)
    requires a <= b < |blocks| && Accounted(blocks, a, b, h, count, hash)
    ensures blocks[b].Empty? ==> true == Accounted(blocks, a, b + 1, h, count, hash)
    ensures blocks[b].Cached? ==> true == Accounted(blocks, a, b + 1, h, count + 1, if b == hash then hash + 1
      else hash)
  {}

  /** How far the hasher has got once the blocks a..b have been passed to the disk in order. */
  function Hashed(blocks: seq<Block>, a: nat, b: nat, h: nat): (r: nat)
    requires a <= b <= |blocks|
    ensures h < a || b <= h ==> r == h
    ensures a <= h < b ==> h <= r <= b && (forall k :: h <= k < r ==> blocks[k].Cached?) && (r < b ==> blocks[r].Empty?)
    decreases b
  {
    if a == b then h else
    var g := Hashed(blocks, a, b - 1, h);
    if blocks[b - 1].Cached? && g == b - 1 then g + 1 else g
  }

  lemma {:induction false} WriteBlocksThen(disk: seq<Byte>, blocks: seq<Block>, bs: nat, a: nat, b: nat, c: nat)
    requires Sized(blocks, |disk|, bs) && a <= b <= c <= |blocks|
    ensures WriteBlocks(disk, blocks, bs, a, c) == WriteBlocks(WriteBlocks(disk, blocks, bs, a, b), blocks, bs, b, c)
    decreases c
  {
    if b < c { WriteBlocksThen(disk, blocks, bs, a, b, c - 1); }
  }

  /** A run is empty only if it has no blocks. */
  lemma RunNotEmpty(blocks: seq<Block>, size: nat, bs: nat, a: nat, b: nat)
    requires Sized(blocks, size, bs) && a < b <= |blocks| && AllCached(blocks, a, b)
    ensures |Run(blocks, size, bs, a, b)| > 0
  {
    RunLength(blocks, size, bs, a, b);
    BlockBounds(size, bs, b - 1);
    MulMonotone(a, b - 1, bs);
  }

  /** The disk once the blocks up to i have been passed and those from r on are still to be written. */
  ghost predicate Passed(disk0: seq<Byte>, disk: seq<Byte>, blocks: seq<Block>, bs: nat, start: nat, r: nat, i: nat,
    pending: seq<Byte>)
  {
    && Sized(blocks, |disk0|, bs) && start <= r <= i <= |blocks| && AllCached(blocks, r, i)
    && disk == WriteBlocks(disk0, blocks, bs, start, r) && pending == Run(blocks, |disk0|, bs, r, i)
  }

  /** A cached block joins the run. */
  lemma PassCached(disk0: seq<Byte>, disk: seq<Byte>, blocks: seq<Block>, bs: nat, start: nat, r: nat, i: nat,
    pending: seq<Byte>)
    requires true == Passed(disk0, disk, blocks, bs, start, r, i, pending) && i < |blocks| && blocks[i].Cached?
    ensures true == Passed(disk0, disk, blocks, bs, start, r, i + 1, pending + Data(blocks, |disk0|, bs, i))
    ensures r * bs + |pending| == i * bs
  {
    RunLength(blocks, |disk0|, bs, r, i);
    BlockBounds(|disk0|, bs, i);
    if r < i { BlockBounds(|disk0|, bs, i - 1); }
  }

  /** The end of a run: it is written to where its first block belongs. */
  lemma PassRun(disk0: seq<Byte>, disk: seq<Byte>, blocks: seq<Block>, bs: nat, start: nat, r: nat, i: nat,
    pending: seq<Byte>)
    requires true == Passed(disk0, disk, blocks, bs, start, r, i, pending) && r < i
    ensures r * bs + |pending| == RunEnd(|disk0|, bs, i) <= |disk|
    ensures true == Passed(disk0, Write(disk, r * bs, pending), blocks, bs, start, i, i, [])
  {
    RunLength(blocks, |disk0|, bs, r, i);
    RunWrites(disk, blocks, bs, r, i);
    WriteBlocksThen(disk0, blocks, bs, start, r, i);
  }

  /** A hole is passed once the run before it is written. */
  lemma PassHole(disk0: seq<Byte>, disk: seq<Byte>, blocks: seq<Block>, bs: nat, start: nat, i: nat)
    requires true == Passed(disk0, disk, blocks, bs, start, i, i, []) && i < |blocks| && blocks[i].Empty?
    ensures true == Passed(disk0, disk, blocks, bs, start, i + 1, i + 1, [])
  {}

  /** One piece on its way to the disk. The run that is being gathered is kept as a list of buffers, or
      copied into one buffer. */
  class Flusher {
    const bs: nat
    const coalesce: bool
    const blocks: seq<Block>
    const size: nat
    var disk: seq<Byte>
    var buf: seq<Byte>
    var iov: seq<seq<Byte>>
    var bufferSize: nat
    var offset: nat

    constructor (bs: nat, coalesce: bool, blocks: seq<Block>, disk: seq<Byte>)
      requires bs > 0
      ensures this.bs == bs && this.coalesce == coalesce && this.blocks == blocks && size == |disk| && this.disk == disk
      ensures buf == disk && iov == [] && bufferSize == 0 && offset == 0
    {
      this.bs, this.coalesce, this.blocks, size, this.disk := bs, coalesce, blocks, |disk|, disk;
      buf, iov, bufferSize, offset := disk, [], 0, 0;
    }

    /** What has been gathered. */
    ghost predicate Gathered(pending: seq<Byte>)
      reads this
    {
      && bufferSize == |pending| <= |buf| && |buf| == size
      && (if coalesce then buf[..bufferSize] == pending else Join(iov) == pending)
    }

    /** Adds block i to what is gathered. */
    method Gather(i: nat, ghost pending: seq<Byte>)
      requires Sized(blocks, size, bs) && i < |blocks| && blocks[i].Cached? && true == Gathered(pending)
      requires offset == bufferSize && bufferSize <= i * bs
      modifies this`buf, this`iov, this`bufferSize, this`offset
      ensures true == Gathered(pending + Data(blocks, size, bs, i))
      ensures offset == old(offset) + bs
    {
      BlockBounds(size, bs, i);
      var data := Data(blocks, size, bs, i);
      if coalesce {
        buf := Write(buf, offset, data);
        assert buf[..bufferSize + |data|] == pending + data;
      } else {
        iov := iov + [data];
        assert iov[..|iov| - 1] == old(iov);
      }
      offset := offset + bs;
      bufferSize := bufferSize + |data|;
    }

    /** Writes what is gathered to the place where it ends with block i. */
    method WriteRun(i: nat, ghost disk0: seq<Byte>, ghost start: nat, ghost r: nat, ghost pending: seq<Byte>)
      requires true == Gathered(pending) && |disk0| == size
        && true == Passed(disk0, disk, blocks, bs, start, r, i, pending) && r < i
      modifies this`disk, this`iov, this`bufferSize, this`offset
      ensures true == Gathered([]) && offset == 0 && true == Passed(disk0, disk, blocks, bs, start, i, i, [])
    {
      PassRun(disk0, disk, blocks, bs, start, r, i, pending);
      var data := if coalesce then buf[..bufferSize] else Join(iov);
      disk := Write(disk, Min(i * bs, size) - bufferSize, data);
      iov, bufferSize, offset := [], 0, 0;
    }

    /** Hands all cached blocks of the range to the disk; counts them, and moves the hasher on. */
    method WriteAll(start: nat, end: nat, nextHash: nat) returns (count: nat, hash: nat)
      requires Sized(blocks, size, bs) && start <= end <= |blocks| && |disk| == size && true == Gathered([])
        && offset == 0
      modifies this
      ensures disk == WriteBlocks(old(disk), blocks, bs, start, end)
      ensures count == |CachedIn(blocks, start, end)| && hash == Hashed(blocks, start, end, nextHash) && bufferSize == 0
    {
      count, hash := 0, nextHash;
      ghost var disk0, r, pending: seq<Byte> := disk, start, [];
      for i := start to end
        invariant start <= r && |disk0| == size && true == Passed(disk0, disk, blocks, bs, start, r, i, pending)
        invariant true == Gathered(pending)
        invariant offset == (i - r) * bs && true == Accounted(blocks, start, i, nextHash, count, hash)
      {
        AccountNext(blocks, start, i, nextHash, count, hash);
        if blocks[i].Empty? {
          EndRun(i, disk0, start, r, pending);
          PassHole(disk0, disk, blocks, bs, start, i);
          r, pending := i + 1, [];
        } else {
          PassCached(disk0, disk, blocks, bs, start, r, i, pending);
          OffsetIs(r, i, bs);
          Gather(i, pending);
          pending := pending + Data(blocks, size, bs, i);
          count := count + 1;
          if i == hash { hash := hash + 1; }
        }
      }
      EndRun(end, disk0, start, r, pending);
    }

    /** At a hole, or at the end: writes a run if there is one. */
    method EndRun(i: nat, ghost disk0: seq<Byte>, ghost start: nat, ghost r: nat, ghost pending: seq<Byte>)
      requires true == Gathered(pending) && |disk0| == size
        && true == Passed(disk0, disk, blocks, bs, start, r, i, pending) && offset == (i - r) * bs
      modifies this`disk, this`iov, this`bufferSize, this`offset
      ensures true == Gathered([]) && offset == 0 && true == Passed(disk0, disk, blocks, bs, start, i, i, [])
    {
      if r < i { RunNotEmpty(blocks, size, bs, r, i); }
      if bufferSize != 0 { WriteRun(i, disk0, start, r, pending); }
    }
  }

  lemma OffsetIs(r: nat, i: nat, bs: nat)
    requires r <= i
    ensures (i - r) * bs == i * bs - r * bs && (i + 1 - r) * bs == (i - r) * bs + bs
  {}

  // ---------------------------------------------------------------- contiguous blocks

  /** The longest run of cached blocks has n blocks. */
  ghost predicate Longest(blocks: seq<Block>, n: nat) {
    && (exists a, b :: 0 <= a <= b <= |blocks| && b - a == n && AllCached(blocks, a, b))
    && (forall a, b :: 0 <= a <= b <= |blocks| && AllCached(blocks, a, b) ==> b - a <= n)
  }

  /** The run that ends at i has `current` blocks and no run that ends before or at i is longer than n. */
  ghost predicate LongestTo(blocks: seq<Block>, i: nat, current: nat, n: nat, pos: nat) {
    && current <= i <= |blocks| && AllCached(blocks, i - current, i)
    && (current < i ==> blocks[i - current - 1].Empty?)
    && pos + n <= i && AllCached(blocks, pos, pos + n)
    && (forall a, b :: 0 <= a <= b <= i && AllCached(blocks, a, b) ==> b - a <= n || b > i - current)
  }

  /** Finds the longest run of cached blocks, the first one of that length. */
  method LongestRun(blocks: seq<Block>) returns (pos: nat, len: nat)
    ensures Longest(blocks, len) && pos + len <= |blocks| && AllCached(blocks, pos, pos + len)
  {
    pos, len := 0, 0;
    var current, start := 0, 0;
    for i := 0 to |blocks|
      invariant LongestTo(blocks, i, current, len, pos) && start == i - current
    {
      if blocks[i].Cached? {
        current := current + 1;
      } else {
        if current > len { len, pos := current, start; }
        current, start := 0, i + 1;
      }
    }
    assert current < |blocks| ==> blocks[|blocks| - current - 1].Empty?;
    if current > len { len, pos := current, start; }
  }

  /** The cached blocks of the range leave the cache one by one; returns them in order. */
  method Release(blocks: seq<Block>, start: nat, end: nat) returns (left: seq<Block>, posted: seq<nat>)
    requires start <= end <= |blocks|
    ensures left == Cleared(blocks, start, end) && posted == CachedIn(blocks, start, end)
  {
    left, posted := blocks, [];
    for i := start to end
      invariant left == Cleared(blocks, start, i) && posted == CachedIn(blocks, start, i)
    {
      if left[i].Cached? {
        posted := posted + [i];
        left := left[i := Empty];
      }
    }
  }
}
