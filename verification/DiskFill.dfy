/** Filling blocks of the read cache from disk, and copying a request out of them. */
module DiskFill {
  import BitArith
  import opened DiskBlocks
  import opened DiskFlush

  // ---------------------------------------------------------------- offsets within a block

  /** The bitwise and. */
  function And(a: nat, b: nat): nat {
    if a == 0 || b == 0 then 0 else And(a / 2, b / 2) * 2 + if a % 2 == 1 && b % 2 == 1 then 1 else 0
  }

  /** Masking with a power of two less one gives the remainder. */
  lemma {:induction false} MaskIsRemainder(a: nat, n: nat)
    ensures And(a, BitArith.Pow2(n) - 1) == a % BitArith.Pow2(n)
  {
    if n > 0 {
      MaskIsRemainder(a / 2, n - 1);
      AndStep(a, BitArith.Pow2(n - 1));
      RemainderStep(a, BitArith.Pow2(n - 1));
    }
  }

  lemma AndStep(a: nat, p: nat)
    requires p > 0
    ensures And(a, 2 * p - 1) == And(a / 2, p - 1) * 2 + a % 2
  {
    assert (2 * p - 1) / 2 == p - 1 && (2 * p - 1) % 2 == 1;
  }

  lemma RemainderStep(a: nat, p: nat)
    requires p > 0
    ensures a % (2 * p) == a / 2 % p * 2 + a % 2
  {
    var q, r := a / 2 / p, a / 2 % p;
    assert a / 2 == q * p + r;
    assert a == q * (2 * p) + (r * 2 + a % 2);
    BitArith.DivUnique(a, 2 * p, q, r * 2 + a % 2);
  }

  // ---------------------------------------------------------------- filling

  /** Block k holds what is on disk. */
  ghost predicate Holds(blocks: seq<Block>, disk: seq<Byte>, bs: nat, k: nat)
    requires Sized(blocks, |disk|, bs) && k < |blocks|
  {
    blocks[k].Cached? && Data(blocks, |disk|, bs, k) == Slice(disk, bs, k)
  }

  lemma FillOne(blocks: seq<Block>, disk: seq<Byte>, bs: nat, k: nat, len: nat)
    requires Sized(blocks, |disk|, bs) && k < |blocks| && blocks[k].Cached? && len == EndOf(|disk|, bs, k) - k * bs
    ensures len <= bs && k * bs + len <= |disk|
    ensures var b := blocks[k := Cached(Write(blocks[k].data, 0, disk[k * bs..k * bs + len]))];
      Sized(b, |disk|, bs) && Holds(b, disk, bs, k)
  {
    BlockBounds(|disk|, bs, k);
    var d := disk[k * bs..k * bs + len];
    assert Write(blocks[k].data, 0, d)[..len] == d;
  }

  /** The blocks start..i have been filled. */
  ghost predicate Filled(blocks: seq<Block>, r: seq<Block>, disk: seq<Byte>, bs: nat, start: nat, i: nat) {
    && Sized(r, |disk|, bs) && |r| == |blocks|
    && forall k :: 0 <= k < |r| ==> if start <= k < i then Holds(r, disk, bs, k) else r[k] == blocks[k]
  }

  lemma FillStep(blocks: seq<Block>, r: seq<Block>, disk: seq<Byte>, bs: nat, start: nat, i: nat, data: seq<Byte>)
    requires Filled(blocks, r, disk, bs, start, i) && start <= i < |blocks| && blocks[i].Cached?
    requires i * bs + |data| == EndOf(|disk|, bs, i) <= |disk| && data == disk[i * bs..][..|data|] && |data| <= bs
    ensures Filled(blocks, r[i := Cached(Write(r[i].data, 0, data))], disk, bs, start, i + 1)
  {
    var r' := r[i := Cached(Write(r[i].data, 0, data))];
    FillOne(r, disk, bs, i, |data|);
    assert data == disk[i * bs..i * bs + |data|];
    OthersHold(r, r', disk, bs, start, i);
  }

  /** Where the bytes of block i are in a buffer that holds the blocks start..end. */
  lemma BufferPart(disk: seq<Byte>, bs: nat, start: nat, end: nat, i: nat, buf: seq<Byte>)
    requires bs > 0 && start <= i < end <= BlocksIn(|disk|, bs)
    requires start * bs + |buf| == EndOf(|disk|, bs, end - 1) <= |disk| && buf == disk[start * bs..start * bs + |buf|]
    ensures i * bs < |disk|
    ensures var offset, len := i * bs - start * bs, Min(|disk| - i * bs, bs);
      && 0 <= offset && offset + len <= |buf| && len == EndOf(|disk|, bs, i) - i * bs
      && i * bs + len <= |disk| && buf[offset..offset + len] == disk[i * bs..][..len]
  {
    LengthIs(|disk|, bs, i);
    MulMonotone(start, i, bs);
    if i < end - 1 {
      BlocksApart(|disk|, bs, i, end - 1);
      BlockBounds(|disk|, bs, end - 1);
    }
    SubSlice(disk, start * bs, i * bs, Min(|disk| - i * bs, bs), buf);
  }

  lemma SubSlice(disk: seq<Byte>, a: nat, b: nat, len: nat, buf: seq<Byte>)
    requires a + |buf| <= |disk| && buf == disk[a..a + |buf|] && a <= b && b + len <= a + |buf|
    ensures buf[b - a..b - a + len] == disk[b..][..len]
  {
    var x, y := buf[b - a..b - a + len], disk[b..][..len];
    forall k | 0 <= k < len ensures x[k] == y[k] { assert x[k] == disk[b + k]; }
    assert x == y;
  }

  /** Fills the blocks start..end from a buffer that holds their bytes. */
  method FillBlocks(blocks: seq<Block>, start: nat, end: nat, buf: seq<Byte>, bs: nat, size: nat,
    ghost disk: seq<Byte>) returns (r: seq<Block>)
    requires Sized(blocks, size, bs) && |disk| == size && start < end <= |blocks| && AllCached(blocks, start, end)
    requires start * bs + |buf| == EndOf(size, bs, end - 1) <= size && buf == disk[start * bs..start * bs + |buf|]
    ensures Filled(blocks, r, disk, bs, start, end)
  {
    r := blocks;
    var offset := 0;
    for i := start to end
      invariant Filled(blocks, r, disk, bs, start, i) && start * bs + offset == RunEnd(size, bs, i)
    {
      LengthIs(size, bs, i);
      BufferPart(disk, bs, start, end, i, buf);
      var len := Min(size - i * bs, bs);
      FillStep(blocks, r, disk, bs, start, i, buf[offset..offset + len]);
      r := r[i := Cached(Write(r[i].data, 0, buf[offset..offset + len]))];
      offset := offset + len;
    }
  }

  lemma LengthIs(size: nat, bs: nat, i: nat)
    requires bs > 0 && i < BlocksIn(size, bs)
    ensures i * bs < size && Min(size - i * bs, bs) == EndOf(size, bs, i) - i * bs
    ensures RunEnd(size, bs, i) == i * bs && RunEnd(size, bs, i + 1) == EndOf(size, bs, i)
  {
    BlockBounds(size, bs, i);
    Distribute(i, bs);
  }

  lemma OthersHold(before: seq<Block>, after: seq<Block>, disk: seq<Byte>, bs: nat, start: nat, i: nat)
    requires Sized(before, |disk|, bs) && Sized(after, |disk|, bs) && start <= i < |before| == |after|
    requires (forall k :: 0 <= k < |before| && k != i ==> after[k] == before[k])
    requires forall k :: start <= k < i ==> Holds(before, disk, bs, k)
    ensures forall k :: start <= k < i ==> Holds(after, disk, bs, k)
  {
    forall k | start <= k < i ensures Holds(after, disk, bs, k) { assert Holds(before, disk, bs, k); }
  }

  // ---------------------------------------------------------------- copying

  /** The cached blocks hold what is on disk. */
  ghost predicate AllHold(blocks: seq<Block>, disk: seq<Byte>, bs: nat)
    requires Sized(blocks, |disk|, bs)
  {
    forall k :: 0 <= k < |blocks| && blocks[k].Cached? ==> Data(blocks, |disk|, bs, k) == Slice(disk, bs, k)
  }

  /** A part of a cached block is that part of the disk. */
  lemma PartIs(blocks: seq<Block>, disk: seq<Byte>, bs: nat, k: nat, a: nat, b: nat)
    requires Sized(blocks, |disk|, bs) && AllHold(blocks, disk, bs) && k < |blocks| && blocks[k].Cached?
    requires a <= b <= bs && k * bs + b <= |disk|
    ensures blocks[k].data[a..b] == disk[k * bs + a..k * bs + b]
  {
    LengthIs(|disk|, bs, k);
    SamePart(blocks[k].data, disk, k * bs, EndOf(|disk|, bs, k) - k * bs, a, b);
  }

  lemma SamePart(data: seq<Byte>, disk: seq<Byte>, at: nat, len: nat, a: nat, b: nat)
    requires a <= b <= len <= |data| && at + len <= |disk| && data[..len] == disk[at..at + len]
    ensures data[a..b] == disk[at + a..at + b]
  {
    var x, y := data[a..b], disk[at + a..at + b];
    forall i | 0 <= i < b - a ensures x[i] == y[i] {
      assert x[i] == data[..len][a + i] && y[i] == disk[at..at + len][a + i];
    }
    assert x == y;
  }

  /** Goes down from a block and drops it and the cached ones right before it. */
  method DropBefore(blocks: seq<Block>, block: nat) returns (r: seq<Block>, freed: nat, ghost low: nat)
    requires block < |blocks|
    ensures freed == Count(blocks) - Count(r) && Skipped(blocks, r, low, block + 1)
  {
    r, freed := blocks, 0;
    var i: int := block;
    while i >= 0 && r[i].Cached?
      invariant -1 <= i <= block && |r| == |blocks| && freed == Count(blocks) - Count(r)
      invariant forall k :: 0 <= k < |r| ==> r[k] == if i < k <= block then Empty else blocks[k]
      invariant forall k :: i < k <= block ==> blocks[k].Cached?
    {
      ClearOne(r, i);
      r := r[i := Empty];
      freed := freed + 1;
      i := i - 1;
    }
    low := i + 1;
  }

  /** The blocks a..b have been dropped: all that are cached right before b. */
  predicate Skipped(blocks: seq<Block>, left: seq<Block>, a: nat, b: nat) {
    && a <= b <= |blocks| == |left| && (a > 0 ==> blocks[a - 1].Empty?)
    && (forall k :: a <= k < b ==> blocks[k].Cached?)
    && (forall k :: 0 <= k < |left| ==> left[k] == if a <= k < b then Empty else blocks[k])
  }

  /** What a request leaves: a volatile cache drops its blocks and those right before them. */
  ghost predicate Taken(blocks: seq<Block>, left: seq<Block>, first: nat, end: nat, volatile: bool) {
    if volatile then exists a: nat :: a <= first && Skipped(blocks, left, a, end) else left == blocks
  }

  lemma SkippedMore(blocks: seq<Block>, left: seq<Block>, left': seq<Block>, a: nat, b: nat, low: nat)
    requires a < b < |blocks| && Skipped(blocks, left, a, b) && Skipped(left, left', low, b + 1) && blocks[b].Cached?
    ensures true == Skipped(blocks, left', a, b + 1)
  {
    assert low <= b;
    assert left[b - 1].Empty?;
  }

  /** The blocks first..last are cached. */
  predicate Ready(blocks: seq<Block>, first: nat, last: nat) {
    last < |blocks| && forall k :: first <= k <= last ==> blocks[k].Cached?
  }

  /** Copies a request out of the blocks, from the given block and the offset in it on; a volatile cache
      drops what has been copied. */
  method CopyOut(blocks: seq<Block>, bs: nat, first: nat, firstOffset: nat, size: nat, volatile: bool,
    ghost last: nat, ghost disk: seq<Byte>)
    returns (out: seq<Byte>, left: seq<Block>, freed: nat)
    requires Sized(blocks, |disk|, bs) && AllHold(blocks, disk, bs) && Ready(blocks, first, last)
    requires firstOffset < bs && first * bs + firstOffset + size <= |disk| && size > 0
      && last * bs < first * bs + firstOffset + size <= (last + 1) * bs
    ensures out == disk[first * bs + firstOffset..first * bs + firstOffset + size]
    ensures |left| == |blocks| && freed == Count(blocks) - Count(left)
    ensures forall k :: 0 <= k < |left| ==> left[k] == blocks[k] || left[k].Empty?
    ensures true == Taken(blocks, left, first, last + 1, volatile)
  {
    out, left, freed := [], blocks, 0;
    var rest: nat, block: nat, blockOffset: nat := size, first, firstOffset;
    ghost var pos := first * bs + firstOffset;
    ghost var start, low := pos, first;
    while rest > 0
      invariant rest <= size && pos == start + size - rest && out == disk[start..pos]
      invariant true == Reached(bs, first, block, blockOffset, rest, pos)
      invariant true == Copying(blocks, left, block) && freed == Count(blocks) - Count(left)
      invariant true == Dropping(blocks, left, first, block, low, volatile)
    {
      var toCopy := Min(bs - blockOffset, rest);
      CopyStep(blocks, left, disk, bs, pos, pos + rest, first, last, block, blockOffset, toCopy);
      var part := left[block].data[blockOffset..blockOffset + toCopy];
      assert disk[start..pos] + disk[pos..pos + toCopy] == disk[start..pos + toCopy];
      out := out + part;
      ReachedMore(bs, first, block, blockOffset, rest, pos, toCopy);
      if volatile {
        var f;
        left, f, low := DropNext(blocks, left, first, block, low);
        freed := freed + f;
      }
      pos := pos + toCopy;
      rest, blockOffset, block := rest - toCopy, 0, block + 1;
    }
    ReachedEnd(bs, first, block, blockOffset, pos, last);
    AllDropped(blocks, left, first, block, low, volatile);
  }

  /** How far a copy has got: the next byte is at pos, in the given block or right behind the one before. */
  predicate Reached(bs: nat, first: nat, block: nat, blockOffset: nat, rest: nat, pos: nat) {
    && first <= block && (rest > 0 ==> block * bs + blockOffset == pos && blockOffset < bs)
    && (if block == first then rest > 0 else (block - 1) * bs < pos <= block * bs)
  }

  lemma ReachedMore(bs: nat, first: nat, block: nat, blockOffset: nat, rest: nat, pos: nat, n: nat)
    requires Reached(bs, first, block, blockOffset, rest, pos) && 0 < rest && n == Min(bs - blockOffset, rest)
    ensures true == Reached(bs, first, block + 1, 0, rest - n, pos + n)
  {
    Distribute(block, bs);
  }

  lemma ReachedEnd(bs: nat, first: nat, block: nat, blockOffset: nat, pos: nat, last: nat)
    requires Reached(bs, first, block, blockOffset, 0, pos) && last * bs < pos <= (last + 1) * bs
    ensures block == last + 1 && first <= last
  {
    if block - 1 < last { MulMonotone(block, last, bs); }
    if last < block - 1 { MulMonotone(last + 1, block - 1, bs); }
  }

  lemma AllDropped(blocks: seq<Block>, left: seq<Block>, first: nat, block: nat, low: nat, volatile: bool)
    requires Dropping(blocks, left, first, block, low, volatile) && first < block
    ensures true == Taken(blocks, left, first, block, volatile)
  {}

  /** The blocks from the first of a request up to the given one have been copied. */
  predicate Dropping(blocks: seq<Block>, left: seq<Block>, first: nat, block: nat, low: nat, volatile: bool) {
    if volatile && block > first then low <= first && Skipped(blocks, left, low, block) else left == blocks
  }

  method DropNext(blocks: seq<Block>, left: seq<Block>, first: nat, block: nat, ghost low: nat)
    returns (r: seq<Block>, freed: nat, ghost low': nat)
    requires first <= block < |left| == |blocks| && blocks[block].Cached? && left[block].Cached?
    requires true == Dropping(blocks, left, first, block, low, true)
    ensures freed == Count(left) - Count(r) && true == Dropping(blocks, r, first, block + 1, low', true)
      && true == Copying(blocks, r, block + 1)
  {
    r, freed, low' := DropBefore(left, block);
    if block > first {
      SkippedMore(blocks, left, r, low, block, low');
      low' := low;
    }
  }

  /** Blocks from the given one on are as they were; before it some may be gone. */
  predicate Copying(blocks: seq<Block>, left: seq<Block>, block: nat) {
    |left| == |blocks| && forall k :: 0 <= k < |left| ==> left[k] == blocks[k] || (k < block && left[k].Empty?)
  }

  lemma CopyStep(blocks: seq<Block>, left: seq<Block>, disk: seq<Byte>, bs: nat, pos: nat, end: nat, first: nat,
    last: nat, block: nat, blockOffset: nat, n: nat)
    requires Sized(blocks, |disk|, bs) && AllHold(blocks, disk, bs) && pos < end <= |disk| && end <= (last + 1) * bs
      && Ready(blocks, first, last)
    requires true == Reached(bs, first, block, blockOffset, end - pos, pos) && n == Min(bs - blockOffset, end - pos)
    requires Copying(blocks, left, block)
    ensures blockOffset < bs && block < |left| == |blocks| && left[block] == blocks[block]
    ensures left[block].Cached? && |left[block].data| == bs
    ensures left[block].data[blockOffset..blockOffset + n] == disk[pos..pos + n]
  {
    if block > last { MulMonotone(last + 1, block, bs); }
    assert left[block] == blocks[block];
    PartIs(blocks, disk, bs, block, blockOffset, blockOffset + n);
  }
}
