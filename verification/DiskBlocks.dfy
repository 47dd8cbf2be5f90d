/** Pieces cut into blocks, blocks held in a cache, and what writing them does to the disk. */
module DiskBlocks {

  type Byte = bv8

  /** A buffer always has the full block size; of the last block of a piece only the start is meant. */
  datatype Block = Empty | Cached(data: seq<Byte>)

  /** The number of blocks of a piece. */
  function BlocksIn(size: nat, bs: nat): nat
    requires bs > 0
  {
    (size + bs - 1) / bs
  }

  /** Where block k ends. */
  function EndOf(size: nat, bs: nat, k: nat): nat { if (k + 1) * bs < size then (k + 1) * bs else size }

  lemma MulMonotone(a: nat, b: nat, k: nat)
    requires a <= b
    ensures a * k <= b * k
  {}

  lemma DivBounds(a: nat, b: nat)
    requires b > 0
    ensures a / b * b <= a < (a / b + 1) * b
  {}

  lemma Distribute(k: nat, bs: nat)
    ensures (k + 1) * bs == k * bs + bs
  {}

  /** Block k of a piece is not empty, and only the last one may be short. */
  lemma BlockBounds(size: nat, bs: nat, k: nat)
    requires bs > 0 && k < BlocksIn(size, bs)
    ensures k * bs < EndOf(size, bs, k) <= size && EndOf(size, bs, k) - k * bs <= bs
    ensures k + 1 < BlocksIn(size, bs) ==> EndOf(size, bs, k) == (k + 1) * bs
    ensures k + 1 == BlocksIn(size, bs) ==> EndOf(size, bs, k) == size
  {
    var n := BlocksIn(size, bs);
    DivBounds(size + bs - 1, bs);
    Distribute(n, bs);
    Distribute(k, bs);
    MulMonotone(k + 1, n, bs);
    if k + 1 < n {
      MulMonotone(k + 2, n, bs);
      Distribute(k + 1, bs);
    }
  }

  /** Blocks do not overlap. */
  lemma BlocksApart(size: nat, bs: nat, j: nat, k: nat)
    requires bs > 0 && j < k < BlocksIn(size, bs)
    ensures EndOf(size, bs, j) <= k * bs
  {
    BlockBounds(size, bs, j);
    MulMonotone(j + 1, k, bs);
  }

  /** Block k of the disk. */
  function Slice(disk: seq<Byte>, bs: nat, k: nat): seq<Byte>
    requires bs > 0 && k < BlocksIn(|disk|, bs)
  {
    BlockBounds(|disk|, bs, k);
    disk[k * bs..EndOf(|disk|, bs, k)]
  }

  /** A piece's buffers: one entry for each block, each buffer of the full size. */
  predicate Sized(blocks: seq<Block>, size: nat, bs: nat) {
    && bs > 0 && |blocks| == BlocksIn(size, bs)
    && forall k :: 0 <= k < |blocks| && blocks[k].Cached? ==> |blocks[k].data| == bs
  }

  /** The bytes of cached block k. */
  function Data(blocks: seq<Block>, size: nat, bs: nat, k: nat): (d: seq<Byte>)
    requires Sized(blocks, size, bs) && k < |blocks| && blocks[k].Cached?
    ensures k * bs + |d| == EndOf(size, bs, k)
  {
    BlockBounds(size, bs, k);
    blocks[k].data[..EndOf(size, bs, k) - k * bs]
  }

  /** What a reader of block k is to see: the cached block if there is one, else the disk. */
  function View(blocks: seq<Block>, disk: seq<Byte>, bs: nat, k: nat): seq<Byte>
    requires Sized(blocks, |disk|, bs) && k < |blocks|
  {
    if blocks[k].Cached? then Data(blocks, |disk|, bs, k) else Slice(disk, bs, k)
  }

  // ---------------------------------------------------------------- writing

  function Write(disk: seq<Byte>, at: nat, data: seq<Byte>): (r: seq<Byte>)
    requires at + |data| <= |disk|
    ensures |r| == |disk|
  {
    disk[..at] + data + disk[at + |data|..]
  }

  lemma WriteTwice(disk: seq<Byte>, at: nat, a: seq<Byte>, b: seq<Byte>)
    requires at + |a| + |b| <= |disk|
    ensures Write(disk, at, a + b) == Write(Write(disk, at, a), at + |a|, b)
  {
    var x := Write(disk, at, a);
    assert x[..at + |a|] == disk[..at] + a;
    assert x[at + |a| + |b|..] == disk[at + |a| + |b|..];
  }

  /** Writes the cached ones of the blocks a..b, one by one. */
  function WriteBlocks(disk: seq<Byte>, blocks: seq<Block>, bs: nat, a: nat, b: nat): (r: seq<Byte>)
    requires Sized(blocks, |disk|, bs) && a <= b <= |blocks|
    ensures |r| == |disk|
    decreases b
  {
    if a == b then disk else
    var d := WriteBlocks(disk, blocks, bs, a, b - 1);
    BlockBounds(|disk|, bs, b - 1);
    if blocks[b - 1].Cached? then Write(d, (b - 1) * bs, Data(blocks, |disk|, bs, b - 1)) else d
  }

  lemma WriteSlice(disk: seq<Byte>, bs: nat, j: nat, data: seq<Byte>, k: nat)
    requires bs > 0 && j < BlocksIn(|disk|, bs) && k < BlocksIn(|disk|, bs) && j * bs + |data| == EndOf(|disk|, bs, j)
    ensures EndOf(|disk|, bs, j) <= |disk|
    ensures Slice(Write(disk, j * bs, data), bs, k) == if k == j then data else Slice(disk, bs, k)
  {
    BlockBounds(|disk|, bs, j);
    BlockBounds(|disk|, bs, k);
    if j < k { BlocksApart(|disk|, bs, j, k); }
    if k < j { BlocksApart(|disk|, bs, k, j); }
    SliceOfWrite(disk, j * bs, data, k * bs, EndOf(|disk|, bs, k), k == j);
  }

  lemma SliceOfWrite(disk: seq<Byte>, at: nat, data: seq<Byte>, a: nat, b: nat, same: bool)
    requires at + |data| <= |disk| && a <= b <= |disk|
    requires if same then a == at && b == at + |data| else b <= at || at + |data| <= a
    ensures Write(disk, at, data)[a..b] == if same then data else disk[a..b]
  {}

  /** Each cached block in the range gets to its place on the disk; all else stays. */
  lemma {:induction false} WriteBlocksSlices(disk: seq<Byte>, blocks: seq<Block>, bs: nat, a: nat, b: nat, k: nat)
    requires Sized(blocks, |disk|, bs) && a <= b <= |blocks| && k < |blocks|
    ensures Slice(WriteBlocks(disk, blocks, bs, a, b), bs, k)
      == if a <= k < b && blocks[k].Cached? then Data(blocks, |disk|, bs, k) else Slice(disk, bs, k)
    decreases b
  {
    if a < b {
      WriteBlocksSlices(disk, blocks, bs, a, b - 1, k);
      if blocks[b - 1].Cached? {
        WriteSlice(WriteBlocks(disk, blocks, bs, a, b - 1), bs, b - 1, Data(blocks, |disk|, bs, b - 1), k);
      }
    }
  }

  /** The bytes of the blocks a..b, all of them cached, one behind the other. */
  function Run(blocks: seq<Block>, size: nat, bs: nat, a: nat, b: nat): (r: seq<Byte>)
    requires Sized(blocks, size, bs) && a <= b <= |blocks| && AllCached(blocks, a, b)
    decreases b
  {
    if a == b then [] else Run(blocks, size, bs, a, b - 1) + Data(blocks, size, bs, b - 1)
  }

  predicate AllCached(blocks: seq<Block>, a: nat, b: nat)
    requires a <= b <= |blocks|
  {
    forall k :: a <= k < b ==> blocks[k].Cached?
  }

  /** Where a run of blocks ends. */
  function RunEnd(size: nat, bs: nat, b: nat): nat { if b * bs < size then b * bs else size }

  lemma {:induction false} RunLength(blocks: seq<Block>, size: nat, bs: nat, a: nat, b: nat)
    requires Sized(blocks, size, bs) && a <= b <= |blocks| && AllCached(blocks, a, b)
    ensures a < b ==> a * bs + |Run(blocks, size, bs, a, b)| == EndOf(size, bs, b - 1) == RunEnd(size, bs, b)
    decreases b
  {
    if a < b {
      RunLength(blocks, size, bs, a, b - 1);
      BlockBounds(size, bs, b - 1);
      if a < b - 1 { BlockBounds(size, bs, b - 2); }
    }
  }

  /** Writing a run in one go is writing its blocks one by one. */
  lemma {:induction false} RunWrites(disk: seq<Byte>, blocks: seq<Block>, bs: nat, a: nat, b: nat)
    requires Sized(blocks, |disk|, bs) && a < b <= |blocks| && AllCached(blocks, a, b)
    ensures a * bs + |Run(blocks, |disk|, bs, a, b)| <= |disk|
    ensures Write(disk, a * bs, Run(blocks, |disk|, bs, a, b)) == WriteBlocks(disk, blocks, bs, a, b)
    decreases b
  {
    RunLength(blocks, |disk|, bs, a, b);
    BlockBounds(|disk|, bs, b - 1);
    var last := Data(blocks, |disk|, bs, b - 1);
    if a < b - 1 {
      RunWrites(disk, blocks, bs, a, b - 1);
      RunLength(blocks, |disk|, bs, a, b - 1);
      BlockBounds(|disk|, bs, b - 2);
      WriteTwice(disk, a * bs, Run(blocks, |disk|, bs, a, b - 1), last);
    } else {
      assert Run(blocks, |disk|, bs, a, b) == [] + last == last;
    }
  }

  // ---------------------------------------------------------------- counting

  function Count(blocks: seq<Block>): nat {
    if blocks == [] then 0 else Count(blocks[..|blocks| - 1]) + if blocks[|blocks| - 1].Cached? then 1 else 0
  }

  /** The cached blocks among a..b. */
  function CachedIn(blocks: seq<Block>, a: nat, b: nat): seq<nat>
    requires a <= b <= |blocks|
    decreases b
  {
    if a == b then [] else if blocks[b - 1].Cached? then CachedIn(blocks, a, b - 1) + [b - 1]
      else CachedIn(blocks, a, b - 1)
  }

  /** The blocks a..b are gone. */
  function Cleared(blocks: seq<Block>, a: nat, b: nat): (r: seq<Block>)
    requires a <= b <= |blocks|
    ensures |r| == |blocks| && forall k :: 0 <= k < |r| ==> r[k] == if a <= k < b then Empty else blocks[k]
  {
    seq(|blocks|, k requires 0 <= k < |blocks| => if a <= k < b then Empty else blocks[k])
  }

  lemma {:induction false} ClearOne(blocks: seq<Block>, k: nat)
    requires k < |blocks|
    ensures Count(blocks[k := Empty]) == Count(blocks) - if blocks[k].Cached? then 1 else 0
  {
    var m := blocks[..|blocks| - 1];
    if k < |blocks| - 1 {
      ClearOne(m, k);
      assert blocks[k := Empty][..|blocks| - 1] == m[k := Empty];
    } else {
      assert blocks[k := Empty][..|blocks| - 1] == m;
    }
  }

  lemma {:induction false} ClearCount(blocks: seq<Block>, a: nat, b: nat)
    requires a <= b <= |blocks|
    ensures Count(Cleared(blocks, a, b)) == Count(blocks) - |CachedIn(blocks, a, b)|
    decreases b
  {
    if a == b {
      assert Cleared(blocks, a, b) == blocks;
    } else {
      ClearCount(blocks, a, b - 1);
      ClearOne(Cleared(blocks, a, b - 1), b - 1);
      assert Cleared(blocks, a, b) == Cleared(blocks, a, b - 1)[b - 1 := Empty];
    }
  }

  /** Flushing a range of blocks leaves every view as it was. */
  lemma FlushKeepsView(disk: seq<Byte>, blocks: seq<Block>, bs: nat, a: nat, b: nat, k: nat)
    requires Sized(blocks, |disk|, bs) && a <= b <= |blocks| && k < |blocks|
    ensures View(Cleared(blocks, a, b), WriteBlocks(disk, blocks, bs, a, b), bs, k) == View(blocks, disk, bs, k)
  {
    WriteBlocksSlices(disk, blocks, bs, a, b, k);
  }
}
