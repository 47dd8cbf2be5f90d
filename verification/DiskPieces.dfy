/** Pieces in the caches: their counters, what changes them, and requests for their bytes. */
module DiskPieces {
  import BitArith
  import opened DiskBlocks
  import opened DiskFlush
  import opened DiskEvict
  import opened DiskFill
  import opened DiskCache

  /** The counters of a piece in the read cache are exact. */
  ghost predicate Counted(p: Piece, disks: Disks, bs: nat) {
    p.id in disks && Sized(p.blocks, |disks[p.id]|, bs) && p.numBlocks == Count(p.blocks)
  }

  ghost predicate AllCounted(ps: seq<Piece>, disks: Disks, bs: nat) {
    && (forall i :: 0 <= i < |ps| ==> Counted(ps[i], disks, bs))
    && (forall i, j :: 0 <= i < j < |ps| ==> ps[i].id != ps[j].id)
  }

  /** Blocks of the read cache hold what is on disk. */
  ghost predicate Faithful(p: Piece, disks: Disks, bs: nat)
    requires Counted(p, disks, bs)
  {
    AllHold(p.blocks, disks[p.id], bs)
  }

  ghost predicate AllFaithful(ps: seq<Piece>, disks: Disks, bs: nat)
    requires AllCounted(ps, disks, bs)
  {
    forall i :: 0 <= i < |ps| ==> Faithful(ps[i], disks, bs)
  }

  /** The pieces there are. */
  function Ids(ps: seq<Piece>): set<nat> { set i | 0 <= i < |ps| :: ps[i].id }

  lemma IdsShrink(ps: seq<Piece>, i: nat, q: Piece)
    requires i < |ps| && q.id == ps[i].id
    ensures Ids(ps[i := q]) <= Ids(ps) && Ids(Erase(ps[i := q], i)) <= Ids(ps)
  {
    var a, b := ps[i := q], Erase(ps[i := q], i);
    forall j | 0 <= j < |a| ensures a[j].id in Ids(ps) { assert a[j].id == ps[j].id; }
    forall j | 0 <= j < |b| ensures b[j].id in Ids(ps) {
      var k := if j < i then j else j + 1;
      assert b[j] == ps[k];
    }
  }

  /** Nothing but blocks has been taken away. */
  predicate Thinned(p: Piece, q: Piece) {
    q.id == p.id && |q.blocks| == |p.blocks| && forall k :: 0 <= k < |p.blocks| ==>
      q.blocks[k].Empty? || q.blocks[k] == p.blocks[k]
  }

  /** A piece after the blocks start..end of it have been flushed. */
  ghost predicate FlushedTo(p: Piece, q: Piece, start: nat, end: nat)
    requires start <= end <= |p.blocks|
  {
    && q.id == p.id && q.expire == p.expire && q.blocks == Cleared(p.blocks, start, end)
    && q.numBlocks == p.numBlocks - |CachedIn(p.blocks, start, end)|
      && q.nextHash == Hashed(p.blocks, start, end, p.nextHash)
    && (Longest(p.blocks, p.numContiguous) ==> Longest(q.blocks, q.numContiguous))
  }

  /** The range of blocks that a flush covers. */
  function From(p: Piece, start: nat): nat { Min(start, |p.blocks|) }
  function To(p: Piece, start: nat, end: nat): nat {
    if start < Min(end, |p.blocks|) then Min(end, |p.blocks|) else From(p, start)
  }

  lemma ClearedNothing(blocks: seq<Block>, a: nat, b: nat)
    requires a <= b <= |blocks| && CachedIn(blocks, a, b) == []
    ensures Cleared(blocks, a, b) == blocks
    decreases b
  {
    if a < b { ClearedNothing(blocks, a, b - 1); }
  }

  lemma ClearedSized(blocks: seq<Block>, size: nat, bs: nat, a: nat, b: nat)
    requires Sized(blocks, size, bs) && a <= b <= |blocks|
    ensures Sized(Cleared(blocks, a, b), size, bs)
  {}

  /** The cache settings: the size of the cache and of a cache line in blocks, whether only explicit requests are
      cached, and whether blocks are dropped once they are read. */
  datatype Settings = Settings(limit: int, lineSize: int, explicitCache: bool, volatile: bool)

  lemma Refind(ps: seq<Piece>, j: nat, p: Piece)
    requires p in ps && j == Find(ps, p.id) && forall a, b :: 0 <= a < b < |ps| ==> ps[a].id != ps[b].id
    ensures j < |ps| && ps[j] == p
  {
    FoundSole(ps, j, p);
  }

  lemma FoundSole(ps: seq<Piece>, j: nat, p: Piece)
    requires p in ps && j <= |ps| && (j < |ps| ==> ps[j].id == p.id) && forall i :: 0 <= i < j ==> ps[i].id != p.id
    requires forall a, b :: 0 <= a < b < |ps| ==> ps[a].id != ps[b].id
    ensures j < |ps| && ps[j] == p
  {
    var k :| 0 <= k < |ps| && ps[k] == p;
  }

  /** Enough bytes have been read only if the last block of the request was among those read. */
  lemma EnoughRead(total: nat, bs: nat, offset: nat, size: nat, end: nat, ret: nat)
    requires 0 < size <= bs && offset + size <= total && FirstBlock(offset, bs) < end <= BlocksIn(total, bs)
    requires FirstBlock(offset, bs) * bs + ret == EndOf(total, bs, end - 1) && ret >= size + offset % bs
    ensures LastBlock(offset, size, bs) < end
  {
    var first := FirstBlock(offset, bs);
    Distribute(first, bs);
    BlockBounds(total, bs, end - 1);
  }

  /** The last block of a request is that of its last byte. */
  lemma RequestEnds(bs: nat, offset: nat, size: nat)
    requires 0 < size <= bs
    ensures FirstBlock(offset, bs) == offset / bs && LastBlock(offset, size, bs) == (offset + size - 1) / bs
  {
    var q, r := offset / bs, offset % bs;
    assert offset == q * bs + r;
    if r + size - 1 < bs {
      BitArith.DivUnique(offset + size - 1, bs, q, r + size - 1);
    } else {
      Distribute(q, bs);
      BitArith.DivUnique(offset + size - 1, bs, q + 1, r + size - 1 - bs);
    }
  }

  /** If it was, enough bytes have been read. */
  lemma ReadEnough(total: nat, bs: nat, offset: nat, size: nat, end: nat, ret: nat)
    requires 0 < size <= bs && offset + size <= total && LastBlock(offset, size, bs) < end <= BlocksIn(total, bs)
    requires FirstBlock(offset, bs) * bs + ret == EndOf(total, bs, end - 1)
    ensures ret >= size + offset % bs
  {
    RequestBlocks(total, bs, offset, size);
    MulMonotone(LastBlock(offset, size, bs) + 1, end, bs);
    BlockBounds(total, bs, end - 1);
  }

  /** The first block that a request covers, and the last one of a request no larger than a block. */
  function FirstBlock(offset: nat, bs: nat): nat
    requires bs > 0
  {
    BitArith.DivNonNegative(offset, bs);
    offset / bs
  }

  function LastBlock(offset: nat, size: nat, bs: nat): nat
    requires bs > 0
  {
    if offset % bs > 0 && size > bs - offset % bs then FirstBlock(offset, bs) + 1 else FirstBlock(offset, bs)
  }

  lemma BlockOf(total: nat, bs: nat, offset: nat)
    requires bs > 0 && offset < total
    ensures FirstBlock(offset, bs) < BlocksIn(total, bs)
  {
    DivBounds(offset, bs);
    DivBounds(total + bs - 1, bs);
    var n, b := BlocksIn(total, bs), FirstBlock(offset, bs);
    Distribute(n, bs);
    if n <= b { MulMonotone(n, b, bs); }
  }

  lemma RequestBlocks(total: nat, bs: nat, offset: nat, size: nat)
    requires 0 < size <= bs && offset + size <= total
    ensures FirstBlock(offset, bs) <= LastBlock(offset, size, bs) < BlocksIn(total, bs)
    ensures FirstBlock(offset, bs) * bs + offset % bs == offset
      && LastBlock(offset, size, bs) * bs < offset + size <= (LastBlock(offset, size, bs) + 1) * bs
  {
    var b := FirstBlock(offset, bs);
    DivBounds(offset, bs);
    DivBounds(total + bs - 1, bs);
    Distribute(b, bs);
    Distribute(b + 1, bs);
    var n, last := BlocksIn(total, bs), LastBlock(offset, size, bs);
    Distribute(n, bs);
    if n <= last { MulMonotone(n, last, bs); }
  }

  /** What an operation finds: buffers in use elsewhere, allocations that will succeed, and whether the disk can
      be read. */
  datatype World = World(others: nat, allocations: nat, readOk: bool, now: int)

  /** How far blocks get buffers, from block e on: up to the number asked for, while there is room. Blocks that have one
      get another in its place. */
  function ReadEnd(blocks: seq<Block>, e: nat, num: nat, room: int): (r: nat)
    requires e <= |blocks|
    ensures e <= r <= |blocks| && r - e <= num && (r == e <==> e == |blocks| || num == 0 || room <= 0)
    ensures room >= num ==> r == Min(|blocks|, e + num)
    decreases |blocks| - e
  {
    if e == |blocks| || num == 0 || room <= 0 then e
    else ReadEnd(blocks, e + 1, num - 1, if blocks[e].Cached? then room else room - 1)
  }

  /** From block e on, buffers are given up to block goal. */
  predicate Heading(goal: nat, blocks: seq<Block>, e: nat, num: nat, room: int) {
    e <= |blocks| && goal == ReadEnd(blocks, e, num, room)
  }

  lemma HeadingOn(goal: nat, blocks: seq<Block>, e: nat, num: nat, room: int)
    requires Heading(goal, blocks, e, num, room) && e < |blocks| && num > 0 && room > 0
    ensures true == Heading(goal, blocks, e + 1, num - 1, if blocks[e].Cached? then room else room - 1) && goal > e
  {}

  lemma HeadingEnds(goal: nat, blocks: seq<Block>, e: nat, num: nat, room: int)
    requires Heading(goal, blocks, e, num, room) && (e == |blocks| || num == 0 || room <= 0)
    ensures goal == e
  {}

  /** Room for more buffers, if the size of the cache matters. */
  function RoomFor(ignoreSize: bool, blocks: nat, free: int): int { if ignoreSize then blocks + 1 else free }

  /** The blocks start..end have got buffers. */
  predicate Allocated(before: seq<Block>, after: seq<Block>, start: nat, end: nat) {
    && start <= end <= |after| == |before|
    && forall k :: 0 <= k < |after| ==> if start <= k < end then after[k].Cached? else after[k] == before[k]
  }

  lemma AllocatedMore(before: seq<Block>, given: seq<Block>, after: seq<Block>, start: nat, end: nat)
    requires Allocated(before, given, start, end) && end < |given|
    requires exists data :: after == given[end := Cached(data)]
    ensures true == Allocated(before, after, start, end + 1) && given[end] == before[end]
  {}

  /** All pieces but one hold what is on disk. */
  ghost predicate OthersFaithful(ps: seq<Piece>, i: nat, disks: Disks, bs: nat)
    requires AllCounted(ps, disks, bs)
  {
    forall j :: 0 <= j < |ps| && j != i ==> Faithful(ps[j], disks, bs)
  }

  lemma OthersFaithfulKept(ps: seq<Piece>, ps': seq<Piece>, i: nat, disks: Disks, bs: nat)
    requires AllCounted(ps, disks, bs) && AllCounted(ps', disks, bs) && AllFaithful(ps, disks, bs)
    requires i < |ps| == |ps'| && ps' == ps[i := ps'[i]]
    ensures OthersFaithful(ps', i, disks, bs)
  {
    forall j | 0 <= j < |ps'| && j != i ensures Faithful(ps'[j], disks, bs) { assert Faithful(ps[j], disks, bs); }
  }

  lemma FaithfulAgain(ps: seq<Piece>, ps': seq<Piece>, i: nat, disks: Disks, bs: nat)
    requires AllCounted(ps, disks, bs) && AllCounted(ps', disks, bs)
    requires i < |ps| == |ps'| && ps' == ps[i := ps'[i]] && Faithful(ps'[i], disks, bs)
    ensures OthersFaithful(ps, i, disks, bs) ==> AllFaithful(ps', disks, bs)
  {
    if OthersFaithful(ps, i, disks, bs) {
      forall j | 0 <= j < |ps'| ensures Faithful(ps'[j], disks, bs) { assert j != i ==> Faithful(ps[j], disks, bs); }
    }
  }

  lemma ReplaceOk(ps: seq<Piece>, i: nat, q: Piece, disks: Disks, bs: nat)
    requires AllCounted(ps, disks, bs) && i < |ps| && q.id == ps[i].id && Counted(q, disks, bs)
    ensures AllCounted(ps[i := q], disks, bs) && Total(ps[i := q]) == Total(ps) - Count(ps[i].blocks) + Count(q.blocks)
  {
    TotalUpdate(ps, i, q);
  }

  lemma {:induction false} SetOne(blocks: seq<Block>, k: nat, b: Block)
    requires k < |blocks| && b.Cached?
    ensures Count(blocks[k := b]) == Count(blocks) + if blocks[k].Cached? then 0 else 1
  {
    ClearOne(blocks, k);
    ClearOne(blocks[k := b], k);
    assert blocks[k := b][k := Empty] == blocks[k := Empty];
  }

  /** How many bytes the blocks start..end have. */
  lemma ReadSize(size: nat, bs: nat, start: nat, end: nat)
    requires bs > 0 && start < end <= BlocksIn(size, bs)
    ensures start * bs < size && start * bs + Min((end - start) * bs, size - start * bs) == EndOf(size, bs, end - 1)
  {
    LengthIs(size, bs, start);
    BlockBounds(size, bs, end - 1);
    OffsetIs(start, end, bs);
  }

  lemma FilledHold(before: seq<Block>, given: seq<Block>, after: seq<Block>, disk: seq<Byte>, bs: nat, start: nat,
    end: nat)
    requires Sized(before, |disk|, bs) && AllHold(before, disk, bs) && Allocated(before, given, start, end)
    requires Filled(given, after, disk, bs, start, end)
    ensures AllHold(after, disk, bs) && AllCached(after, start, end) && Count(after) == Count(given)
  {
    forall k | 0 <= k < |after| && after[k].Cached? ensures Data(after, |disk|, bs, k) == Slice(disk, bs, k) {
      assert start <= k < end ==> Holds(after, disk, bs, k);
    }
    assert forall k :: 0 <= k < |after| ==> (after[k].Cached? <==> given[k].Cached?) by {
      forall k | start <= k < end ensures after[k].Cached? { assert Holds(after, disk, bs, k); }
    }
    SameCount(given, after);
  }

  lemma {:induction false} SameCount(p: seq<Block>, q: seq<Block>)
    requires |p| == |q| && forall k :: 0 <= k < |p| ==> (p[k].Cached? <==> q[k].Cached?)
    ensures Count(p) == Count(q)
  {
    if p != [] { SameCount(p[..|p| - 1], q[..|q| - 1]); }
  }

  datatype Option = None | Some(id: nat)

  /** The first piece that may be touched. */
  function Oldest(ps: seq<Piece>, ignore: Option): nat { if ps != [] && ignore == Some(ps[0].id) then 1 else 0 }

  /** The counters after a piece of the read cache has been thinned. */
  lemma ThinnedOk(ps: seq<Piece>, i: nat, q: Piece, disks: Disks, bs: nat)
    requires AllCounted(ps, disks, bs) && i < |ps| && Thinned(ps[i], q) && q.numBlocks == Count(q.blocks)
    ensures AllCounted(ps[i := q], disks, bs) && (AllFaithful(ps, disks, bs) ==> AllFaithful(ps[i := q], disks, bs))
    ensures Total(ps[i := q]) == Total(ps) - Count(ps[i].blocks) + Count(q.blocks)
  {
    var ps' := ps[i := q];
    forall j | 0 <= j < |ps'| ensures Counted(ps'[j], disks, bs) { assert Counted(ps[j], disks, bs); }
    if AllFaithful(ps, disks, bs) {
      forall j | 0 <= j < |ps'| ensures Faithful(ps'[j], disks, bs) { assert Faithful(ps[j], disks, bs); }
    }
    TotalUpdate(ps, i, q);
  }

  lemma EraseCounted(ps: seq<Piece>, i: nat, disks: Disks, bs: nat)
    requires AllCounted(ps, disks, bs) && i < |ps|
    ensures AllCounted(Erase(ps, i), disks, bs) && (AllFaithful(ps, disks, bs) ==> AllFaithful(Erase(ps, i), disks, bs))
    ensures Total(Erase(ps, i)) == Total(ps) - Count(ps[i].blocks)
  {
    TotalErase(ps, i);
    var ps' := Erase(ps, i);
    forall j | 0 <= j < |ps'| ensures Counted(ps'[j], disks, bs) { EraseAt(ps, i, j); }
    EraseDistinct(ps, i);
    if AllFaithful(ps, disks, bs) {
      forall j | 0 <= j < |ps'| ensures Faithful(ps'[j], disks, bs) { EraseAt(ps, i, j); }
    }
  }

  /** Where the pieces that stay come from. */
  lemma EraseAt(ps: seq<Piece>, i: nat, j: nat)
    requires i < |ps| && j < |ps| - 1
    ensures Erase(ps, i)[j] == ps[if j < i then j else j + 1]
  {}

  lemma EraseDistinct(ps: seq<Piece>, i: nat)
    requires i < |ps| && forall a, b :: 0 <= a < b < |ps| ==> ps[a].id != ps[b].id
    ensures var ps' := Erase(ps, i); forall a, b :: 0 <= a < b < |ps'| ==> ps'[a].id != ps'[b].id
  {
    var ps' := Erase(ps, i);
    forall a, b | 0 <= a < b < |ps'| ensures ps'[a].id != ps'[b].id {
      EraseAt(ps, i, a);
      EraseAt(ps, i, b);
    }
  }

  /** Other pieces stay where they are found. */
  lemma OthersStay(ps: seq<Piece>, i: nat, q: Piece, x: Piece)
    requires i < |ps| && x in ps && x.id != ps[i].id && q.id == ps[i].id
    ensures x in ps[i := q] && x in Erase(ps[i := q], i)
  {
    var j :| 0 <= j < |ps| && ps[j] == x;
    assert ps[i := q][j] == x;
    assert Erase(ps[i := q], i)[if j < i then j else j - 1] == x;
  }

  /** All blocks go. */
  method Drain(blocks: seq<Block>) returns (left: seq<Block>, freed: nat)
    ensures freed == Count(blocks) && Count(left) == 0 && left == Cleared(blocks, 0, |blocks|)
  {
    var gone;
    left, gone := Release(blocks, 0, |blocks|);
    freed := |gone|;
    ClearedAll(blocks);
    ClearCount(blocks, 0, |blocks|);
  }

  /** The first piece among those with the longest runs. */
  method MostContiguous(ps: seq<Piece>) returns (m: nat)
    requires ps != []
    ensures m < |ps| && forall j :: 0 <= j < |ps| ==> ps[j].numContiguous <= ps[m].numContiguous
  {
    m := 0;
    for i := 1 to |ps|
      invariant m < i && forall j :: 0 <= j < i ==> ps[j].numContiguous <= ps[m].numContiguous
    {
      if ps[m].numContiguous < ps[i].numContiguous { m := i; }
    }
  }

  lemma EraseFirst(ps: seq<Piece>, disks: Disks, i: nat, bs: nat)
    requires bs > 0 && PiecesOk(ps, disks, bs) && i < |ps| && Count(ps[i].blocks) == 0
    ensures PiecesOk(Erase(ps, i), disks, bs) && SameView(ps, disks, Erase(ps, i), disks, bs)
      && Total(Erase(ps, i)) == Total(ps)
  {
    EraseSame(ps, disks, i, bs);
    TotalErase(ps, i);
  }

  lemma LongestUnique(blocks: seq<Block>, m: nat, n: nat)
    requires Longest(blocks, m) && Longest(blocks, n)
    ensures m == n
  {}

  lemma {:induction false} CachedRun(blocks: seq<Block>, a: nat, b: nat)
    requires a <= b <= |blocks| && AllCached(blocks, a, b)
    ensures |CachedIn(blocks, a, b)| == b - a
    decreases b
  {
    if a < b { CachedRun(blocks, a, b - 1); }
  }

  lemma ClearedAll(blocks: seq<Block>)
    ensures Count(Cleared(blocks, 0, |blocks|)) == 0
  {
    AllEmpty(Cleared(blocks, 0, |blocks|));
  }

  lemma {:induction false} AllEmpty(blocks: seq<Block>)
    requires forall k :: 0 <= k < |blocks| ==> blocks[k].Empty?
    ensures Count(blocks) == 0
  {
    if blocks != [] { AllEmpty(blocks[..|blocks| - 1]); }
  }

  /** A piece with cached blocks has a run. */
  lemma {:induction false} LongestPositive(blocks: seq<Block>, n: nat)
    requires Longest(blocks, n)
    ensures Count(blocks) > 0 ==> n > 0
  {
    if n == 0 {
      forall k | 0 <= k < |blocks| ensures blocks[k].Empty? {
        if blocks[k].Cached? { assert AllCached(blocks, k, k + 1); }
      }
      AllEmpty(blocks);
    }
  }

  lemma SameSizes(ps: seq<Piece>, disks: Disks, disks': Disks, bs: nat)
    requires AllCounted(ps, disks, bs) && disks'.Keys == disks.Keys && forall id ::
      id in disks ==> |disks'[id]| == |disks[id]|
    ensures AllCounted(ps, disks', bs)
  {
    forall i | 0 <= i < |ps| ensures Counted(ps[i], disks', bs) { assert Counted(ps[i], disks, bs); }
  }

  lemma FlushedOk(p: Piece, q: Piece, disks: Disks, bs: nat, a: nat, b: nat, disk: seq<Byte>, ps: seq<Piece>, i: nat)
    requires bs > 0 && PiecesOk(ps, disks, bs) && i < |ps| && p == ps[i] && PieceOk(p, disks, bs)
    requires a <= b <= |p.blocks| && disk == WriteBlocks(disks[p.id], p.blocks, bs, a, b)
    requires q.id == p.id && q.blocks == Cleared(p.blocks, a, b)
      && q.numBlocks == p.numBlocks - |CachedIn(p.blocks, a, b)|
    requires (Longest(q.blocks, q.numContiguous)
      || (CachedIn(p.blocks, a, b) == [] && q.numContiguous == p.numContiguous))
    ensures Count(q.blocks) == Count(p.blocks) - |CachedIn(p.blocks, a, b)| && Longest(q.blocks, q.numContiguous)
    ensures PiecesOk(ps[i := q], disks[p.id := disk], bs) && SameView(ps, disks, ps[i := q], disks[p.id := disk], bs)
  {
    ClearCount(p.blocks, a, b);
    ClearedSized(p.blocks, |disks[p.id]|, bs, a, b);
    if CachedIn(p.blocks, a, b) == [] { ClearedNothing(p.blocks, a, b); }
    forall k | 0 <= k < |q.blocks| ensures View(q.blocks, disk, bs, k) == View(p.blocks, disks[p.id], bs, k) {
      FlushKeepsView(disks[p.id], p.blocks, bs, a, b, k);
    }
    UpdateSame(ps, disks, i, q, disk, bs);
  }
}
