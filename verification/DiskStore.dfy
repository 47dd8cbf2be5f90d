/** The operations of the block cache. */
module DiskStore {
  import BitArith
  import opened DiskBlocks
  import opened DiskFlush
  import opened DiskEvict
  import opened DiskFill
  import opened DiskCache
  import opened DiskPieces
  import opened DiskInsert
  import opened DiskRoom

  class BlockCache {
    const bs: nat
    const coalesce: bool
    var disks: Disks
    var pieces: seq<Piece>
    var readPieces: seq<Piece>
    var cacheSize: int
    var readCacheSize: int
    var diskReads: nat

    constructor (bs: nat, coalesce: bool, disks: Disks)
      requires bs > 0
      ensures true == Valid() && this.bs == bs && this.disks == disks && pieces == [] && readPieces == []
    {
      this.bs, this.coalesce, this.disks := bs, coalesce, disks;
      pieces, readPieces, cacheSize, readCacheSize, diskReads := [], [], 0, 0, 0;
    }

    /** All counters equal the true counts, and pieces are in the order in which they may go. */
    ghost predicate Valid()
      reads this
    {
      Sane(pieces, readPieces, disks, bs, cacheSize, readCacheSize)
    }

    /** Writes the cached blocks of a range to disk and drops them; returns how many, and which. */
    method FlushRange(i: nat, start: nat, end: nat) returns (ret: nat, posted: seq<nat>)
      requires true == Valid() && i < |pieces| && start < end
      modifies this`disks, this`pieces, this`cacheSize
      ensures true == Valid()
      ensures var p := old(pieces[i]);
        && posted == CachedIn(p.blocks, From(p, start), To(p, start, end)) && ret == |posted|
        && |pieces| == |old(pieces)| && pieces == old(pieces)[i := pieces[i]]
          && true == FlushedTo(p, pieces[i], From(p, start), To(p, start, end))
        && disks == old(disks)[p.id := WriteBlocks(old(disks)[p.id], p.blocks, bs, From(p, start), To(p, start, end))]
      ensures cacheSize == old(cacheSize) - ret
      ensures true == SameView(old(pieces), old(disks), pieces, disks, bs)
    {
      ghost var ps, ds, p := pieces, disks, pieces[i];
      assert PieceOk(p, disks, bs);
      var q, disk;
      q, disk, posted := WriteOut(pieces[i], start, end);
      ret := |posted|;
      FlushedOk(p, q, disks, bs, From(p, start), To(p, start, end), disk, pieces, i);
      TotalUpdate(pieces, i, q);
      UpdateByExpiry(pieces, i, q);
      disks, pieces := disks[q.id := disk], pieces[i := q];
      SameSizes(readPieces, ds, disks, bs);
      cacheSize := cacheSize - ret;
      assert Valid();
    }

    /** Writes the cached blocks of a range of a piece, and gives the piece without them. */
    method WriteOut(p: Piece, start: nat, end: nat) returns (q: Piece, disk: seq<Byte>, posted: seq<nat>)
      requires bs > 0 && PieceOk(p, disks, bs) && start < end
      ensures disk == WriteBlocks(disks[p.id], p.blocks, bs, From(p, start), To(p, start, end))
      ensures posted == CachedIn(p.blocks, From(p, start), To(p, start, end))
      ensures true == FlushedTo(p, q, From(p, start), To(p, start, end))
      ensures q == p.(blocks := q.blocks, numBlocks := q.numBlocks, nextHash := q.nextHash,
        numContiguous := q.numContiguous)
      ensures Longest(q.blocks, q.numContiguous)
        || (posted == [] && q.numContiguous == p.numContiguous)
    {
      var from, to := From(p, start), To(p, start, end);
      var f := new Flusher(bs, coalesce, p.blocks, disks[p.id]);
      var count, hash := f.WriteAll(from, to, p.nextHash);
      var left;
      left, posted := Release(p.blocks, from, to);
      q := p.(blocks := left, numBlocks := p.numBlocks - count, nextHash := hash);
      if |posted| > 0 {
        var _, n := LongestRun(left);
        q := q.(numContiguous := n);
      } else {
        ClearedNothing(p.blocks, from, to);
      }
      disk := f.disk;
    }

    /** Flushes the longest run of blocks of a piece; does nothing only if there is none. */
    method FlushContiguous(i: nat, lowerLimit: int) returns (ret: nat)
      requires true == Valid() && i < |pieces|
      modifies this`disks, this`pieces, this`cacheSize
      ensures true == Valid() && |pieces| == |old(pieces)| && pieces == old(pieces)[i := pieces[i]]
        && pieces[i].id == old(pieces[i].id)
      ensures cacheSize == old(cacheSize) - ret && true == SameView(old(pieces), old(disks), pieces, disks, bs)
      ensures ret == if old(pieces[i]).numContiguous < lowerLimit then 0 else old(pieces[i]).numContiguous
      ensures pieces[i].numBlocks == old(pieces[i]).numBlocks - ret
    {
      assert PieceOk(pieces[i], disks, bs);
      var pos, len := LongestRun(pieces[i].blocks);
      LongestUnique(pieces[i].blocks, len, pieces[i].numContiguous);
      if len < lowerLimit || len <= 0 { return 0; }
      ghost var p := pieces[i];
      CachedRun(p.blocks, pos, pos + len);
      assert From(p, pos) == pos && To(p, pos, pos + len) == pos + len;
      var posted;
      ret, posted := FlushRange(i, pos, pos + len);
      assert ret == len && pieces[i].id == p.id && pieces[i].numBlocks == p.numBlocks - len;
    }

    /** Flushes whole pieces, the least recently used first, until enough blocks are freed. */
    method FlushLru(asked: int) returns (ret: nat, ghost gone: nat)
      requires true == Valid()
      modifies this`disks, this`pieces, this`cacheSize
      ensures true == Valid() && true == SameView(old(pieces), old(disks), pieces, disks, bs)
      ensures cacheSize == old(cacheSize) - ret && (ret >= asked || pieces == [])
      ensures gone <= |old(pieces)| && pieces == old(pieces)[gone..]
    {
      ret, gone := 0, 0;
      var blocks := asked;
      while blocks > 0
        invariant true == Valid() && true == SameView(old(pieces), old(disks), pieces, disks, bs)
        invariant cacheSize == old(cacheSize) - ret && blocks == asked - ret
        invariant gone <= |old(pieces)| && pieces == old(pieces)[gone..]
        decreases |pieces|
      {
        if |pieces| == 0 { return; }
        var tmp := FlushOldest();
        gone := gone + 1;
        blocks := blocks - tmp;
        ret := ret + tmp;
      }
    }

    /** Flushes all of the first piece and forgets it. */
    method FlushOldest() returns (ret: nat)
      requires true == Valid() && |pieces| > 0
      modifies this`disks, this`pieces, this`cacheSize
      ensures true == Valid() && true == SameView(old(pieces), old(disks), pieces, disks, bs)
      ensures cacheSize == old(cacheSize) - ret && pieces == old(pieces)[1..]
    {
      var p := pieces[0];
      assert PieceOk(p, disks, bs);
      var posted;
      ret, posted := FlushRange(0, 0, |p.blocks| + 1);
      ClearedAll(p.blocks);
      EraseFirst(pieces, disks, 0, bs);
      EraseByExpiry(pieces, 0);
      SameViewTrans(old(pieces), old(disks), pieces, disks, Erase(pieces, 0), disks, bs);
      pieces := Erase(pieces, 0);
    }

    /** Flushes the longest runs first, until enough blocks are freed. */
    method FlushLargest(asked: int) returns (ret: nat)
      requires true == Valid()
      modifies this`disks, this`pieces, this`cacheSize
      ensures true == Valid() && true == SameView(old(pieces), old(disks), pieces, disks, bs)
      ensures cacheSize == old(cacheSize) - ret && (ret >= asked || pieces == [])
      ensures asked > 0 ==> forall p :: p in old(pieces) ==> p.numContiguous <= ret
    {
      ret := 0;
      var blocks := asked;
      while blocks > 0
        invariant true == Valid() && true == SameView(old(pieces), old(disks), pieces, disks, bs)
        invariant cacheSize == old(cacheSize) - ret && blocks == asked - ret
        invariant (blocks == asked && pieces == old(pieces)) || forall p :: p in old(pieces) ==> p.numContiguous <= ret
        decreases Total(pieces) + |pieces|
      {
        if |pieces| == 0 { return; }
        var i := MostContiguous(pieces);
        var tmp := FlushLongest(i);
        blocks := blocks - tmp;
        ret := ret + tmp;
      }
    }

    /** Flushes the longest run of a piece, and forgets the piece if that was all. */
    method FlushLongest(i: nat) returns (ret: nat)
      requires true == Valid() && i < |pieces|
      modifies this`disks, this`pieces, this`cacheSize
      ensures true == Valid() && true == SameView(old(pieces), old(disks), pieces, disks, bs)
      ensures cacheSize == old(cacheSize) - ret && Total(pieces) + |pieces| < Total(old(pieces)) + |old(pieces)|
      ensures ret == old(pieces[i]).numContiguous
    {
      assert PieceOk(pieces[i], disks, bs);
      LongestPositive(pieces[i].blocks, pieces[i].numContiguous);
      ret := FlushContiguous(i, 0);
      assert PieceOk(pieces[i], disks, bs);
      if pieces[i].numBlocks == 0 {
        EraseFirst(pieces, disks, i, bs);
        EraseByExpiry(pieces, i);
        SameViewTrans(old(pieces), old(disks), pieces, disks, Erase(pieces, i), disks, bs);
        pieces := Erase(pieces, i);
      }
    }

    /** Evicts up to n blocks of the least recently used piece of the read cache that may be touched. */
    method ClearOldestReadPiece(n: int, ignore: Option, now: int, volatile: bool) returns (freed: nat)
      requires true == Valid() && n >= 0
      modifies this`readPieces, this`cacheSize, this`readCacheSize
      ensures true == Valid() && cacheSize == old(cacheSize) - freed && readCacheSize == old(readCacheSize) - freed
        && freed <= n
      ensures AllFaithful(old(readPieces), disks, bs) ==> AllFaithful(readPieces, disks, bs)
      ensures forall p :: p in old(readPieces) && ignore == Some(p.id) ==> p in readPieces
      ensures Ids(readPieces) <= Ids(old(readPieces))
      ensures var c := Oldest(old(readPieces), ignore);
        if c == |old(readPieces)| || now < old(readPieces)[c].expire then freed == 0 && readPieces == old(readPieces)
        else freed == (if n < old(readPieces)[c].numBlocks then n else old(readPieces)[c].numBlocks)
      ensures var c := Oldest(old(readPieces), ignore);
        c < |old(readPieces)| && now >= old(readPieces)[c].expire ==>
          var p := old(readPieces)[c];
          && (n >= p.numBlocks ==> readPieces == Erase(old(readPieces), c))
          && (n < p.numBlocks ==>
               && c < |readPieces| && readPieces == old(readPieces)[c := readPieces[c]] && readPieces[c].id == p.id
               && true == EndsCleared(p.blocks, readPieces[c].blocks, n, volatile))
      ensures true == Reduced(old(readPieces), readPieces)
      ensures freed == 0 < n && Solid(old(readPieces), ignore) ==> true == Drained(readPieces, ignore, now)
    {
      var i := 0;
      if |readPieces| == 0 { return 0; }
      if ignore == Some(readPieces[0].id) {
        i := i + 1;
        if i == |readPieces| { return 0; }
      }
      var p := readPieces[i];
      assert Counted(p, disks, bs);
      if now < p.expire {
        OldestStays(readPieces, ignore, now);
        return 0;
      }
      freed := Evict(i, n, volatile);
      assert OneEvicted(old(readPieces), readPieces, p.id, disks, bs);
    }

    /** Evicts up to n blocks of a piece of the read cache; forgets the piece if none is left. */
    method Evict(i: nat, n: int, volatile: bool) returns (freed: nat)
      requires true == Valid() && n >= 0 && i < |readPieces|
      modifies this`readPieces, this`cacheSize, this`readCacheSize
      ensures true == Valid() && cacheSize == old(cacheSize) - freed && readCacheSize == old(readCacheSize) - freed
      ensures freed == if n < old(readPieces[i]).numBlocks then n else old(readPieces[i]).numBlocks
      ensures true == AllCounted(readPieces, disks, bs)
        && true == OneEvicted(old(readPieces), readPieces, old(readPieces[i]).id, disks, bs)
      ensures var p := old(readPieces[i]);
        && (n >= p.numBlocks ==> readPieces == Erase(old(readPieces), i))
        && (n < p.numBlocks ==>
             && i < |readPieces| && readPieces == old(readPieces)[i := readPieces[i]] && readPieces[i].id == p.id
             && true == EndsCleared(p.blocks, readPieces[i].blocks, n, volatile))
    {
      assert Counted(readPieces[i], disks, bs);
      var q;
      q, freed := Thin(readPieces[i], n, volatile);
      PutBack(i, q, freed);
    }

    /** A piece of the read cache has lost blocks. */
    method PutBack(i: nat, q: Piece, freed: nat)
      requires true == Valid() && i < |readPieces| && true == Thinned(readPieces[i], q)
      requires q.numBlocks == Count(q.blocks) && q.expire == readPieces[i].expire
        && freed == readPieces[i].numBlocks - q.numBlocks
      modifies this`readPieces, this`cacheSize, this`readCacheSize
      ensures true == Valid() && cacheSize == old(cacheSize) - freed && readCacheSize == old(readCacheSize) - freed
      ensures readPieces == if q.numBlocks == 0 then Erase(old(readPieces), i) else old(readPieces)[i := q]
      ensures true == AllCounted(readPieces, disks, bs)
        && true == OneEvicted(old(readPieces), readPieces, q.id, disks, bs)
    {
      IsSane();
      var ps := readPieces;
      readPieces := if q.numBlocks == 0 then Erase(ps, i) else ps[i := q];
      EvictedSane(pieces, ps, disks, bs, cacheSize, readCacheSize, i, q, readPieces, freed);
      cacheSize, readCacheSize := cacheSize - freed, readCacheSize - freed;
      IsValid();
    }

    lemma IsSane()
      requires Valid()
      ensures true == Sane(pieces, readPieces, disks, bs, cacheSize, readCacheSize)
    {}

    lemma IsValid()
      requires Sane(pieces, readPieces, disks, bs, cacheSize, readCacheSize)
      ensures true == Valid()
    {}

    /** Takes up to n blocks of a piece. */
    static method Thin(p: Piece, n: int, volatile: bool) returns (q: Piece, freed: nat)
      requires p.numBlocks == Count(p.blocks) && n >= 0
      ensures true == Thinned(p, q) && q == p.(blocks := q.blocks, numBlocks := p.numBlocks - freed)
      ensures q.numBlocks == Count(q.blocks) && freed == if n < p.numBlocks then n else p.numBlocks
      ensures n < p.numBlocks ==> true == EndsCleared(p.blocks, q.blocks, n, volatile)
    {
      var left;
      if n >= p.numBlocks {
        left, freed := Drain(p.blocks);
      } else {
        ghost var a, b;
        left, freed, a, b := ClearEnds(p.blocks, n, volatile);
      }
      q := p.(blocks := left, numBlocks := p.numBlocks - freed);
    }

    /** Frees blocks, first of the read cache, then of the write cache. */
    method FlushCacheBlocks(asked: int, ignore: Option, keepWrites: bool, policy: Policy, now: int, volatile: bool)
      returns (ret: nat)
      requires true == Valid() && asked >= 0
      modifies this`disks, this`pieces, this`readPieces, this`cacheSize, this`readCacheSize
      ensures true == Valid() && cacheSize == old(cacheSize) - ret
        && true == SameView(old(pieces), old(disks), pieces, disks, bs)
      ensures forall p :: p in old(readPieces) && ignore == Some(p.id) ==> p in readPieces
      ensures Ids(readPieces) <= Ids(old(readPieces))
      ensures keepWrites ==> pieces == old(pieces) && disks == old(disks) && ret <= asked
      ensures keepWrites && AllFaithful(old(readPieces), disks, bs) ==> AllFaithful(readPieces, disks, bs)
      ensures !keepWrites ==> ret >= asked || Total(pieces) == 0
      ensures Expired(old(readPieces), ignore, now) ==> true == Expired(readPieces, ignore, now)
      ensures Solid(old(readPieces), ignore) ==> true == Solid(readPieces, ignore)
      ensures Solid(old(readPieces), ignore) && (ret < asked || pieces != old(pieces)) ==>
        true == Drained(readPieces, ignore, now)
      ensures policy.Lru? ==> exists gone: nat :: gone <= |old(pieces)| && pieces == old(pieces)[gone..]
      ensures policy.LargestContiguous? && pieces != old(pieces) ==>
        forall p :: p in old(pieces) ==> p.numContiguous <= ret
    {
      ret := ClearReads(asked, ignore, now, volatile);
      assert pieces == pieces[0..];
      if ret == asked || keepWrites || cacheSize == 0 { return; }
      var more;
      if policy.Lru? {
        ghost var gone;
        more, gone := FlushLru(asked - ret);
      } else {
        more := FlushLargest(asked - ret);
      }
      ret := ret + more;
    }

    /** Evicts pieces of the read cache, one after the other, as long as that frees something. */
    method ClearReads(asked: int, ignore: Option, now: int, volatile: bool) returns (ret: nat)
      requires true == Valid() && asked >= 0
      modifies this`readPieces, this`cacheSize, this`readCacheSize
      ensures true == Valid() && cacheSize == old(cacheSize) - ret && ret <= asked
      ensures forall p :: p in old(readPieces) && ignore == Some(p.id) ==> p in readPieces
      ensures Ids(readPieces) <= Ids(old(readPieces))
      ensures AllFaithful(old(readPieces), disks, bs) ==> AllFaithful(readPieces, disks, bs)
      ensures Expired(old(readPieces), ignore, now) ==> true == Expired(readPieces, ignore, now)
      ensures Solid(old(readPieces), ignore) ==> true == Solid(readPieces, ignore)
      ensures Solid(old(readPieces), ignore) && ret < asked ==> true == Drained(readPieces, ignore, now)
    {
      ret := 0;
      var tmp := ClearOldestReadPiece(asked, ignore, now, volatile);
      ret := tmp;
      ReducedKeeps(old(readPieces), readPieces, ignore, now);
      while tmp > 0 && ret < asked
        invariant true == Valid() && cacheSize == old(cacheSize) - ret && ret <= asked
        invariant forall p :: p in old(readPieces) && ignore == Some(p.id) ==> p in readPieces
        invariant Ids(readPieces) <= Ids(old(readPieces))
        invariant AllFaithful(old(readPieces), disks, bs) ==> AllFaithful(readPieces, disks, bs)
        invariant Expired(old(readPieces), ignore, now) ==> true == Expired(readPieces, ignore, now)
        invariant Solid(old(readPieces), ignore) ==> true == Solid(readPieces, ignore)
        invariant Solid(old(readPieces), ignore) && tmp == 0 && ret < asked ==>
          true == Drained(readPieces, ignore, now)
        decreases asked - ret, tmp
      {
        ghost var before := readPieces;
        tmp := ClearOldestReadPiece(asked - ret, ignore, now, volatile);
        ReducedKeeps(before, readPieces, ignore, now);
        ret := ret + tmp;
      }
    }

    /** Puts a new value in the place of a piece of the read cache. */
    method Replace(i: nat, q: Piece)
      requires true == Valid() && i < |readPieces| && q.id == readPieces[i].id && Counted(q, disks, bs)
        && q.expire == readPieces[i].expire
      modifies this`readPieces, this`cacheSize, this`readCacheSize
      ensures true == Valid() && readPieces == old(readPieces)[i := q]
      ensures cacheSize == old(cacheSize) + q.numBlocks - old(readPieces[i]).numBlocks
    {
      assert Counted(readPieces[i], disks, bs);
      ReplaceOk(readPieces, i, q, disks, bs);
      UpdateByExpiry(readPieces, i, q);
      cacheSize, readCacheSize := cacheSize + q.numBlocks - readPieces[i].numBlocks,
        readCacheSize + q.numBlocks - readPieces[i].numBlocks;
      readPieces := readPieces[i := q];
    }

    /** Frees all blocks of a piece. */
    method FreePiece(i: nat)
      requires true == Valid() && i < |readPieces|
      modifies this`readPieces, this`cacheSize, this`readCacheSize
      ensures true == Valid() && |readPieces| == |old(readPieces)| && readPieces == old(readPieces)[i := readPieces[i]]
      ensures readPieces[i].id == old(readPieces[i]).id && readPieces[i].numBlocks == 0
      ensures OthersFaithful(old(readPieces), i, disks, bs) ==> AllFaithful(readPieces, disks, bs)
    {
      var p := readPieces[i];
      assert Counted(p, disks, bs);
      var left, freed := Drain(p.blocks);
      Replace(i, p.(blocks := left, numBlocks := p.numBlocks - freed));
      FaithfulAgain(old(readPieces), readPieces, i, disks, bs);
    }

    /** Gives block k of a piece a fresh buffer; an old one is freed first. */
    method AllocateBlock(i: nat, k: nat)
      requires true == Valid() && i < |readPieces| && k < |readPieces[i].blocks|
      modifies this`readPieces, this`cacheSize, this`readCacheSize
      ensures true == Valid() && |readPieces| == |old(readPieces)| && readPieces == old(readPieces)[i := readPieces[i]]
      ensures readPieces[i] == old(readPieces[i]).(blocks := readPieces[i].blocks, numBlocks := readPieces[i].numBlocks)
      ensures exists data :: |data| == bs && readPieces[i].blocks == old(readPieces[i]).blocks[k := Cached(data)]
      ensures cacheSize == old(cacheSize) + if old(readPieces[i]).blocks[k].Cached? then 0 else 1
    {
      var p := readPieces[i];
      assert Counted(p, disks, bs);
      var data := seq(bs, _ => 0);
      SetOne(p.blocks, k, Cached(data));
      var q := p.(blocks := p.blocks[k := Cached(data)], numBlocks := if p.blocks[k].Cached? then p.numBlocks
        else p.numBlocks + 1);
      Replace(i, q);
    }

    /** Gives blocks from start on buffers, as many as asked for and as the cache has room for. */
    method AllocateBlocks(i: nat, start: nat, ignoreSize: bool, num: nat, limit: int, w: World)
      returns (end: nat, ok: bool)
      requires true == Valid() && i < |readPieces| && start < |readPieces[i].blocks| && num > 0
      modifies this`readPieces, this`cacheSize, this`readCacheSize
      ensures true == Valid() && |readPieces| == |old(readPieces)| && readPieces == old(readPieces)[i := readPieces[i]]
      ensures readPieces[i] == old(readPieces[i]).(blocks := readPieces[i].blocks, numBlocks := readPieces[i].numBlocks)
      ensures start <= end <= |readPieces[i].blocks|
        && true == Allocated(old(readPieces[i]).blocks, readPieces[i].blocks, start, end)
      ensures end - start <= num && cacheSize <= old(cacheSize) + end - start
      ensures var blocks := old(readPieces[i]).blocks;
        var goal := ReadEnd(blocks, start, num, RoomFor(ignoreSize, |blocks|, limit - old(cacheSize) - w.others));
        (ok <==> goal <= start + w.allocations) && (ok ==> end == goal)
    {
      end, ok := start, true;
      ghost var blocks := readPieces[i].blocks;
      ghost var left := RoomFor(ignoreSize, |blocks|, limit - cacheSize - w.others);
      ghost var goal := ReadEnd(blocks, start, num, left);
      while end < |readPieces[i].blocks| && (ignoreSize || cacheSize + w.others < limit)
        invariant true == Valid() && |readPieces| == |old(readPieces)|
          && readPieces == old(readPieces)[i := readPieces[i]]
        invariant readPieces[i] == old(readPieces[i]).(blocks := readPieces[i].blocks, numBlocks :=
          readPieces[i].numBlocks)
        invariant start <= end <= |readPieces[i].blocks| == |blocks|
          && true == Allocated(blocks, readPieces[i].blocks, start, end)
        invariant end - start < num && end - start <= w.allocations && cacheSize <= old(cacheSize) + end - start
        invariant true == Heading(goal, blocks, end, num - (end - start), left)
        invariant if ignoreSize then left > |blocks| - end else left == limit - cacheSize - w.others
        decreases |old(readPieces[i]).blocks| - end
      {
        HeadingOn(goal, blocks, end, num - (end - start), left);
        if end - start >= w.allocations {
          ok := false;
          return;
        }
        ghost var given := readPieces[i].blocks;
        AllocateBlock(i, end);
        AllocatedMore(blocks, given, readPieces[i].blocks, start, end);
        if blocks[end].Empty? { left := left - 1; }
        end := end + 1;
        if end - start >= num {
          HeadingEnds(goal, blocks, end, 0, left);
          return;
        }
      }
      HeadingEnds(goal, blocks, end, num - (end - start), left);
    }

    /** Reads blocks from start on from disk; returns the number of bytes, or an error after which the piece has
        no blocks. */
    method ReadIntoPiece(i: nat, start: nat, ignoreSize: bool, num: nat, limit: int, w: World)
      returns (ret: int, ghost end: nat)
      requires true == Valid() && i < |readPieces| && start < |readPieces[i].blocks| && num > 0
        && AllFaithful(readPieces, disks, bs)
      modifies this`readPieces, this`cacheSize, this`readCacheSize, this`diskReads
      ensures true == Valid() && AllFaithful(readPieces, disks, bs) && |readPieces| == |old(readPieces)|
      ensures readPieces == old(readPieces)[i := readPieces[i]] && readPieces[i].id == old(readPieces[i]).id
      ensures var blocks := old(readPieces[i]).blocks;
        var goal := ReadEnd(blocks, start, num, RoomFor(ignoreSize, |blocks|, limit - old(cacheSize) - w.others));
        && (ret >= 0 <==> start < goal <= start + w.allocations && w.readOk) && (ret == -2 <==> goal == start)
        && (ret >= 0 ==> end == goal && cacheSize <= old(cacheSize) + goal - start)
      ensures ret < 0 ==> readPieces[i].numBlocks == 0
      ensures ret >= 0 ==>
        && start < end <= |readPieces[i].blocks| && end - start <= num && AllCached(readPieces[i].blocks, start, end)
        && readPieces[i].expire == old(readPieces[i]).expire
        && start * bs + ret == EndOf(|disks[readPieces[i].id]|, bs, end - 1)
    {
      var ok, e;
      e, ok := AllocateBlocks(i, start, ignoreSize, num, limit, w);
      end := e;
      OthersFaithfulKept(old(readPieces), readPieces, i, disks, bs);
      if !ok {
        FreePiece(i);
        return -1, end;
      }
      if e == start {
        FreePiece(i);
        return -2, end;
      }
      diskReads := diskReads + 1;
      if !w.readOk {
        FreePiece(i);
        return -1, end;
      }
      ret := FillFromDisk(i, start, e, old(readPieces[i]).blocks);
    }

    /** Fills freshly allocated blocks with what is on disk. */
    method FillFromDisk(i: nat, start: nat, end: nat, ghost before: seq<Block>) returns (ret: nat)
      requires true == Valid() && i < |readPieces| && start < end <= |readPieces[i].blocks|
        && OthersFaithful(readPieces, i, disks, bs)
      requires Sized(before, |disks[readPieces[i].id]|, bs) && AllHold(before, disks[readPieces[i].id], bs)
      requires Allocated(before, readPieces[i].blocks, start, end)
      modifies this`readPieces, this`cacheSize, this`readCacheSize
      ensures true == Valid() && AllFaithful(readPieces, disks, bs) && |readPieces| == |old(readPieces)|
      ensures readPieces == old(readPieces)[i := readPieces[i]] && readPieces[i].id == old(readPieces[i]).id
      ensures AllCached(readPieces[i].blocks, start, end) && readPieces[i].expire == old(readPieces[i]).expire
        && start * bs + ret == EndOf(|disks[readPieces[i].id]|, bs, end - 1)
      ensures cacheSize == old(cacheSize)
    {
      var p := readPieces[i];
      assert Counted(p, disks, bs);
      var disk := disks[p.id];
      ReadSize(|disk|, bs, start, end);
      ret := Min((end - start) * bs, |disk| - start * bs);
      var buf := disk[start * bs..start * bs + ret];
      var blocks := FillBlocks(p.blocks, start, end, buf, bs, |disk|, disk);
      FilledHold(before, p.blocks, blocks, disk, bs, start, end);
      Replace(i, p.(blocks := blocks));
      FaithfulAgain(old(readPieces), readPieces, i, disks, bs);
    }

    /** Whether a request can be served without reading from disk. */
    method IsCacheHit(i: nat, offset: nat, size: nat) returns (hit: bool)
      requires true == Valid() && Request(i, offset, size)
      ensures hit <==> Ready(readPieces[i].blocks, FirstBlock(offset, bs), LastBlock(offset, size, bs))
    {
      var blocks := readPieces[i].blocks;
      assert Counted(readPieces[i], disks, bs);
      RequestBlocks(|disks[readPieces[i].id]|, bs, offset, size);
      ghost var n: nat :| bs == BitArith.Pow2(n);
      MaskIsRemainder(offset, n);
      var block, blockOffset := FirstBlock(offset, bs), And(offset, bs - 1);
      var two := blockOffset > 0 && size > bs - blockOffset;
      var start := block;
      if blocks[start].Cached? && two { start := start + 1; }
      hit := blocks[start].Cached?;
    }

    /** A request for bytes of a piece of the read cache, no larger than a block. */
    ghost predicate Request(i: nat, offset: nat, size: nat)
      reads this
    {
      && i < |readPieces| && readPieces[i].id in disks && 0 < size <= bs && offset + size <= |disks[readPieces[i].id]|
      && exists n: nat :: bs == BitArith.Pow2(n)
    }

    /** Serves a request from a piece of the read cache, reading from disk what is missing. If it succeeds,
        the bytes are those on disk. */
    method CopyFromPiece(i: nat, offset: nat, size: nat, st: Settings, maxLine: nat, w: World)
      returns (ret: int, out: seq<Byte>, hit: bool)
      requires true == Valid() && Request(i, offset, size) && AllFaithful(readPieces, disks, bs)
      modifies this`disks, this`pieces, this`readPieces, this`cacheSize, this`readCacheSize, this`diskReads
      ensures true == Valid() && AllFaithful(readPieces, disks, bs) && pieces == old(pieces) && disks == old(disks)
      ensures ret >= 0 ==> ret == size && out == disks[old(readPieces[i]).id][offset..offset + size]
      ensures hit ==> diskReads == old(diskReads)
      ensures Ready(old(readPieces[i]).blocks, FirstBlock(offset, bs), LastBlock(offset, size, bs)) ==>
        ret == size && hit
      ensures ret >= 0 ==> exists p ::
        p in readPieces
          && Left(p, old(readPieces[i]).id, FirstBlock(offset, bs), LastBlock(offset, size, bs), st.volatile)
      ensures var p := old(readPieces[i]); var n := |p.blocks|;
        var room := Roomy(Total(pieces), old(readPieces), p.id, p.numBlocks, n, st.limit, w);
        !st.explicitCache && maxLine != 1 && w.readOk && n <= w.allocations && room ==> ret == size
    {
      var id := readPieces[i].id;
      assert Counted(readPieces[i], disks, bs);
      RequestBlocks(|disks[id]|, bs, offset, size);
      hit := IsCacheHit(i, offset, size);
      var j := i;
      out := [];
      if !hit {
        hit, ret, j := ReadMissing(i, offset, size, st, maxLine, w);
        if ret < 0 { return; }
      }
      ghost var before := readPieces[j].blocks;
      out := TakeFrom(j, offset, size, st.volatile);
      TakenLeft(before, readPieces[j], id, FirstBlock(offset, bs), LastBlock(offset, size, bs), st.volatile);
      ret := size;
    }

    /** Copies a request out of a piece whose blocks are all there. */
    method TakeFrom(i: nat, offset: nat, size: nat, volatile: bool) returns (out: seq<Byte>)
      requires true == Valid() && Request(i, offset, size) && AllFaithful(readPieces, disks, bs)
      requires Ready(readPieces[i].blocks, FirstBlock(offset, bs), LastBlock(offset, size, bs))
      modifies this`readPieces, this`cacheSize, this`readCacheSize
      ensures true == Valid() && AllFaithful(readPieces, disks, bs)
      ensures out == disks[old(readPieces[i]).id][offset..offset + size]
      ensures var first, last, p := FirstBlock(offset, bs), LastBlock(offset, size, bs), old(readPieces[i]);
        && |readPieces| == |old(readPieces)| && readPieces == old(readPieces)[i := readPieces[i]]
        && readPieces[i] == p.(blocks := readPieces[i].blocks, numBlocks := readPieces[i].numBlocks)
        && true == Taken(p.blocks, readPieces[i].blocks, first, last + 1, volatile)
    {
      ghost var ps := readPieces;
      assert Counted(ps[i], disks, bs) && Faithful(ps[i], disks, bs);
      var q;
      out, q := TakeBlocks(readPieces[i], offset, size, volatile);
      ThinnedOk(ps, i, q, disks, bs);
      Replace(i, q);
    }

    method TakeBlocks(p: Piece, offset: nat, size: nat, volatile: bool) returns (out: seq<Byte>, q: Piece)
      requires bs > 0 && Counted(p, disks, bs) && Faithful(p, disks, bs)
      requires 0 < size <= bs && offset + size <= |disks[p.id]| && exists n: nat :: bs == BitArith.Pow2(n)
      requires Ready(p.blocks, FirstBlock(offset, bs), LastBlock(offset, size, bs))
      ensures out == disks[p.id][offset..offset + size] && Thinned(p, q) && Counted(q, disks, bs)
      ensures q == p.(blocks := q.blocks, numBlocks := q.numBlocks)
      ensures var first, last := FirstBlock(offset, bs), LastBlock(offset, size, bs);
        true == Taken(p.blocks, q.blocks, first, last + 1, volatile)
    {
      RequestBlocks(|disks[p.id]|, bs, offset, size);
      ghost var n: nat :| bs == BitArith.Pow2(n);
      MaskIsRemainder(offset, n);
      var left, freed;
      out, left, freed :=
        CopyOut(p.blocks, bs, FirstBlock(offset, bs), And(offset, bs - 1), size, volatile,
          LastBlock(offset, size, bs), disks[p.id]);
      q := p.(blocks := left, numBlocks := p.numBlocks - freed);
    }

    /** Reads the blocks that a request misses, after making room for them. The piece itself is never evicted
        for that. */
    method ReadMissing(i: nat, offset: nat, size: nat, st: Settings, maxLine: nat, w: World)
      returns (hit: bool, ret: int, j: nat)
      requires true == Valid() && Request(i, offset, size) && AllFaithful(readPieces, disks, bs)
      requires !Ready(readPieces[i].blocks, FirstBlock(offset, bs), LastBlock(offset, size, bs))
      modifies this`disks, this`pieces, this`readPieces, this`cacheSize, this`readCacheSize, this`diskReads
      ensures true == Valid() && AllFaithful(readPieces, disks, bs) && pieces == old(pieces) && disks == old(disks)
      ensures hit ==> diskReads == old(diskReads) && ret < 0
      ensures st.explicitCache ==> ret == -2 && hit
      ensures var p := old(readPieces[i]); var n := |p.blocks|;
        var room := Roomy(Total(pieces), old(readPieces), p.id, p.numBlocks, n, st.limit, w);
        !st.explicitCache && maxLine != 1 && w.readOk && n <= w.allocations && room ==> ret >= 0
      ensures ret >= 0 ==>
        && Request(j, offset, size) && readPieces[j].id == old(readPieces[i]).id
        && Ready(readPieces[j].blocks, FirstBlock(offset, bs), LastBlock(offset, size, bs))
    {
      var p := readPieces[i];
      assert Counted(p, disks, bs);
      RequestBlocks(|disks[p.id]|, bs, offset, size);
      hit, ret, j := true, -2, i;
      if st.explicitCache { return; }
      ghost var run;
      var num;
      num, run := BlocksToRead(p.blocks, offset, size, st, maxLine, w);
      var ok := MakeRoom(p.id, num, p.numBlocks, |p.blocks|, st, w);
      if !ok { return; }
      j := Find(readPieces, p.id);
      Refind(readPieces, j, p);
      hit := false;
      ret := ReadRequest(j, offset, size, num, st.limit, w);
    }

    /** Evicts what is in the way of some blocks for a piece, but nothing of that piece. */
    method MakeRoom(id: nat, num: nat, ghost own: nat, ghost n: nat, st: Settings, w: World) returns (ok: bool)
      requires true == Valid() && AllFaithful(readPieces, disks, bs) && num <= n
      requires forall p :: p in readPieces && p.id == id ==> Count(p.blocks) <= own
      modifies this`disks, this`pieces, this`readPieces, this`cacheSize, this`readCacheSize
      ensures true == Valid() && AllFaithful(readPieces, disks, bs) && pieces == old(pieces) && disks == old(disks)
      ensures forall p :: p in old(readPieces) && p.id == id ==> p in readPieces
      ensures Ids(readPieces) <= Ids(old(readPieces)) && cacheSize <= old(cacheSize)
      ensures ok <==> cacheSize + w.others + num <= st.limit
      ensures Roomy(Total(pieces), old(readPieces), id, own, n, st.limit, w) ==> ok
      ensures Expired(old(readPieces), Some(id), w.now) ==> true == Expired(readPieces, Some(id), w.now)
      ensures Solid(old(readPieces), Some(id)) ==> true == Solid(readPieces, Some(id))
    {
      ok := true;
      if cacheSize + w.others + num > st.limit {
        var clear := cacheSize + w.others + num - st.limit;
        var freed := FlushCacheBlocks(clear, Some(id), true, Lru, w.now, st.volatile);
        ok := freed >= clear;
        if Roomy(Total(pieces), old(readPieces), id, own, n, st.limit, w) {
          OwnKept(old(readPieces), readPieces, id, own);
          Suffices(Total(pieces), old(readPieces), readPieces, id, own, n, num, st.limit, w, freed);
        }
      }
    }

    /** Reads blocks from that of a request on; fails unless these cover the request. */
    method ReadRequest(i: nat, offset: nat, size: nat, num: nat, limit: int, w: World) returns (ret: int)
      requires true == Valid() && Request(i, offset, size) && AllFaithful(readPieces, disks, bs)
      requires 0 < num <= |readPieces[i].blocks|
      modifies this`readPieces, this`cacheSize, this`readCacheSize, this`diskReads
      ensures true == Valid() && AllFaithful(readPieces, disks, bs)
      ensures var room := old(cacheSize) + w.others + num <= limit;
        var covered := FirstBlock(offset, bs) + num > LastBlock(offset, size, bs);
        covered && num <= w.allocations && w.readOk && room ==> ret >= 0
      ensures ret >= 0 ==>
        && Request(i, offset, size) && readPieces[i].id == old(readPieces[i]).id
        && true == Ready(readPieces[i].blocks, FirstBlock(offset, bs), LastBlock(offset, size, bs))
    {
      var p := readPieces[i];
      assert Counted(p, disks, bs);
      RequestBlocks(|disks[p.id]|, bs, offset, size);
      ghost var end;
      ret, end := ReadIntoPiece(i, FirstBlock(offset, bs), false, num, limit, w);
      if ret < 0 { return; }
      if LastBlock(offset, size, bs) < end { ReadEnough(|disks[p.id]|, bs, offset, size, end, ret); }
      if ret < size + offset % bs {
        ret := -2;
        return;
      }
      EnoughRead(|disks[p.id]|, bs, offset, size, end, ret);
    }

    /** How many blocks to read, given what is free and what the settings allow: the run of missing blocks, cut to the
        room and the cache line, but enough for the request, and cut to the caller's line. */
    method BlocksToRead(blocks: seq<Block>, offset: nat, size: nat, st: Settings, maxLine: nat, w: World)
      returns (num: nat, ghost run: nat)
      requires bs > 0 && LastBlock(offset, size, bs) < |blocks|
      ensures var first, last := FirstBlock(offset, bs), LastBlock(offset, size, bs);
        var from := if blocks[first].Cached? then last else first;
        && from <= run <= |blocks| && (forall k :: from <= k < run ==> blocks[k].Empty?)
        && (run < |blocks| ==> blocks[run].Cached?)
      ensures var least := LastBlock(offset, size, bs) - FirstBlock(offset, bs) + 1;
        var wish := run - FirstBlock(offset, bs);
        var room := (st.limit + readCacheSize - cacheSize - w.others) / 2;
        && 0 < num <= |blocks| && (maxLine > 0 ==> num <= maxLine) && (num >= least || num == maxLine > 0)
        && (num > least ==> num <= wish && num <= st.lineSize && (num <= 3 || num <= room))
        && (num == maxLine > 0 || num == least || num == wish || num == st.lineSize || num == 3 || num == room)
    {
      var first, last := FirstBlock(offset, bs), LastBlock(offset, size, bs);
      var end := if blocks[first].Cached? then last else first;
      ghost var from := end;
      while end < |blocks| && blocks[end].Empty?
        invariant from <= end <= |blocks| && forall k :: from <= k < end ==> blocks[k].Empty?
      {
        end := end + 1;
      }
      run := end;
      var n := end - first;
      var room := (st.limit + readCacheSize - cacheSize - w.others) / 2;
      if room < 3 { room := 3; }
      if room < n { n := room; }
      if st.lineSize < n { n := st.lineSize; }
      if n < last - first + 1 { n := last - first + 1; }
      if 0 < maxLine < n { n := maxLine; }
      num := n;
    }

    /** Starts to cache the writes of a piece, with one block. A piece of one block is not cached. */
    method CacheBlock(id: nat, offset: nat, data: seq<Byte>, expire: int) returns (ret: int)
      requires true == Valid() && id in disks && NewId(pieces, id) && |data| == bs && offset < |disks[id]|
        && offset % bs == 0
      modifies this`pieces, this`cacheSize
      ensures true == Valid() && ret == if BlocksIn(|disks[id]|, bs) <= 1 then -1 else 0
      ensures ret < 0 ==> pieces == old(pieces) && cacheSize == old(cacheSize)
      ensures ret == 0 ==>
        var block := FirstBlock(offset, bs);
        && block < BlocksIn(|disks[id]|, bs) && cacheSize == old(cacheSize) + 1
        && var p := Piece(id, OneBlock(BlocksIn(|disks[id]|, bs), block, data), 1, 1, 0, expire);
           pieces == Inserted(old(pieces), p) && PieceOk(p, disks, bs)
             && AddsBlock(old(pieces), pieces, disks, bs, p, block)
    {
      var n := BlocksIn(|disks[id]|, bs);
      if n <= 1 { return -1; }
      var block := FirstBlock(offset, bs);
      BlockOf(|disks[id]|, bs, offset);
      OneBlockCounts(n, block, data);
      var p := Piece(id, OneBlock(n, block, data), 1, 1, 0, expire);
      InsertedAdds(pieces, p, disks, bs, block);
      InsertedByExpiry(pieces, p);
      pieces := Inserted(pieces, p);
      cacheSize := cacheSize + 1;
      ret := 0;
    }

    /** Starts to cache the reads of a piece: makes room, and reads blocks from the one asked for on. On failure
        the piece is not in the cache. */
    method CacheReadBlock(id: nat, offset: nat, expire: int, st: Settings, maxLine: nat, w: World) returns (ret: int)
      requires true == Valid() && AllFaithful(readPieces, disks, bs) && id in disks && NewId(readPieces, id)
        && offset < |disks[id]| && st.lineSize > 0
      modifies this`disks, this`pieces, this`readPieces, this`cacheSize, this`readCacheSize, this`diskReads
      ensures true == Valid() && AllFaithful(readPieces, disks, bs) && pieces == old(pieces) && disks == old(disks)
      ensures ret >= 0 ==> Find(readPieces, id) < |readPieces|
      ensures ret < 0 ==> NewId(readPieces, id)
      ensures ret >= 0 ==> exists p ::
        p in readPieces && p.id == id && p.expire == expire
          && Ready(p.blocks, FirstBlock(offset, bs), FirstBlock(offset, bs))
      ensures var n := BlocksIn(|disks[id]|, bs);
        && (w.readOk && n <= w.allocations && Roomy(Total(pieces), old(readPieces), id, 0, n, st.limit, w) ==> ret >= 0)
        && (ret >= 0 && Roomy(Total(pieces), old(readPieces), id, 0, 2 * n, st.limit, w) ==>
             true == Roomy(Total(pieces), readPieces, id, n, n, st.limit, w))
    {
      var n := BlocksIn(|disks[id]|, bs);
      var start := FirstBlock(offset, bs);
      BlockOf(|disks[id]|, bs, offset);
      var num := LineToRead(n - start, st, maxLine, w);
      var ok := MakeRoom(id, num, 0, n, st, w);
      KeptNew(old(readPieces), readPieces, id);
      if !ok { return -2; }
      ret := ReadNewPiece(id, n, start, num, expire, st.limit, w, Fits(n - start, num, st.limit - cacheSize
        - w.others));
    }

    /** How many blocks a new piece of the read cache is to get. */
    method LineToRead(blocks: nat, st: Settings, maxLine: nat, w: World) returns (num: nat)
      requires blocks > 0 && st.lineSize > 0
      ensures 0 < num <= blocks && num <= st.lineSize && (maxLine > 0 ==> num <= maxLine)
      ensures var room := (st.limit + readCacheSize - cacheSize - w.others) / 2;
        && (num <= 3 || num <= room)
        && (num == blocks || num == st.lineSize || num == maxLine > 0 || num == 3 || num == room)
    {
      var room := (st.limit + readCacheSize - cacheSize - w.others) / 2;
      if room < 3 { room := 3; }
      num := blocks;
      if room < num { num := room; }
      if st.lineSize < num { num := st.lineSize; }
      if 0 < maxLine < num { num := maxLine; }
    }

    /** Reads blocks into a piece that is not yet cached. */
    method ReadNewPiece(id: nat, n: nat, start: nat, num: nat, expire: int, limit: int, w: World,
      ghost most: nat)
      returns (ret: int)
      requires true == Valid() && AllFaithful(readPieces, disks, bs) && id in disks && NewId(readPieces, id)
      requires n == BlocksIn(|disks[id]|, bs) && start < n && num > 0
      requires most == Fits(n - start, num, limit - cacheSize - w.others)
      modifies this`readPieces, this`cacheSize, this`readCacheSize, this`diskReads
      ensures true == Valid() && AllFaithful(readPieces, disks, bs)
      ensures ret < 0 ==> NewId(readPieces, id)
      ensures (ret >= 0 <==> 0 < most <= w.allocations && w.readOk) && (ret >= 0 ==> cacheSize <= old(cacheSize) + most)
      ensures forall p :: p in readPieces ==> p.id == id || p in old(readPieces)
      ensures ret >= 0 ==>
        exists p :: p in readPieces && p.id == id && p.expire == expire && Ready(p.blocks, start, start)
    {
      ghost var p := Piece(id, Empties(n), 0, 0, 0, expire);
      var i := Begin(id, n, expire);
      InsertedAt(old(readPieces), p, i);
      ret := FillNew(i, n, start, num, limit, w, most);
      InsertedOnly(old(readPieces), p, readPieces, i, readPieces[i]);
      if ret < 0 { Forget(i); }
    }

    /** Reads blocks into a piece that has none. */
    method FillNew(i: nat, ghost n: nat, start: nat, num: nat, limit: int, w: World,
      ghost most: nat)
      returns (ret: int)
      requires true == Valid() && i < |readPieces| && readPieces[i].blocks == Empties(n) && start < n && num > 0
        && AllFaithful(readPieces, disks, bs)
      requires most == Fits(n - start, num, limit - cacheSize - w.others)
      modifies this`readPieces, this`cacheSize, this`readCacheSize, this`diskReads
      ensures true == Valid() && AllFaithful(readPieces, disks, bs) && |readPieces| == |old(readPieces)|
      ensures readPieces == old(readPieces)[i := readPieces[i]] && readPieces[i].id == old(readPieces[i]).id
      ensures (ret >= 0 <==> 0 < most <= w.allocations && w.readOk) && (ret >= 0 ==> cacheSize <= old(cacheSize) + most)
      ensures ret < 0 ==> readPieces[i].numBlocks == 0
      ensures ret >= 0 ==>
        true == Ready(readPieces[i].blocks, start, start) && readPieces[i].expire == old(readPieces[i]).expire
    {
      EmptyReadEnd(n, start, num, limit - cacheSize - w.others);
      ghost var end;
      ret, end := ReadIntoPiece(i, start, false, num, limit, w);
    }

    /** Puts a piece without blocks into the read cache. */
    method Begin(id: nat, n: nat, expire: int) returns (i: nat)
      requires true == Valid() && AllFaithful(readPieces, disks, bs) && id in disks && NewId(readPieces, id)
      requires n == BlocksIn(|disks[id]|, bs)
      modifies this`readPieces
      ensures true == Valid() && AllFaithful(readPieces, disks, bs) && i == Place(old(readPieces), expire)
      ensures readPieces == Inserted(old(readPieces), Piece(id, Empties(n), 0, 0, 0, expire))
    {
      IsSane();
      var p := Piece(id, Empties(n), 0, 0, 0, expire);
      i := Place(readPieces, expire);
      InsertedSane(pieces, readPieces, disks, bs, cacheSize, readCacheSize, p);
      readPieces := Inserted(readPieces, p);
      IsValid();
    }

    /** Takes a piece without blocks out of the read cache. */
    method Forget(i: nat)
      requires true == Valid() && AllFaithful(readPieces, disks, bs) && i < |readPieces| && readPieces[i].numBlocks == 0
      modifies this`readPieces
      ensures true == Valid() && AllFaithful(readPieces, disks, bs)
      ensures NewId(readPieces, old(readPieces[i]).id) && readPieces == Erase(old(readPieces), i)
    {
      assert Counted(readPieces[i], disks, bs);
      EraseCounted(readPieces, i, disks, bs);
      ErasedNew(readPieces, i);
      EraseByExpiry(readPieces, i);
      readPieces := Erase(readPieces, i);
    }

    /** Notes that a piece was used: it goes to where its new time puts it. */
    method Touch(i: nat, expire: int)
      requires true == Valid() && AllFaithful(readPieces, disks, bs) && i < |readPieces|
      modifies this`readPieces
      ensures true == Valid() && AllFaithful(readPieces, disks, bs)
      ensures readPieces == Inserted(Erase(old(readPieces), i), old(readPieces[i]).(expire := expire))
      ensures var p := old(readPieces[i]).(expire := expire);
        p in readPieces && forall q :: q in readPieces && q.id == p.id ==> q == p
    {
      var p := readPieces[i].(expire := expire);
      assert Counted(readPieces[i], disks, bs) && Faithful(readPieces[i], disks, bs);
      EraseCounted(readPieces, i, disks, bs);
      ErasedNew(readPieces, i);
      InsertedCounted(Erase(readPieces, i), p, disks, bs);
      InsertedTotal(Erase(readPieces, i), p);
      EraseByExpiry(readPieces, i);
      InsertedByExpiry(Erase(readPieces, i), p);
      Reinserted(readPieces, i, p);
      readPieces := Inserted(Erase(readPieces, i), p);
    }

    /** Reads through the cache. If it succeeds, the bytes are those on disk. */
    method TryRead(id: nat, offset: nat, size: nat, expire: int, st: Settings, maxLine: nat, w: World)
      returns (ret: int, out: seq<Byte>, hit: bool)
      requires true == Valid() && AllFaithful(readPieces, disks, bs) && id in disks && 0 < size <= bs
        && offset + size <= |disks[id]|
      requires (exists n: nat :: bs == BitArith.Pow2(n)) && st.lineSize > 0
      modifies this`disks, this`pieces, this`readPieces, this`cacheSize, this`readCacheSize, this`diskReads
      ensures true == Valid() && AllFaithful(readPieces, disks, bs) && pieces == old(pieces) && disks == old(disks)
      ensures ret >= 0 ==> ret == size && out == disks[id][offset..offset + size]
      ensures hit ==> diskReads == old(diskReads)
      ensures var first, last := FirstBlock(offset, bs), LastBlock(offset, size, bs);
        forall p :: p in old(readPieces) && p.id == id && Ready(p.blocks, first, last) ==> ret == size && hit
      ensures st.explicitCache && (forall p :: p in old(readPieces) ==> p.id != id) ==>
        ret == -2 && hit && readPieces == old(readPieces)
      ensures var n := BlocksIn(|disks[id]|, bs);
        var room := Roomy(Total(pieces), old(readPieces), id, 0, 2 * n, st.limit, w);
        !st.explicitCache && maxLine != 1 && w.readOk && n <= w.allocations && room ==> ret == size
      ensures var first, last := FirstBlock(offset, bs), LastBlock(offset, size, bs);
        ret >= 0 ==> forall p :: p in readPieces && p.id == id ==>
          p.expire == expire && p.numBlocks > 0 && true == Left(p, id, first, last, st.volatile)
      ensures ret >= 0 && !st.volatile ==> exists p :: p in readPieces && p.id == id
    {
      var i := Find(readPieces, id);
      hit, out := true, [];
      var found := i < |readPieces|;
      if !found {
        if st.explicitCache { return -2, [], true; }
        ret := CacheReadBlock(id, offset, expire, st, maxLine, w);
        hit := false;
        if ret < 0 { return; }
        i := Find(readPieces, id);
      }
      assert Counted(readPieces[i], disks, bs);
      if Roomy(Total(pieces), old(readPieces), id, 0, 2 * |readPieces[i].blocks|, st.limit, w) {
        RoomyOwn(Total(pieces), readPieces, readPieces[i], |readPieces[i].blocks|, st.limit, w);
      }
      var h;
      ret, out, h := CopyFromPiece(i, offset, size, st, maxLine, w);
      hit := hit && h;
      if ret < 0 { return; }
      RequestBlocks(|disks[id]|, bs, offset, size);
      Settle(id, expire, FirstBlock(offset, bs), LastBlock(offset, size, bs), st.volatile);
    }

    /** After a request its piece is forgotten if it has no blocks left, and has been used otherwise. */
    method Settle(id: nat, expire: int, ghost first: nat, ghost last: nat, ghost volatile: bool)
      requires true == Valid() && AllFaithful(readPieces, disks, bs) && first <= last
      requires exists p :: p in readPieces && Left(p, id, first, last, volatile)
      modifies this`readPieces
      ensures true == Valid() && AllFaithful(readPieces, disks, bs)
      ensures forall p :: p in readPieces && p.id == id ==>
        p.expire == expire && p.numBlocks > 0 && true == Left(p, id, first, last, volatile)
      ensures !volatile ==> exists p :: p in readPieces && p.id == id
    {
      var i := Find(readPieces, id);
      ghost var p :| p in readPieces && Left(p, id, first, last, volatile);
      Refind(readPieces, i, p);
      assert Counted(p, disks, bs);
      if !volatile { LeftSome(p, id, first, last); }
      if readPieces[i].numBlocks == 0 { Forget(i); } else { Touch(i, expire); }
    }
  }
}
