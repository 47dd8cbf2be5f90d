/** Which pieces of the read cache can make room, and when that is enough. */
module DiskRoom {
  import opened DiskBlocks
  import opened DiskFlush
  import opened DiskFill
  import opened DiskCache
  import opened DiskPieces
  import opened DiskInsert

  /** All pieces but the ignored one have blocks. */
  predicate Solid(ps: seq<Piece>, ignore: Option) {
    forall p :: p in ps ==> ignore == Some(p.id) || p.numBlocks > 0
  }

  /** All pieces but the ignored one may go by now. */
  predicate Expired(ps: seq<Piece>, ignore: Option, now: int) {
    forall p :: p in ps ==> ignore == Some(p.id) || p.expire <= now
  }

  /** None of them may. */
  predicate Drained(ps: seq<Piece>, ignore: Option, now: int) {
    forall p :: p in ps ==> ignore == Some(p.id) || now < p.expire
  }

  /** Pieces have gone, or have lost some of their blocks. */
  predicate Reduced(ps: seq<Piece>, qs: seq<Piece>) {
    forall q :: q in qs ==>
      q in ps || (q.numBlocks > 0 && exists p :: p in ps && p.id == q.id && p.expire == q.expire)
  }

  lemma ReducedKeeps(ps: seq<Piece>, qs: seq<Piece>, ignore: Option, now: int)
    requires Reduced(ps, qs)
    ensures Solid(ps, ignore) ==> true == Solid(qs, ignore)
    ensures Expired(ps, ignore, now) ==> true == Expired(qs, ignore, now)
  {}

  lemma ReducedBy(ps: seq<Piece>, i: nat, q: Piece)
    requires i < |ps| && q.id == ps[i].id && q.expire == ps[i].expire
    ensures q.numBlocks > 0 ==> true == Reduced(ps, ps[i := q])
    ensures true == Reduced(ps, Erase(ps[i := q], i))
  {
    assert ps[i] in ps;
  }

  /** Only the piece with this id has been touched. */
  ghost predicate OneEvicted(ps: seq<Piece>, r: seq<Piece>, id: nat, disks: Disks, bs: nat)
    requires AllCounted(ps, disks, bs) && AllCounted(r, disks, bs)
  {
    && (AllFaithful(ps, disks, bs) ==> AllFaithful(r, disks, bs)) && Reduced(ps, r) && Ids(r) <= Ids(ps)
    && forall x :: x in ps && x.id != id ==> x in r
  }

  /** A piece has been thinned, and is gone if it has no blocks left. */
  lemma Evicted(ps: seq<Piece>, i: nat, q: Piece, r: seq<Piece>, disks: Disks, bs: nat)
    requires AllCounted(ps, disks, bs) && ByExpiry(ps) && i < |ps| && Thinned(ps[i], q)
    requires q.numBlocks == Count(q.blocks) && q.expire == ps[i].expire
    requires r == if q.numBlocks == 0 then Erase(ps, i) else ps[i := q]
    ensures true == AllCounted(r, disks, bs) && true == ByExpiry(r) && true == OneEvicted(ps, r, ps[i].id, disks, bs)
    ensures Total(r) == Total(ps) - Count(ps[i].blocks) + Count(q.blocks)
  {
    assert Erase(ps[i := q], i) == Erase(ps, i);
    ThinnedOk(ps, i, q, disks, bs);
    EraseCounted(ps[i := q], i, disks, bs);
    UpdateByExpiry(ps, i, q);
    EraseByExpiry(ps[i := q], i);
    IdsShrink(ps, i, q);
    ReducedBy(ps, i, q);
    forall x | x in ps && x.id != ps[i].id ensures x in r { OthersStay(ps, i, q, x); }
  }

  /** The counters of a cache are right, and its pieces are in order. */
  ghost predicate Sane(pieces: seq<Piece>, cached: seq<Piece>, disks: Disks, bs: nat, size: int, readSize: int) {
    && bs > 0 && PiecesOk(pieces, disks, bs) && AllCounted(cached, disks, bs)
    && size == Total(pieces) + Total(cached) && readSize == Total(cached)
    && true == ByExpiry(pieces) && true == ByExpiry(cached)
  }

  lemma EvictedSane(pieces: seq<Piece>, ps: seq<Piece>, disks: Disks, bs: nat, size: int, readSize: int, i: nat,
    q: Piece, r: seq<Piece>, freed: int)
    requires Sane(pieces, ps, disks, bs, size, readSize) && i < |ps| && true == Thinned(ps[i], q)
    requires q.numBlocks == Count(q.blocks) && q.expire == ps[i].expire && freed == ps[i].numBlocks - q.numBlocks
    requires r == if q.numBlocks == 0 then Erase(ps, i) else ps[i := q]
    ensures true == Sane(pieces, r, disks, bs, size - freed, readSize - freed)
    ensures true == AllCounted(r, disks, bs) && true == OneEvicted(ps, r, q.id, disks, bs)
  {
    assert Counted(ps[i], disks, bs);
    assert Thinned(ps[i], q);
    Evicted(ps, i, q, r, disks, bs);
  }

  lemma InsertedSane(pieces: seq<Piece>, ps: seq<Piece>, disks: Disks, bs: nat, size: int, readSize: int, p: Piece)
    requires Sane(pieces, ps, disks, bs, size, readSize) && AllFaithful(ps, disks, bs) && NewId(ps, p.id)
    requires p.id in disks && p.blocks == Empties(BlocksIn(|disks[p.id]|, bs)) && p.numBlocks == 0
    ensures true == Sane(pieces, Inserted(ps, p), disks, bs, size, readSize)
    ensures AllCounted(Inserted(ps, p), disks, bs) && AllFaithful(Inserted(ps, p), disks, bs)
  {
    NoBlocks(|p.blocks|, p.blocks);
    InsertedCounted(ps, p, disks, bs);
    InsertedTotal(ps, p);
    InsertedByExpiry(ps, p);
  }

  /** How many of the blocks there are can be had, if so many are asked for and there is so much room. */
  function Fits(blocks: nat, num: nat, room: int): nat { if room <= 0 then 0 else Min(Min(blocks, num), room) }

  lemma EmptyReadEnd(n: nat, start: nat, num: nat, room: int)
    requires start <= n
    ensures ReadEnd(Empties(n), start, num, room) == start + Fits(n - start, num, room)
    decreases n - start
  {
    if start < n && num > 0 && room > 0 { EmptyReadEnd(n, start + 1, num - 1, room - 1); }
  }

  /** If the oldest piece that may be touched may not go, none may. */
  lemma OldestStays(ps: seq<Piece>, ignore: Option, now: int)
    requires ByExpiry(ps)
    requires var c := Oldest(ps, ignore); c == |ps| || (c < |ps| && now < ps[c].expire)
    ensures true == Drained(ps, ignore, now)
  {}

  /** There is room for n blocks, or there is once all other pieces of the read cache are gone, all of which may go. */
  predicate Roomy(writes: int, ps: seq<Piece>, id: nat, own: int, n: int, limit: int, w: World) {
    || writes + Total(ps) + w.others + n <= limit
    || (writes + own + w.others + n <= limit && Solid(ps, Some(id)) && Expired(ps, Some(id), w.now))
  }

  lemma OwnTotal(ps: seq<Piece>, id: nat, own: nat)
    requires forall a, b :: 0 <= a < b < |ps| ==> ps[a].id != ps[b].id
    requires forall p :: p in ps ==> p.id == id && Count(p.blocks) <= own
    ensures Total(ps) <= own
  {
    if |ps| == 1 { assert ps[..0] == []; }
  }

  /** If there is room for n blocks, up to n can be had by evicting others. */
  lemma Suffices(writes: int, ps: seq<Piece>, qs: seq<Piece>, id: nat, own: nat, n: int, num: int, limit: int, w: World,
    freed: int)
    requires Roomy(writes, ps, id, own, n, limit, w) && num <= n && Total(qs) == Total(ps) - freed
    requires forall a, b :: 0 <= a < b < |qs| ==> qs[a].id != qs[b].id
    requires forall p :: p in qs && p.id == id ==> Count(p.blocks) <= own
    requires Expired(ps, Some(id), w.now) ==> true == Expired(qs, Some(id), w.now)
    requires Solid(ps, Some(id)) && freed < writes + Total(ps) + w.others + num - limit ==>
      true == Drained(qs, Some(id), w.now)
    requires freed >= 0
    ensures freed >= writes + Total(ps) + w.others + num - limit
  {
    if freed < writes + Total(ps) + w.others + num - limit {
      OwnTotal(qs, id, own);
    }
  }

  lemma {:induction false} AtMost(blocks: seq<Block>)
    ensures Count(blocks) <= |blocks|
  {
    if blocks != [] { AtMost(blocks[..|blocks| - 1]); }
  }

  lemma OwnKept(ps: seq<Piece>, qs: seq<Piece>, id: nat, own: nat)
    requires forall p :: p in ps && p.id == id ==> p in qs && Count(p.blocks) <= own
    requires Ids(qs) <= Ids(ps) && forall a, b :: 0 <= a < b < |qs| ==> qs[a].id != qs[b].id
    ensures forall p :: p in qs && p.id == id ==> Count(p.blocks) <= own
  {
    forall q | q in qs && q.id == id ensures Count(q.blocks) <= own {
      assert q.id in Ids(qs);
      var i :| 0 <= i < |ps| && ps[i].id == id;
      assert ps[i] in qs;
    }
  }

  /** What a request leaves of its piece: a volatile cache has dropped its blocks, another one has them all. */
  predicate Left(p: Piece, id: nat, first: nat, last: nat, volatile: bool) {
    p.id == id && last < |p.blocks| && forall k :: first <= k <= last ==> (p.blocks[k].Cached? <==> !volatile)
  }

  lemma TakenLeft(before: seq<Block>, p: Piece, id: nat, first: nat, last: nat, volatile: bool)
    requires p.id == id && Ready(before, first, last) && Taken(before, p.blocks, first, last + 1, volatile)
    ensures true == Left(p, id, first, last, volatile)
  {}

  lemma LeftSome(p: Piece, id: nat, first: nat, last: nat)
    requires Left(p, id, first, last, false) && first <= last
    ensures Count(p.blocks) > 0
  {
    if Count(p.blocks) == 0 { CountZero(p.blocks, first); }
  }

  lemma Reinserted(ps: seq<Piece>, i: nat, p: Piece)
    requires i < |ps| && p.id == ps[i].id && forall a, b :: 0 <= a < b < |ps| ==> ps[a].id != ps[b].id
    ensures var r := Inserted(Erase(ps, i), p); p in r && forall q :: q in r && q.id == p.id ==> q == p
  {
    var e := Erase(ps, i);
    var r := Inserted(e, p);
    InsertedAt(e, p, 0);
    forall q | q in r && q.id == p.id ensures q == p {
      var j :| 0 <= j < |r| && r[j] == q;
      InsertedAt(e, p, j);
      var k := Place(e, p.expire);
      if j < k { EraseAt(ps, i, j); } else if j > k { EraseAt(ps, i, j - 1); }
    }
  }

  /** Only the piece that was inserted has changed since; without it the others are left. */
  lemma InsertedOnly(ps: seq<Piece>, p: Piece, r: seq<Piece>, i: nat, x: Piece)
    requires i == Place(ps, p.expire) && r == Inserted(ps, p)[i := x] && x.id == p.id
    ensures Erase(r, i) == ps && x in r && forall q :: q in r ==> q.id == p.id || q in ps
  {
    assert r[i] == x;
    forall q | q in r && q.id != p.id ensures q in ps {
      var j :| 0 <= j < |r| && r[j] == q;
      InsertedAt(ps, p, j);
    }
  }

  lemma RoomyOwn(writes: int, ps: seq<Piece>, p: Piece, n: nat, limit: int, w: World)
    requires p.numBlocks == Count(p.blocks) && |p.blocks| == n
    requires Roomy(writes, ps, p.id, n, n, limit, w) || Roomy(writes, ps, p.id, 0, 2 * n, limit, w)
    ensures true == Roomy(writes, ps, p.id, p.numBlocks, n, limit, w)
  {
    AtMost(p.blocks);
  }
}
