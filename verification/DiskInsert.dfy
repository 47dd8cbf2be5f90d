/** Putting a piece into a cache that is ordered by the time at which its pieces may go. */
module DiskInsert {
  import opened DiskBlocks
  import opened DiskFlush
  import opened DiskCache
  import opened DiskPieces

  /** Where a piece with this time goes: behind all that may go no later. */
  function Place(ps: seq<Piece>, expire: int): (i: nat)
    ensures i <= |ps|
  {
    if ps == [] || ps[|ps| - 1].expire <= expire then |ps| else Place(ps[..|ps| - 1], expire)
  }

  function Inserted(ps: seq<Piece>, p: Piece): (r: seq<Piece>)
    ensures |r| == |ps| + 1
  {
    ps[..Place(ps, p.expire)] + [p] + ps[Place(ps, p.expire)..]
  }

  /** The pieces are in the order in which they may go. */
  predicate ByExpiry(ps: seq<Piece>) { forall i, j :: 0 <= i < j < |ps| ==> ps[i].expire <= ps[j].expire }

  lemma {:induction false} PlaceFits(ps: seq<Piece>, expire: int)
    requires ByExpiry(ps)
    ensures var k := Place(ps, expire);
      (forall i :: 0 <= i < k ==> ps[i].expire <= expire) && (forall i :: k <= i < |ps| ==> ps[i].expire > expire)
  {
    if ps != [] && ps[|ps| - 1].expire > expire {
      PlaceFits(ps[..|ps| - 1], expire);
    }
  }

  /** A piece is inserted behind all that may go no later, and the order stays. */
  lemma InsertedByExpiry(ps: seq<Piece>, p: Piece)
    requires ByExpiry(ps)
    ensures true == ByExpiry(Inserted(ps, p))
  {
    var k := Place(ps, p.expire);
    PlaceFits(ps, p.expire);
    var r := ps[..k] + [p] + ps[k..];
    assert forall i :: 0 <= i < |r| ==> r[i] == if i < k then ps[i] else if i == k then p else ps[i - 1];
  }

  lemma UpdateByExpiry(ps: seq<Piece>, i: nat, q: Piece)
    requires ByExpiry(ps) && i < |ps| && q.expire == ps[i].expire
    ensures true == ByExpiry(ps[i := q])
  {}

  lemma EraseByExpiry(ps: seq<Piece>, i: nat)
    requires ByExpiry(ps) && i < |ps|
    ensures true == ByExpiry(Erase(ps, i))
  {
    var r := ps[..i] + ps[i + 1..];
    assert forall j :: 0 <= j < |r| ==> r[j] == if j < i then ps[j] else ps[j + 1];
  }

  predicate NewId(ps: seq<Piece>, id: nat) { forall i :: 0 <= i < |ps| ==> ps[i].id != id }

  lemma InsertedAt(ps: seq<Piece>, p: Piece, j: nat)
    requires j <= |ps|
    ensures var i := Place(ps, p.expire);
      && Inserted(ps, p)[i] == p
      && (j < |ps| ==> Inserted(ps, p)[if j < i then j else j + 1] == ps[j])
      && Inserted(ps, p)[j] == if j < i then ps[j] else if j == i then p else ps[j - 1]
  {}

  lemma {:induction false} TotalConcat(a: seq<Piece>, b: seq<Piece>)
    ensures Total(a + b) == Total(a) + Total(b)
  {
    if b == [] {
      assert a + b == a;
    } else {
      assert (a + b)[..|a + b| - 1] == a + b[..|b| - 1];
      TotalConcat(a, b[..|b| - 1]);
    }
  }

  lemma InsertedTotal(ps: seq<Piece>, p: Piece)
    ensures Total(Inserted(ps, p)) == Total(ps) + Count(p.blocks)
  {
    var i := Place(ps, p.expire);
    var a, b := ps[..i], ps[i..];
    assert ps == a + b && [p][..0] == [];
    TotalConcat(a + [p], b);
    TotalConcat(a, [p]);
    TotalConcat(a, b);
  }

  lemma InsertedDistinct(ps: seq<Piece>, p: Piece)
    requires NewId(ps, p.id) && forall a, b :: 0 <= a < b < |ps| ==> ps[a].id != ps[b].id
    ensures var r := Inserted(ps, p); forall a, b :: 0 <= a < b < |r| ==> r[a].id != r[b].id
  {
    var r := Inserted(ps, p);
    forall j | 0 <= j <= |ps|
      ensures r[j] == (var i := Place(ps, p.expire); if j < i then ps[j] else if j == i then p else ps[j - 1]) {
      InsertedAt(ps, p, j);
    }
  }

  lemma InsertedCounted(ps: seq<Piece>, p: Piece, disks: Disks, bs: nat)
    requires AllCounted(ps, disks, bs) && Counted(p, disks, bs) && NewId(ps, p.id)
    ensures AllCounted(Inserted(ps, p), disks, bs)
    ensures AllFaithful(ps, disks, bs) && Faithful(p, disks, bs) ==> AllFaithful(Inserted(ps, p), disks, bs)
  {
    var r := Inserted(ps, p);
    InsertedDistinct(ps, p);
    forall j | 0 <= j < |r| ensures Counted(r[j], disks, bs) { InsertedAt(ps, p, j); }
    if AllFaithful(ps, disks, bs) && Faithful(p, disks, bs) {
      forall j | 0 <= j < |r| ensures Faithful(r[j], disks, bs) { InsertedAt(ps, p, j); }
    }
  }

  lemma InsertedOk(ps: seq<Piece>, p: Piece, disks: Disks, bs: nat)
    requires PiecesOk(ps, disks, bs) && PieceOk(p, disks, bs) && NewId(ps, p.id)
    ensures PiecesOk(Inserted(ps, p), disks, bs)
  {
    var r := Inserted(ps, p);
    InsertedDistinct(ps, p);
    forall j | 0 <= j < |r| ensures PieceOk(r[j], disks, bs) { InsertedAt(ps, p, j); }
  }

  /** A new piece is found, and others are found as before. */
  lemma FindInserted(ps: seq<Piece>, p: Piece, id: nat)
    requires NewId(ps, p.id) && forall a, b :: 0 <= a < b < |ps| ==> ps[a].id != ps[b].id
    ensures var r, f := Inserted(ps, p), Find(ps, id);
      if id == p.id then Find(r, id) < |r| && r[Find(r, id)] == p
      else if f == |ps| then Find(r, id) == |r|
      else Find(r, id) < |r| && r[Find(r, id)] == ps[f]
  {
    var r, f, i := Inserted(ps, p), Find(ps, id), Place(ps, p.expire);
    InsertedDistinct(ps, p);
    InsertedAt(ps, p, i);
    if id == p.id {
      FoundAt(r, i);
    } else if f < |ps| {
      InsertedAt(ps, p, if f < i then f else f + 1);
      FoundAt(r, if f < i then f else f + 1);
    } else if Find(r, id) < |r| {
      InsertedAt(ps, p, Find(r, id));
    }
  }

  /** Ids are distinct, so a piece is found where it stands. */
  lemma FoundAt(ps: seq<Piece>, i: nat)
    requires i < |ps| && forall a, b :: 0 <= a < b < |ps| ==> ps[a].id != ps[b].id
    ensures Find(ps, ps[i].id) == i
  {
    var j := Find(ps, ps[i].id);
  }


  /** Of a piece with one cached block, that block is seen; all else is seen as before. */
  lemma SeenInserted(ps: seq<Piece>, p: Piece, disks: Disks, bs: nat, block: nat, id: nat, k: nat)
    requires bs > 0 && PiecesOk(ps, disks, bs) && PieceOk(p, disks, bs) && NewId(ps, p.id) && block < |p.blocks|
    requires p.blocks[block].Cached? && forall j :: 0 <= j < |p.blocks| && j != block ==> p.blocks[j].Empty?
    requires id in disks && k < BlocksIn(|disks[id]|, bs)
    ensures PiecesOk(Inserted(ps, p), disks, bs)
    ensures Seen(Inserted(ps, p), disks, bs, id, k)
      == if id == p.id && k == block then Data(p.blocks, |disks[id]|, bs, k) else Seen(ps, disks, bs, id, k)
  {
    InsertedOk(ps, p, disks, bs);
    FindInserted(ps, p, id);
  }

  /** Blocks with only one of them cached. */
  function OneBlock(n: nat, block: nat, data: seq<Byte>): (r: seq<Block>)
    requires block < n
    ensures |r| == n && forall j :: 0 <= j < n ==> r[j] == if j == block then Cached(data) else Empty
  {
    seq(n, j requires 0 <= j < n => if j == block then Cached(data) else Empty)
  }

  lemma OneBlockCounts(n: nat, block: nat, data: seq<Byte>)
    requires block < n
    ensures Count(OneBlock(n, block, data)) == 1 && Longest(OneBlock(n, block, data), 1)
  {
    var b := OneBlock(n, block, data);
    ClearOne(b, block);
    AllEmpty(b[block := Empty]);
    assert AllCached(b, block, block + 1);
    forall x: nat, y: nat | x <= y <= |b| && AllCached(b, x, y) ensures y - x <= 1 { OnlyOne(b, block, x, y); }
  }

  lemma OnlyOne(b: seq<Block>, block: nat, x: nat, y: nat)
    requires x <= y <= |b| && AllCached(b, x, y) && forall j :: 0 <= j < |b| && j != block ==> b[j].Empty?
    ensures y - x <= 1
  {
    assert x < y ==> b[x].Cached? && x == block;
    assert x < y ==> b[y - 1].Cached? && y - 1 == block;
  }

  /** The caches show the same, but for the one block of the new piece p. */
  ghost predicate AddsBlock(ps: seq<Piece>, ps': seq<Piece>, disks: Disks, bs: nat, p: Piece, block: nat)
    requires bs > 0 && PiecesOk(ps, disks, bs) && PiecesOk(ps', disks, bs) && PieceOk(p, disks, bs)
    requires block < |p.blocks| && p.blocks[block].Cached?
  {
    forall id, k :: id in disks && 0 <= k < BlocksIn(|disks[id]|, bs) ==>
      Seen(ps', disks, bs, id, k)
        == if id == p.id && k == block then Data(p.blocks, |disks[id]|, bs, k) else Seen(ps, disks, bs, id, k)
  }

  lemma InsertedAdds(ps: seq<Piece>, p: Piece, disks: Disks, bs: nat, block: nat)
    requires bs > 0 && PiecesOk(ps, disks, bs) && PieceOk(p, disks, bs) && NewId(ps, p.id) && block < |p.blocks|
    requires p.blocks[block].Cached? && forall j :: 0 <= j < |p.blocks| && j != block ==> p.blocks[j].Empty?
    ensures PiecesOk(Inserted(ps, p), disks, bs) && AddsBlock(ps, Inserted(ps, p), disks, bs, p, block)
    ensures Total(Inserted(ps, p)) == Total(ps) + Count(p.blocks)
  {
    InsertedOk(ps, p, disks, bs);
    InsertedTotal(ps, p);
    forall id, k | id in disks && 0 <= k < BlocksIn(|disks[id]|, bs)
      ensures Seen(Inserted(ps, p), disks, bs, id, k)
        == if id == p.id && k == block then Data(p.blocks, |disks[id]|, bs, k) else Seen(ps, disks, bs, id, k)
    {
      SeenInserted(ps, p, disks, bs, block, id, k);
    }
  }

  lemma KeptNew(ps: seq<Piece>, ps': seq<Piece>, id: nat)
    requires NewId(ps, id) && Ids(ps') <= Ids(ps)
    ensures NewId(ps', id)
  {
    forall i | 0 <= i < |ps'| ensures ps'[i].id != id { assert ps'[i].id in Ids(ps'); }
  }

  lemma ErasedNew(ps: seq<Piece>, i: nat)
    requires i < |ps| && forall a, b :: 0 <= a < b < |ps| ==> ps[a].id != ps[b].id
    ensures NewId(Erase(ps, i), ps[i].id)
  {
    var r := Erase(ps, i);
    forall j | 0 <= j < |r| ensures r[j].id != ps[i].id {
      var k := if j < i then j else j + 1;
      assert r[j] == ps[k];
    }
  }

  function Empties(n: nat): (blocks: seq<Block>)
    ensures |blocks| == n && forall j :: 0 <= j < n ==> blocks[j].Empty?
  {
    seq(n, _ => Empty)
  }

  /** Blocks none of which is cached. */
  lemma NoBlocks(n: nat, blocks: seq<Block>)
    requires |blocks| == n && forall j :: 0 <= j < n ==> blocks[j].Empty?
    ensures Count(blocks) == 0
  {
    AllEmpty(blocks);
  }
}
