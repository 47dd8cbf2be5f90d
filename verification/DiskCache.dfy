/** The block cache: pieces with blocks to be written, and pieces with blocks that were read. */
module DiskCache {
  import opened DiskBlocks
  import opened DiskFlush

  /** A cached piece and its redundant counters. */
  datatype Piece = Piece(id: nat, blocks: seq<Block>, numBlocks: int, numContiguous: nat, nextHash: nat, expire: int)

  datatype Policy = Lru | LargestContiguous

  type Disks = map<nat, seq<Byte>>

  /** The piece exists, has the right number of blocks, and its counters are exact. */
  ghost predicate PieceOk(p: Piece, disks: Disks, bs: nat) {
    && p.id in disks && Sized(p.blocks, |disks[p.id]|, bs) && p.numBlocks == Count(p.blocks)
    && Longest(p.blocks, p.numContiguous)
  }

  ghost predicate PiecesOk(ps: seq<Piece>, disks: Disks, bs: nat) {
    && (forall i :: 0 <= i < |ps| ==> PieceOk(ps[i], disks, bs))
    && (forall i, j :: 0 <= i < j < |ps| ==> ps[i].id != ps[j].id)
  }

  /** The cached blocks of all pieces. */
  function Total(ps: seq<Piece>): nat {
    if ps == [] then 0 else Total(ps[..|ps| - 1]) + Count(ps[|ps| - 1].blocks)
  }

  function Erase<T>(s: seq<T>, i: nat): (r: seq<T>)
    requires i < |s|
    ensures |r| == |s| - 1
  {
    s[..i] + s[i + 1..]
  }

  lemma {:induction false} TotalUpdate(ps: seq<Piece>, i: nat, p: Piece)
    requires i < |ps|
    ensures Total(ps[i := p]) == Total(ps) - Count(ps[i].blocks) + Count(p.blocks)
  {
    var m := ps[..|ps| - 1];
    if i < |ps| - 1 {
      TotalUpdate(m, i, p);
      assert ps[i := p][..|ps| - 1] == m[i := p];
    } else {
      assert ps[i := p][..|ps| - 1] == m;
    }
  }

  lemma {:induction false} TotalErase(ps: seq<Piece>, i: nat)
    requires i < |ps|
    ensures Total(Erase(ps, i)) == Total(ps) - Count(ps[i].blocks)
  {
    var m := ps[..|ps| - 1];
    if i < |ps| - 1 {
      TotalErase(m, i);
      assert Erase(ps, i)[..|ps| - 2] == Erase(m, i) && Erase(ps, i)[|ps| - 2] == ps[|ps| - 1];
    } else {
      assert Erase(ps, i) == m;
    }
  }

  lemma EraseOk(ps: seq<Piece>, i: nat, disks: Disks, bs: nat)
    requires i < |ps| && PiecesOk(ps, disks, bs)
    ensures PiecesOk(Erase(ps, i), disks, bs)
  {}

  // ---------------------------------------------------------------- what readers see

  /** The position of a piece, or the end. */
  function Find(ps: seq<Piece>, id: nat): (i: nat)
    ensures i <= |ps| && (i < |ps| ==> ps[i].id == id) && forall j :: 0 <= j < i ==> ps[j].id != id
  {
    if ps == [] || ps[0].id == id then 0 else
    var i := Find(ps[1..], id);
    assert forall j :: 1 <= j < i + 1 ==> ps[j] == ps[1..][j - 1];
    i + 1
  }

  /** Block k of a piece as the cache and the disk together hold it. */
  ghost function Seen(ps: seq<Piece>, disks: Disks, bs: nat, id: nat, k: nat): seq<Byte>
    requires bs > 0 && PiecesOk(ps, disks, bs) && id in disks && k < BlocksIn(|disks[id]|, bs)
  {
    var i := Find(ps, id);
    if i < |ps| then assert PieceOk(ps[i], disks, bs); View(ps[i].blocks, disks[id], bs, k) else Slice(disks[id], bs, k)
  }

  /** Both states hold the same pieces and show the same bytes for all of them. */
  ghost predicate SameView(ps: seq<Piece>, disks: Disks, ps': seq<Piece>, disks': Disks, bs: nat)
    requires bs > 0 && PiecesOk(ps, disks, bs) && PiecesOk(ps', disks', bs)
  {
    && disks'.Keys == disks.Keys && (forall id :: id in disks ==> |disks'[id]| == |disks[id]|)
    && forall id, k ::
      id in disks && 0 <= k < BlocksIn(|disks[id]|, bs) ==> Seen(ps', disks', bs, id, k) == Seen(ps, disks, bs, id, k)
  }

  lemma SameViewTrans(ps: seq<Piece>, disks: Disks, ps1: seq<Piece>, disks1: Disks, ps2: seq<Piece>, disks2: Disks,
    bs: nat)
    requires bs > 0 && PiecesOk(ps, disks, bs) && PiecesOk(ps1, disks1, bs) && PiecesOk(ps2, disks2, bs)
    requires SameView(ps, disks, ps1, disks1, bs) && SameView(ps1, disks1, ps2, disks2, bs)
    ensures SameView(ps, disks, ps2, disks2, bs)
  {}

  /** Changing one piece and its disk contents, view by view the same, changes no view. */
  lemma UpdateSame(ps: seq<Piece>, disks: Disks, i: nat, p: Piece, disk: seq<Byte>, bs: nat)
    requires bs > 0 && PiecesOk(ps, disks, bs) && i < |ps| && p.id == ps[i].id && |disk| == |disks[p.id]|
    requires PieceOk(p, disks[p.id := disk], bs)
    requires forall k :: 0 <= k < |p.blocks| ==> View(p.blocks, disk, bs, k) == View(ps[i].blocks, disks[p.id], bs, k)
    ensures PiecesOk(ps[i := p], disks[p.id := disk], bs) && SameView(ps, disks, ps[i := p], disks[p.id := disk], bs)
  {
    var ps', disks' := ps[i := p], disks[p.id := disk];
    UpdateOk(ps, disks, i, p, disk, bs);
    forall id, k | id in disks && 0 <= k < BlocksIn(|disks[id]|, bs)
      ensures Seen(ps', disks', bs, id, k) == Seen(ps, disks, bs, id, k)
    {
      FindUpdate(ps, i, p, id);
    }
  }

  lemma UpdateOk(ps: seq<Piece>, disks: Disks, i: nat, p: Piece, disk: seq<Byte>, bs: nat)
    requires PiecesOk(ps, disks, bs) && i < |ps| && p.id == ps[i].id && |disk| == |disks[p.id]|
    requires PieceOk(p, disks[p.id := disk], bs)
    ensures PiecesOk(ps[i := p], disks[p.id := disk], bs)
  {
    var ps', disks' := ps[i := p], disks[p.id := disk];
    forall j | 0 <= j < |ps'| ensures PieceOk(ps'[j], disks', bs) {
      if j != i { assert PieceOk(ps[j], disks, bs); }
    }
  }

  lemma FindUpdate(ps: seq<Piece>, i: nat, p: Piece, id: nat)
    requires i < |ps| && p.id == ps[i].id && forall a, b :: 0 <= a < b < |ps| ==> ps[a].id != ps[b].id
    ensures Find(ps[i := p], id) == Find(ps, id) && (id == p.id ==> Find(ps, id) == i)
  {
    var ps', f := ps[i := p], Find(ps, id);
    var g := Find(ps', id);
    assert forall j :: 0 <= j < |ps| ==> ps'[j].id == ps[j].id;
    assert f < |ps| ==> ps'[f].id == id;
    assert g < |ps| ==> ps[g].id == id;
    assert ps[i].id == p.id;
  }

  /** Forgetting a piece without cached blocks changes no view. */
  lemma EraseSame(ps: seq<Piece>, disks: Disks, i: nat, bs: nat)
    requires bs > 0 && PiecesOk(ps, disks, bs) && i < |ps| && Count(ps[i].blocks) == 0
    ensures PiecesOk(Erase(ps, i), disks, bs) && SameView(ps, disks, Erase(ps, i), disks, bs)
  {
    EraseOk(ps, i, disks, bs);
    var ps' := Erase(ps, i);
    forall id, k | id in disks && 0 <= k < BlocksIn(|disks[id]|, bs)
      ensures Seen(ps', disks, bs, id, k) == Seen(ps, disks, bs, id, k)
    {
      FindErase(ps, i, id);
      if id == ps[i].id { CountZero(ps[i].blocks, k); }
    }
  }

  lemma FindErase(ps: seq<Piece>, i: nat, id: nat)
    requires i < |ps| && forall a, b :: 0 <= a < b < |ps| ==> ps[a].id != ps[b].id
    ensures var ps', f := Erase(ps, i), Find(ps, id);
      if id == ps[i].id then f == i && Find(ps', id) == |ps'|
      else if f == |ps| then Find(ps', id) == |ps'|
      else Find(ps', id) < |ps'| && ps'[Find(ps', id)] == ps[f]
  {
    var ps', f := Erase(ps, i), Find(ps, id);
    assert forall j :: 0 <= j < |ps'| ==> ps'[j] == ps[if j < i then j else j + 1];
    if f < |ps| && f != i { assert ps'[if f < i then f else f - 1] == ps[f]; }
  }

  lemma {:induction false} CountZero(blocks: seq<Block>, k: nat)
    requires Count(blocks) == 0 && k < |blocks|
    ensures blocks[k].Empty?
  {
    if k < |blocks| - 1 { CountZero(blocks[..|blocks| - 1], k); }
  }
}
