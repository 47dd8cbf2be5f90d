/** The files of a torrent laid out one behind the other, and the effect of moving and padding them. */
module FileLayout {

  /** Files are known by their number; pads made by the optimizer are numbered on their own. */
  datatype Name = Given(n: nat) | Padding(n: nat)

  datatype File = File(name: Name, size: nat, offset: nat, pad: bool)

  /** Memory pages are taken to be of this size. */
  const ALIGNMENT := 8192

  predicate Aligned(offset: nat) { offset % ALIGNMENT == 0 }

  /** The files lie one behind the other from 0 to end. */
  predicate Contiguous(files: seq<File>, end: nat) {
    if files == [] then end == 0
    else
      var last := files[|files| - 1];
      last.offset + last.size == end && Contiguous(files[..|files| - 1], last.offset)
  }

  /** The given files, wherever they lie. */
  function Bag(files: seq<File>): multiset<File> {
    if files == [] then multiset{} else Bag(files[..|files| - 1]) + Body(files[|files| - 1])
  }

  function Body(f: File): multiset<File> {
    if f.name.Given? then multiset{f.(offset := 0)} else multiset{}
  }

  lemma {:induction false} BagConcat(p: seq<File>, q: seq<File>)
    ensures Bag(p + q) == Bag(p) + Bag(q)
  {
    if q == [] {
      assert p + q == p;
    } else {
      assert (p + q)[..|p + q| - 1] == p + q[..|q| - 1];
      BagConcat(p, q[..|q| - 1]);
    }
  }

  lemma BagOne(f: File)
    ensures Bag([f]) == Body(f)
  {
    assert [f][..0] == [];
  }

  lemma BagThree(a: seq<File>, f: File, b: seq<File>)
    ensures Bag(a + [f] + b) == Bag(a) + Body(f) + Bag(b)
  {
    BagConcat(a + [f], b);
    BagConcat(a, [f]);
    BagOne(f);
  }

  /** A changed offset does not matter. */
  lemma BagUpdate(files: seq<File>, i: nat, f: File)
    requires i < |files| && Body(f) == Body(files[i])
    ensures Bag(files[i := f]) == Bag(files)
  {
    var a, b := files[..i], files[i + 1..];
    assert files == a + [files[i]] + b && files[i := f] == a + [f] + b;
    BagThree(a, f, b);
    BagThree(a, files[i], b);
  }

  // ---------------------------------------------------------------- moving files

  /** File `index` is taken out and put back in at dst, before it. */
  function Moved(files: seq<File>, index: nat, dst: nat): (r: seq<File>)
    requires dst <= index < |files|
    ensures |r| == |files|
  {
    files[..dst] + [files[index]] + files[dst..index] + files[index + 1..]
  }

  lemma MovedAt(files: seq<File>, index: nat, dst: nat, m: nat)
    requires dst <= index < |files| && m < |files|
    ensures Moved(files, index, dst)[m] == files[if m == dst then index else if dst < m <= index then m - 1 else m]
  {}

  lemma MovedBag(files: seq<File>, index: nat, dst: nat)
    requires dst <= index < |files|
    ensures Bag(Moved(files, index, dst)) == Bag(files)
  {
    Parts(files, dst, index);
    BagMove(files[..dst], files[dst..index], files[index + 1..], files[index]);
  }

  lemma Parts(files: seq<File>, dst: nat, index: nat)
    requires dst <= index < |files|
    ensures files == files[..dst] + files[dst..index] + [files[index]] + files[index + 1..]
  {}

  lemma BagMove(a: seq<File>, b: seq<File>, c: seq<File>, x: File)
    ensures Bag(a + [x] + b + c) == Bag(a + b + [x] + c)
  {
    BagConcat(a + [x] + b, c);
    BagThree(a, x, b);
    BagThree(a + b, x, c);
    BagConcat(a, b);
  }

  /** Taking a file out and putting it in elsewhere, as the vector does it. */
  method ReorderFile(files: seq<File>, index: nat, dst: nat) returns (r: seq<File>)
    requires dst <= index < |files|
    ensures r == Moved(files, index, dst)
  {
    var e := files[index];
    r := files[..index] + files[index + 1..];
    r := r[..dst] + [e] + r[dst..];
  }

  /** The first of the largest files from i on. */
  method Largest(files: seq<File>, i: nat) returns (best: nat)
    requires i < |files|
    ensures i <= best < |files| && forall j :: i <= j < |files| ==> files[j].size <= files[best].size
  {
    best := i;
    for j := i + 1 to |files|
      invariant i <= best < j && forall m :: i <= m < j ==> files[m].size <= files[best].size
    {
      if files[best].size < files[j].size { best := j; }
    }
  }

  /** The first of the largest files behind i that fit into a gap; the end if none fits. */
  method LargestFit(files: seq<File>, i: nat, gap: nat) returns (best: nat)
    requires i < |files|
    ensures best == |files| || (i < best < |files| && files[best].size <= gap)
    ensures forall j :: i < j < |files| && files[j].size <= gap ==> best < |files| && files[j].size <= files[best].size
  {
    best := |files|;
    for j := i + 1 to |files|
      invariant best == |files| || (i < best < j && files[best].size <= gap)
      invariant forall m :: i < m < j && files[m].size <= gap ==> best < |files| && files[m].size <= files[best].size
    {
      if files[j].size <= gap && (best == |files| || files[j].size > files[best].size) { best := j; }
    }
  }

  // ---------------------------------------------------------------- what a good layout is

  /** A file that is to start on a page. */
  predicate Big(f: File, limit: int) { limit >= 0 && f.size > limit && !f.pad }

  /** File k does not follow a pad. */
  predicate Unpadded(files: seq<File>, k: nat)
    requires k < |files|
  {
    k == 0 || files[k - 1].name.Given?
  }

  /** What is settled about file k once it is placed: a big file starts on a page; a pad is short, ends on a
      page right before a big file, and no later file would have fitted in its place; and a page that is
      reached without padding is given to the largest file left. */
  ghost predicate Settled(files: seq<File>, limit: int, k: nat)
    requires k < |files|
  {
    var f := files[k];
    && (Big(f, limit) && f.name.Given? ==> Aligned(f.offset))
    && (f.name.Padding? ==>
         && f.pad && 0 < f.size < ALIGNMENT && Aligned(f.offset + f.size) && k + 1 < |files|
         && Big(files[k + 1], limit) && files[k + 1].name.Given?
         && (forall m :: k + 1 < m < |files| && files[m].name.Given? ==> files[m].size > f.size))
    && (f.name.Given? && Aligned(f.offset) && Unpadded(files, k) ==>
         forall m :: k < m < |files| && files[m].name.Given? ==> files[m].size <= f.size)
  }

  /** The files before i are placed, up to off; those from i on are given ones. */
  ghost predicate Placed(files: seq<File>, limit: int, i: nat, off: nat) {
    && i <= |files| && Contiguous(files[..i], off)
    && (forall k :: 0 <= k < i ==> Settled(files, limit, k))
    && (forall k :: i <= k < |files| ==> files[k].name.Given?)
    && (i > 0 ==> files[i - 1].name.Given?)
  }

  lemma PlaceNext(files: seq<File>, i: nat, off: nat, f: File)
    requires i < |files| && Contiguous(files[..i], off) && f.offset == off
    ensures Contiguous(files[i := f][..i + 1], off + f.size)
  {
    var p := files[i := f][..i + 1];
    assert p[..i] == files[..i] && p[i] == f;
  }

  /** Moving a file that is not yet placed changes nothing for those that are. */
  lemma PlacedMove(files: seq<File>, limit: int, i: nat, off: nat, index: nat)
    requires Placed(files, limit, i, off) && i <= index < |files|
    ensures Placed(Moved(files, index, i), limit, i, off)
  {
    var r := Moved(files, index, i);
    assert r[..i] == files[..i];
    forall m | 0 <= m < |files|
      ensures r[m] == files[if m == i then index else if i < m <= index then m - 1 else m]
    {
      MovedAt(files, index, i, m);
    }
    forall k | 0 <= k < i ensures Settled(r, limit, k) { assert Settled(files, limit, k); }
  }

  /** Placing file i where the placed ones end. */
  lemma PlacedPut(files: seq<File>, limit: int, i: nat, off: nat)
    requires Placed(files, limit, i, off) && i < |files| && (Big(files[i], limit) ==> Aligned(off))
    requires Aligned(off) ==> forall m :: i < m < |files| ==> files[m].size <= files[i].size
    ensures Placed(files[i := files[i].(offset := off)], limit, i + 1, off + files[i].size)
  {
    var f := files[i].(offset := off);
    var r := files[i := f];
    PlaceNext(files, i, off, f);
    forall k | 0 <= k < i + 1 ensures Settled(r, limit, k) { assert k < i ==> Settled(files, limit, k); }
  }

  /** A pad of the given size and file i behind it. */
  function Padded(files: seq<File>, i: nat, off: nat, gap: nat, n: nat): (r: seq<File>)
    requires i < |files|
    ensures |r| == |files| + 1
  {
    files[..i] + [File(Padding(n), gap, off, true), files[i].(offset := off + gap)] + files[i + 1..]
  }

  /** Placing file i behind a pad. */
  lemma PlacedPad(files: seq<File>, limit: int, i: nat, off: nat, gap: nat, n: nat)
    requires Placed(files, limit, i, off) && i < |files| && Big(files[i], limit)
    requires 0 < gap < ALIGNMENT && Aligned(off + gap) && forall m :: i < m < |files| ==> files[m].size > gap
    ensures Placed(Padded(files, i, off, gap, n), limit, i + 2, off + gap + files[i].size)
  {
    var r := Padded(files, i, off, gap, n);
    PadContiguous(files, i, off, gap, n);
    assert forall m :: i + 2 <= m < |r| ==> r[m] == files[m - 1];
    assert forall m :: 0 <= m < i ==> r[m] == files[m];
    assert r[i] == File(Padding(n), gap, off, true) && r[i + 1] == files[i].(offset := off + gap);
    forall k | 0 <= k < i + 2 ensures Settled(r, limit, k) { assert k < i ==> Settled(files, limit, k); }
  }

  lemma PadContiguous(files: seq<File>, i: nat, off: nat, gap: nat, n: nat)
    requires i < |files| && Contiguous(files[..i], off)
    ensures Contiguous(Padded(files, i, off, gap, n)[..i + 2], off + gap + files[i].size)
  {
    var r := Padded(files, i, off, gap, n);
    var p := r[..i + 2];
    assert p[..i + 1][..i] == files[..i] && p[..i + 1][i] == r[i] && p[i + 1] == r[i + 1];
    assert Contiguous(p[..i + 1], off + gap);
  }

  lemma PadBag(files: seq<File>, i: nat, off: nat, gap: nat, n: nat)
    requires i < |files|
    ensures Bag(Padded(files, i, off, gap, n)) == Bag(files)
  {
    var pad, f := File(Padding(n), gap, off, true), files[i].(offset := off + gap);
    Parts(files, i, i);
    assert files[i..i] == [] && files[..i] + [] == files[..i];
    assert [pad, f] == [pad] + [f];
    BagThree(files[..i], files[i], files[i + 1..]);
    BagPad(files[..i], pad, f, files[i + 1..]);
  }

  lemma BagPad(a: seq<File>, pad: File, f: File, c: seq<File>)
    requires pad.name.Padding?
    ensures Bag(a + [pad, f] + c) == Bag(a) + Body(f) + Bag(c)
  {
    assert a + [pad, f] == (a + [pad]) + [f];
    BagThree(a + [pad], f, c);
    BagConcat(a, [pad]);
    BagOne(pad);
  }
}
