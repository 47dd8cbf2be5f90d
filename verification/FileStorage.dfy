/** The layout of the files of a torrent: adding files, optimizing the layout, and finding the files under a
    range of bytes. */
module FileStorage {
  import opened FileLayout

  /** A part of a file. */
  datatype Slice = Slice(index: nat, offset: nat, size: nat)

  /** A range within a piece. */
  datatype Request = Request(piece: nat, start: nat, length: nat)

  // ---------------------------------------------------------------- positions

  lemma {:induction false} ContiguousAt(files: seq<File>, end: nat, k: nat)
    requires Contiguous(files, end) && k < |files|
    ensures files[k].offset + files[k].size == (if k + 1 < |files| then files[k + 1].offset else end)
    ensures files[k].offset + files[k].size <= end && (k == 0 ==> files[k].offset == 0)
    decreases |files|
  {
    var m, last := files[..|files| - 1], files[|files| - 1];
    if k < |files| - 1 {
      ContiguousAt(m, last.offset, k);
    } else if k == 0 {
      assert m == [];
    }
  }

  lemma {:induction false} OffsetsAscend(files: seq<File>, end: nat, j: nat, k: nat)
    requires Contiguous(files, end) && j <= k < |files|
    ensures files[j].offset <= files[k].offset
    decreases k - j
  {
    if j < k {
      ContiguousAt(files, end, j);
      OffsetsAscend(files, end, j + 1, k);
    }
  }

  /** Slices that follow each other in file order and cover the range from a to b, each a nonempty part of
      its file. */
  predicate Covers(files: seq<File>, slices: seq<Slice>, a: nat, b: nat) {
    if slices == [] then a == b
    else
      var s := slices[|slices| - 1];
      && s.index < |files| && 0 < s.size && s.offset + s.size <= files[s.index].size
      && files[s.index].offset + s.offset + s.size == b && files[s.index].offset + s.offset >= a
      && Covers(files, slices[..|slices| - 1], a, files[s.index].offset + s.offset)
      && (|slices| > 1 ==> slices[|slices| - 2].index < s.index)
  }

  class FileStorage {
    const pieceLength: nat
    var files: seq<File>
    var totalSize: nat

    constructor (pieceLength: nat)
      requires pieceLength > 0
      ensures Valid() && files == [] && this.pieceLength == pieceLength
    {
      this.pieceLength := pieceLength;
      files, totalSize := [], 0;
    }

    /** The files lie one behind the other. */
    predicate Valid()
      reads this
    {
      pieceLength > 0 && Contiguous(files, totalSize)
    }

    method AddFile(name: Name, size: int, pad: bool)
      requires Valid()
      modifies this
      ensures Valid() && files == old(files) + [File(name, if size < 0 then 0 else size, old(totalSize), pad)]
      ensures totalSize == old(totalSize) + if size < 0 then 0 else size
    {
      var n := if size < 0 then 0 else size;
      var f := File(name, n, totalSize, pad);
      assert (files + [f])[..|files|] == files;
      files := files + [f];
      totalSize := totalSize + n;
    }

    /** Reorders the files, and pads them if that is asked for. */
    method Optimize(padFileLimit: int)
      requires Valid() && forall k :: 0 <= k < |files| ==> files[k].name.Given?
      modifies this
      ensures Valid() && Bag(files) == Bag(old(files))
      ensures forall k :: 0 <= k < |files| ==> Settled(files, EffectiveLimit(padFileLimit), k)
      ensures padFileLimit < 0 ==> forall k :: 0 <= k < |files| ==> files[k].name.Given?
      ensures padFileLimit >= 0 ==> forall k :: 0 <= k < |files| ==>
        var f := files[k];
        f.name.Given? && !f.pad && f.size > padFileLimit && f.size > 8192 ==> f.offset % 8192 == 0
    {
      var limit := EffectiveLimit(padFileLimit);
      var off: nat, pads: nat, i: nat := 0, 0, 0;
      totalSize := 0;
      assert files[..0] == [];
      while i < |files|
        invariant Placed(files, limit, i, off) && Bag(files) == Bag(old(files))
        decreases |files| - i
      {
        i, off, pads := PlaceOne(i, off, pads, limit);
      }
      assert files[..i] == files;
      totalSize := off;
      forall k | 0 <= k < |files|
        ensures padFileLimit < 0 ==> files[k].name.Given?
        ensures padFileLimit >= 0 && files[k].name.Given? && Big(files[k], limit) ==> files[k].offset % 8192 == 0
      {
        assert Settled(files, limit, k);
      }
    }

    /** Places the next file, and a pad before it if need be. */
    method PlaceOne(i: nat, off: nat, pads: nat, limit: int) returns (i': nat, off': nat, pads': nat)
      requires i < |files| && Placed(files, limit, i, off) && (limit < 0 || limit >= ALIGNMENT)
      modifies this`files
      ensures Placed(files, limit, i', off') && Bag(files) == Bag(old(files)) && |files| - i' < |old(files)| - i
    {
      i', pads' := i + 1, pads;
      if off % ALIGNMENT == 0 {
        off' := PutLargest(i, off, limit);
      } else if limit >= 0 && files[i].size > limit && !files[i].pad {
        i', off', pads' := PutBig(i, off, pads, limit);
      } else {
        off' := Put(i, off, limit);
      }
    }

    /** On a page: the largest file left goes here. */
    method PutLargest(i: nat, off: nat, ghost limit: int) returns (off': nat)
      requires i < |files| && Placed(files, limit, i, off) && Aligned(off)
      modifies this`files
      ensures Placed(files, limit, i + 1, off') && Bag(files) == Bag(old(files)) && |files| == |old(files)|
    {
      var best := Largest(files, i);
      MoveTo(best, i, off, limit);
      off' := Put(i, off, limit);
    }

    /** Before a big file that would not start on a page: the largest file that fits into the gap, or a pad. */
    method PutBig(i: nat, off: nat, pads: nat, ghost limit: int) returns (i': nat, off': nat, pads': nat)
      requires i < |files| && Placed(files, limit, i, off) && Big(files[i], limit) && !Aligned(off)
        && limit >= ALIGNMENT
      modifies this`files
      ensures Placed(files, limit, i', off') && Bag(files) == Bag(old(files)) && |files| - i' < |old(files)| - i
    {
      i', pads' := i + 1, pads;
      var gap := ALIGNMENT - off % ALIGNMENT;
      var best := LargestFit(files, i, gap);
      if best != |files| {
        MoveTo(best, i, off, limit);
        off' := Put(i, off, limit);
      } else {
        off' := PutPadded(i, off, gap, pads, limit);
        i', pads' := i + 2, pads + 1;
      }
    }

    /** Gives file i its place. */
    method Put(i: nat, off: nat, ghost limit: int) returns (off': nat)
      requires i < |files| && Placed(files, limit, i, off) && (Big(files[i], limit) ==> Aligned(off))
      requires Aligned(off) ==> forall m :: i < m < |files| ==> files[m].size <= files[i].size
      modifies this`files
      ensures Placed(files, limit, i + 1, off') && Bag(files) == Bag(old(files)) && |files| == |old(files)|
    {
      PlacedPut(files, limit, i, off);
      BagUpdate(files, i, files[i].(offset := off));
      off' := off + files[i].size;
      files := files[i := files[i].(offset := off)];
    }

    /** Puts a pad before file i, which then starts on a page. */
    method PutPadded(i: nat, off: nat, gap: nat, pads: nat, ghost limit: int) returns (off': nat)
      requires i < |files| && Placed(files, limit, i, off) && Big(files[i], limit) && off % ALIGNMENT != 0
        && gap == ALIGNMENT - off % ALIGNMENT
      requires forall m :: i < m < |files| ==> files[m].size > gap
      modifies this`files
      ensures Placed(files, limit, i + 2, off') && Bag(files) == Bag(old(files)) && |files| == |old(files)| + 1
    {
      PadLemma(off);
      PlacedPad(files, limit, i, off, gap, pads);
      PadBag(files, i, off, gap, pads);
      off' := off + gap + files[i].size;
      files := Padded(files, i, off, gap, pads);
    }

    method MoveTo(best: nat, i: nat, ghost off: nat, ghost limit: int)
      requires i <= best < |files| && Placed(files, limit, i, off)
      modifies this`files
      ensures Placed(files, limit, i, off) && Bag(files) == Bag(old(files)) && |files| == |old(files)|
        && files[i] == old(files)[best]
      ensures (forall m :: i <= m < |files| ==> old(files)[m].size <= old(files)[best].size) ==>
        forall m :: i <= m < |files| ==> files[m].size <= files[i].size
    {
      PlacedMove(files, limit, i, off, best);
      MovedBag(files, best, i);
      forall m | i <= m < |files|
        ensures Moved(files, best, i)[m] == files[if m == i then best else if i < m <= best then m - 1 else m]
      {
        MovedAt(files, best, i, m);
      }
      if best == i { assert Moved(files, best, i) == files; }
      if best != i { files := ReorderFile(files, best, i); }
    }

    /** The first file that starts behind an offset. */
    method UpperBound(offset: nat) returns (i: nat)
      requires Valid()
      ensures i <= |files| && (i > 0 ==> files[i - 1].offset <= offset) && (i < |files| ==> files[i].offset > offset)
      ensures files != [] ==> i > 0
    {
      var hi: nat := |files|;
      i := 0;
      if files != [] { ContiguousAt(files, totalSize, 0); }
      while i < hi
        invariant i <= hi <= |files| && (i > 0 ==> files[i - 1].offset <= offset)
          && (hi < |files| ==> files[hi].offset > offset)
        invariant hi == 0 ==> files == []
        decreases hi - i
      {
        var mid := (i + hi) / 2;
        if files[mid].offset <= offset { i := mid + 1; } else { hi := mid; }
      }
    }

    /** The last file that starts at or before an offset. */
    method FileAtOffset(offset: nat) returns (i: nat)
      requires Valid() && files != [] && offset <= totalSize
      ensures i < |files| && files[i].offset <= offset <= files[i].offset + files[i].size
      ensures forall k :: i < k < |files| ==> files[k].offset > offset
    {
      i := UpperBound(offset);
      i := i - 1;
      ContiguousAt(files, totalSize, i);
      forall k | i < k < |files| ensures files[k].offset > offset { OffsetsAscend(files, totalSize, i + 1, k); }
    }

    /** The parts of files that hold a range of a piece, in order. */
    method MapBlock(piece: nat, offset: nat, size: nat) returns (slices: seq<Slice>)
      requires Valid() && piece * pieceLength + offset + size <= totalSize
      ensures Covers(files, slices, piece * pieceLength + offset, piece * pieceLength + offset + size)
    {
      slices := [];
      if |files| == 0 { return; }
      var target := piece * pieceLength + offset;
      var i := FileAtOffset(target);
      var fileOffset, left := target - files[i].offset, size;
      ghost var pos := target;
      while left > 0
        invariant 0 <= left <= size && pos + left == target + size && Covers(files, slices, target, pos)
        invariant left > 0 ==> i < |files| && 0 <= fileOffset <= files[i].size && fileOffset == pos - files[i].offset
        invariant slices != [] ==> slices[|slices| - 1].index < i
        decreases |files| - i
      {
        ContiguousAt(files, totalSize, i);
        if fileOffset < files[i].size {
          var n := if files[i].size - fileOffset < left then files[i].size - fileOffset else left;
          var s := Slice(i, fileOffset, n);
          assert (slices + [s])[..|slices|] == slices;
          slices := slices + [s];
          left, fileOffset, pos := left - n, fileOffset + n, pos + n;
        }
        fileOffset := fileOffset - files[i].size;
        i := i + 1;
      }
    }

    /** Where a part of a file lies in the pieces. */
    method MapFile(index: nat, fileOffset: nat, size: nat) returns (r: Request)
      requires Valid() && index < |files|
      ensures r.piece * pieceLength + r.start == files[index].offset + fileOffset && r.start < pieceLength
        && r.length == size
    {
      var offset := files[index].offset + fileOffset;
      DivMod(offset, pieceLength);
      r := Request(offset / pieceLength, offset % pieceLength, size);
    }
  }

  lemma DivMod(a: nat, b: nat)
    requires b > 0
    ensures a / b >= 0 && a / b * b + a % b == a
  {}

  function Sizes(slices: seq<Slice>): nat {
    if slices == [] then 0 else Sizes(slices[..|slices| - 1]) + slices[|slices| - 1].size
  }

  /** The slices of a range cover it without gap or overlap: each starts where those before it end. */
  lemma {:induction false} SliceStarts(files: seq<File>, slices: seq<Slice>, a: nat, b: nat, k: nat)
    requires Covers(files, slices, a, b) && k < |slices|
    ensures a + Sizes(slices) == b && slices[k].index < |files| && 0 < slices[k].size
    ensures files[slices[k].index].offset + slices[k].offset == a + Sizes(slices[..k])
  {
    var m, s := slices[..|slices| - 1], slices[|slices| - 1];
    var c := files[s.index].offset + s.offset;
    CoversSizes(files, m, a, c);
    if k < |m| {
      SliceStarts(files, m, a, c, k);
      assert m[..k] == slices[..k];
    }
  }

  lemma {:induction false} CoversSizes(files: seq<File>, slices: seq<Slice>, a: nat, b: nat)
    requires Covers(files, slices, a, b)
    ensures a + Sizes(slices) == b
  {
    if slices != [] {
      var s := slices[|slices| - 1];
      CoversSizes(files, slices[..|slices| - 1], a, files[s.index].offset + s.offset);
    }
  }

  function EffectiveLimit(limit: int): int { if 0 <= limit < ALIGNMENT then ALIGNMENT else limit }

  lemma PadLemma(off: nat)
    requires off % ALIGNMENT != 0
    ensures Aligned(off + (ALIGNMENT - off % ALIGNMENT))
  {}
}
