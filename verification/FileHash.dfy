/** The ed2k hash of a file: the MD4 digest of each piece, computed block by block, and of the digests. */
module FileHash {
  import BitArith
  import opened Md4Spec
  import opened Md4Stream

  type Digest = seq<Byte>

  datatype Outcome = ReadError | EmptyFile | Hashed(pieces: seq<Digest>, file: Digest)

  function Min(a: nat, b: nat): nat { if a < b then a else b }

  /** The piece-sized slices of a file; only the last one may be shorter. */
  function Pieces(data: seq<Byte>, size: nat): seq<seq<Byte>>
    requires size > 0
    decreases |data|
  {
    if data == [] then [] else [data[..Min(size, |data|)]] + Pieces(data[Min(size, |data|)..], size)
  }

  function Join(parts: seq<seq<Byte>>): seq<Byte> {
    if parts == [] then [] else parts[0] + Join(parts[1..])
  }

  /** The slices tile the file. */
  lemma {:induction false} PiecesTile(data: seq<Byte>, size: nat)
    requires size > 0
    ensures Join(Pieces(data, size)) == data
    decreases |data|
  {
    if data != [] { PiecesTile(data[Min(size, |data|)..], size); }
  }

  lemma {:induction false} PieceSizes(data: seq<Byte>, size: nat, i: nat)
    requires size > 0 && i < |Pieces(data, size)|
    ensures 0 < |Pieces(data, size)[i]| <= size && (i < |Pieces(data, size)| - 1 ==> |Pieces(data, size)[i]| == size)
    decreases |data|
  {
    var rest := data[Min(size, |data|)..];
    if i > 0 {
      PieceSizes(rest, size, i - 1);
    }
  }

  lemma {:induction false} PieceCount(data: seq<Byte>, size: nat)
    requires size > 0
    ensures |Pieces(data, size)| == (|data| + size - 1) / size
    decreases |data|
  {
    CeilStep(|data|, size);
    if data != [] { PieceCount(data[Min(size, |data|)..], size); }
  }

  lemma CeilStep(n: nat, size: nat)
    requires size > 0
    ensures n == 0 ==> (n + size - 1) / size == 0
    ensures n > 0 ==> (n + size - 1) / size == (n - Min(size, n) + size - 1) / size + 1
  {
    BitArith.DivUnique(size - 1, size, 0, size - 1);
    if 0 < n <= size {
      BitArith.DivUnique(n + size - 1, size, 1, n - 1);
    } else if n > size {
      var q, r := (n - 1) / size, (n - 1) % size;
      BitArith.DivUnique(n + size - 1, size, q + 1, r);
    }
  }

  /** Piece i is the slice from i times the size on. */
  lemma {:induction false} PieceAt(data: seq<Byte>, size: nat, i: nat)
    requires size > 0 && i < |Pieces(data, size)|
    ensures i * size < |data|
    ensures Pieces(data, size)[i] == data[i * size..i * size + Min(size, |data| - i * size)]
    decreases i
  {
    if i > 0 {
      var rest := data[Min(size, |data|)..];
      PieceAt(rest, size, i - 1);
      PieceShift(data, size, i - 1, (i - 1) * size, rest);
      Times(i - 1, size);
    }
  }

  lemma Times(i: nat, size: nat)
    ensures (i + 1) * size == size + i * size
  {}

  lemma PieceShift(data: seq<Byte>, size: nat, i: nat, at: nat, rest: seq<Byte>)
    requires size > 0 && rest == data[Min(size, |data|)..] && at < |rest|
    ensures size + at < |data|
    ensures rest[at..at + Min(size, |rest| - at)] == data[size + at..size + at + Min(size, |data| - (size + at))]
  {
    SliceShift(data, size, at, Min(size, |rest| - at));
  }

  lemma SliceShift(data: seq<Byte>, n: nat, a: nat, len: nat)
    requires n + a + len <= |data|
    ensures data[n..][a..a + len] == data[n + a..n + a + len]
  {}

  /** The digests of all pieces. */
  function Digests(f: Compression, parts: seq<seq<Byte>>): seq<Digest> {
    if parts == [] then [] else Digests(f, parts[..|parts| - 1]) + [Md4(f, parts[|parts| - 1])]
  }

  /** The hash of a set of digests: of several the digest of all of them, of one itself. */
  function FromHashset(f: Compression, hashes: seq<Digest>): Digest {
    if |hashes| > 1 then Md4(f, Join(hashes)) else if |hashes| == 1 then hashes[0] else []
  }

  /** The piece hashes of a file; a file of full pieces gets one more hash at the end. */
  function HashesOf(f: Compression, data: seq<Byte>, size: nat, terminal: Digest): seq<Digest>
    requires size > 0
  {
    Digests(f, Pieces(data, size)) + if |Pieces(data, size)| * size == |data| then [terminal] else []
  }

  lemma {:induction false} DigestsAt(f: Compression, parts: seq<seq<Byte>>, i: nat)
    requires i < |parts|
    ensures |Digests(f, parts)| == |parts| && Digests(f, parts)[i] == Md4(f, parts[i])
  {
    var m := parts[..|parts| - 1];
    if i < |m| { DigestsAt(f, m, i); } else if m != [] { DigestsAt(f, m, 0); }
  }

  lemma PieceTotal(data: seq<Byte>, size: nat)
    requires size > 0
    ensures |Pieces(data, size)| == (if |data| % size == 0 then |data| / size else |data| / size + 1)
    ensures |Pieces(data, size)| * size == |data| <==> |data| % size == 0
  {
    PieceCount(data, size);
    RoundedUp(|data|, size, |data| / size, |data| % size);
  }

  lemma RoundedUp(len: nat, size: nat, q: nat, r: nat)
    requires size > 0 && q == len / size && r == len % size
    ensures (len + size - 1) / size == if r == 0 then q else q + 1
    ensures (if r == 0 then q else q + 1) * size == len <==> r == 0
  {
    assert len == q * size + r;
    Times(q, size);
    if r == 0 {
      BitArith.DivUnique(len + size - 1, size, q, size - 1);
    } else {
      BitArith.DivUnique(len + size - 1, size, q + 1, r - 1);
    }
  }

  /** A file has one hash more than full pieces: that of what is left, or the terminal one. */
  lemma HashesAt(f: Compression, data: seq<Byte>, size: nat, terminal: Digest, i: nat)
    requires size > 0 && data != [] && i <= |data| / size
    ensures |HashesOf(f, data, size, terminal)| == |data| / size + 1
    ensures i < |Pieces(data, size)| ==>
      var part := i * size < |data|;
      part && HashesOf(f, data, size, terminal)[i] == Md4(f, data[i * size..i * size + Min(size, |data| - i * size)])
    ensures i == |Pieces(data, size)| ==> |data| == i * size && HashesOf(f, data, size, terminal)[i] == terminal
  {
    PieceTotal(data, size);
    var parts := Pieces(data, size);
    if i < |parts| {
      DigestsAt(f, parts, i);
      PieceAt(data, size, i);
    } else {
      DigestsAt(f, parts, 0);
    }
  }

  /** A file shorter than a piece has the digest of its bytes, any other the digest of all its hashes. */
  lemma FileHashIs(f: Compression, data: seq<Byte>, size: nat, terminal: Digest)
    requires size > 0 && data != []
    ensures var hashes := HashesOf(f, data, size, terminal);
      FromHashset(f, hashes) == if |data| < size then Md4(f, data) else Md4(f, Join(hashes))
  {
    HashesAt(f, data, size, terminal, 0);
    if |data| < size {
      BitArith.DivUnique(|data|, size, 0, |data|);
      assert data[0..|data|] == data;
    } else {
      AtLeastOne(|data|, size);
    }
  }

  lemma AtLeastOne(n: nat, size: nat)
    requires n >= size > 0
    ensures n / size >= 1
  {
    var q := (n - size) / size;
    BitArith.DivNonNegative(n - size, size);
    Times(q, size);
    BitArith.DivUnique(n, size, q + 1, (n - size) % size);
  }

  /** How many reads a piece takes. */
  function Reads(len: nat, blockSize: nat): (n: nat)
    requires blockSize > 0
    ensures n == 0 <==> len == 0
  {
    if len == 0 then 0 else 1 + Reads(len - Min(blockSize, len), blockSize)
  }

  /** How many reads some pieces take. */
  function AllReads(parts: seq<seq<Byte>>, blockSize: nat): nat
    requires blockSize > 0
  {
    if parts == [] then 0 else
    AllReads(parts[..|parts| - 1], blockSize) + Reads(|parts[|parts| - 1]|, blockSize)
  }

  lemma {:induction false} ReadsUpTo(parts: seq<seq<Byte>>, blockSize: nat, i: nat)
    requires blockSize > 0 && i <= |parts|
    ensures AllReads(parts[..i], blockSize) <= AllReads(parts, blockSize)
  {
    if i == |parts| {
      assert parts[..i] == parts;
    } else {
      var m := parts[..|parts| - 1];
      ReadsUpTo(m, blockSize, i);
      assert m[..i] == parts[..i];
    }
  }

  /** None of the reads from one up to another fails. */
  predicate Succeed(fails: nat -> bool, from: nat, to: nat) { forall k :: from <= k < to ==> !fails(k) }

  /** Hashes one piece block by block. The k-th read of the file fails or is cancelled if fails(k). */
  method HashPiece(f: Compression, data: seq<Byte>, start: nat, len: nat, blockSize: nat, first: nat,
    fails: nat -> bool)
    returns (ok: bool, digest: Digest, next: nat)
    requires start + len <= |data| && 0 < blockSize < HIGH
    ensures ok ==> digest == Md4(f, data[start..start + len])
    ensures ok ==> next == first + Reads(len, blockSize) && true == Succeed(fails, first, next)
    ensures !ok ==> first < next <= first + Reads(len, blockSize) && fails(next - 1)
  {
    var ctx := new Context(f);
    var left, offset := len, start;
    ok, digest, next := true, [], first;
    while left > 0
      invariant 0 <= left <= len && offset + left == start + len && ctx.f == f && fresh(ctx) && fresh(ctx.buffer)
      invariant true == ctx.Absorbed(data[start..offset])
      invariant first <= next && next + Reads(left, blockSize) == first + Reads(len, blockSize)
      invariant Succeed(fails, first, next)
      decreases left
    {
      next := next + 1;
      if fails(next - 1) {
        return false, [], next;
      }
      var n := Min(blockSize, left);
      HashBlock(ctx, data, start, offset, n);
      left, offset := left - n, offset + n;
    }
    digest := ctx.Final(data[start..offset]);
  }

  /** Hashes the next block. */
  method HashBlock(ctx: Context, data: seq<Byte>, ghost start: nat, offset: nat, n: nat)
    requires start <= offset <= offset + n <= |data| && n < HIGH && true == ctx.Absorbed(data[start..offset])
    modifies ctx, ctx.buffer
    ensures true == ctx.Absorbed(data[start..offset + n])
  {
    ctx.Update(data[offset..offset + n], data[start..offset]);
    assert data[start..offset] + data[offset..offset + n] == data[start..offset + n];
  }

  /** Reads a file and hashes it. */
  method HashFile(f: Compression, data: seq<Byte>, pieceSize: nat, blockSize: nat, terminal: Digest, fails: nat -> bool)
    returns (o: Outcome)
    requires pieceSize > 0 && 0 < blockSize < HIGH && |terminal| == 16
    requires 16 * (|Pieces(data, pieceSize)| + 1) < HIGH
    ensures data == [] ==> o == EmptyFile
    ensures data != [] && o != ReadError ==>
      o == Hashed(HashesOf(f, data, pieceSize, terminal), FromHashset(f, HashesOf(f, data, pieceSize, terminal)))
    ensures o == ReadError <==> !Succeed(fails, 0, AllReads(Pieces(data, pieceSize), blockSize))
  {
    if |data| == 0 { return EmptyFile; }
    var ok, hashes := HashPieces(f, data, pieceSize, blockSize, fails);
    if !ok { return ReadError; }
    DigestSizes(f, Pieces(data, pieceSize));
    if |hashes| * pieceSize == |data| { hashes := hashes + [terminal]; }
    var file := HashHashes(f, hashes);
    o := Hashed(hashes, file);
  }

  /** Hashes the pieces of a file one after the other. */
  method HashPieces(f: Compression, data: seq<Byte>, pieceSize: nat, blockSize: nat, fails: nat -> bool)
    returns (ok: bool, hashes: seq<Digest>)
    requires pieceSize > 0 && 0 < blockSize < HIGH
    ensures ok ==> hashes == Digests(f, Pieces(data, pieceSize))
    ensures ok <==> true == Succeed(fails, 0, AllReads(Pieces(data, pieceSize), blockSize))
  {
    var count := (|data| + pieceSize - 1) / pieceSize;
    PieceCount(data, pieceSize);
    ghost var parts := Pieces(data, pieceSize);
    var capacity: nat, offset: nat, next: nat := |data|, 0, 0;
    ok, hashes := true, [];
    assert Hashing(f, data, pieceSize, blockSize, fails, parts, 0, 0, 0, []);
    for i := 0 to count
      invariant ok && offset + capacity == |data|
      invariant true == Hashing(f, data, pieceSize, blockSize, fails, parts, i, offset, next, hashes)
    {
      var len := Min(pieceSize, capacity);
      ok, hashes, next := HashNext(f, data, pieceSize, blockSize, fails, offset, len, next, hashes, parts, i);
      if !ok { return; }
      capacity, offset := capacity - len, offset + len;
    }
    assert parts[..count] == parts;
  }

  /** The first i pieces have been hashed, which took `next` reads, and the rest of the file starts at `offset`. */
  ghost predicate Hashing(f: Compression, data: seq<Byte>, size: nat, blockSize: nat, fails: nat -> bool,
    parts: seq<seq<Byte>>, i: nat, offset: nat, next: nat, hashes: seq<Digest>)
  {
    && size > 0 && blockSize > 0 && i <= |parts| && offset <= |data|
    && hashes == Digests(f, parts[..i]) && Pieces(data[offset..], size) == parts[i..]
    && next == AllReads(parts[..i], blockSize) && true == Succeed(fails, 0, next)
  }

  /** Hashes the next piece. */
  method HashNext(f: Compression, data: seq<Byte>, ghost size: nat, blockSize: nat, fails: nat -> bool, offset: nat,
    len: nat, next: nat, hashes: seq<Digest>, ghost parts: seq<seq<Byte>>, ghost i: nat)
    returns (ok: bool, hashes': seq<Digest>, next': nat)
    requires 0 < blockSize < HIGH && i < |parts|
    requires true == Hashing(f, data, size, blockSize, fails, parts, i, offset, next, hashes)
    requires len == Min(size, |data| - offset)
    ensures ok ==> true == Hashing(f, data, size, blockSize, fails, parts, i + 1, offset + len, next', hashes')
    ensures !ok ==> false == Succeed(fails, 0, AllReads(parts, blockSize))
  {
    NextPiece(data, size, offset, len, parts, i);
    ReadsUpTo(parts, blockSize, i + 1);
    var digest;
    ok, digest, next' := HashPiece(f, data, offset, len, blockSize, next, fails);
    hashes' := hashes + [digest];
    if ok { SucceedMore(fails, 0, next, next'); }
  }

  lemma SucceedMore(fails: nat -> bool, a: nat, b: nat, c: nat)
    requires Succeed(fails, a, b) && Succeed(fails, b, c)
    ensures true == Succeed(fails, a, c)
  {}

  lemma NextPiece(data: seq<Byte>, size: nat, offset: nat, len: nat, parts: seq<seq<Byte>>, i: nat)
    requires size > 0 && offset <= |data| && i < |parts| && Pieces(data[offset..], size) == parts[i..]
      && len == Min(size, |data| - offset)
    ensures parts[i] == data[offset..offset + len] && Pieces(data[offset + len..], size) == parts[i + 1..]
    ensures parts[..i + 1][..i] == parts[..i] && parts[..i + 1][i] == parts[i]
  {
    var rest := data[offset..];
    assert parts[i..][0] == parts[i] && parts[i..][1..] == parts[i + 1..];
    assert rest[len..] == data[offset + len..] && rest[..len] == data[offset..offset + len];
  }

  /** The hash of a set of digests. */
  method HashHashes(f: Compression, hashes: seq<Digest>) returns (h: Digest)
    requires hashes != [] && 16 * |hashes| < HIGH && AllDigests(hashes)
    ensures h == FromHashset(f, hashes)
  {
    if |hashes| > 1 {
      var ctx := new Context(f);
      JoinSize(hashes);
      ctx.Update(Join(hashes), []);
      assert [] + Join(hashes) == Join(hashes);
      h := ctx.Final(Join(hashes));
    } else {
      h := hashes[0];
    }
  }

  predicate AllDigests(hashes: seq<Digest>) { forall i :: 0 <= i < |hashes| ==> |hashes[i]| == 16 }

  lemma {:induction false} JoinSize(hashes: seq<Digest>)
    requires AllDigests(hashes)
    ensures |Join(hashes)| == 16 * |hashes|
  {
    if hashes != [] { JoinSize(hashes[1..]); }
  }

  lemma {:induction false} DigestSizes(f: Compression, parts: seq<seq<Byte>>)
    ensures AllDigests(Digests(f, parts)) && |Digests(f, parts)| == |parts|
  {
    if parts != [] { DigestSizes(f, parts[..|parts| - 1]); }
  }
}
