/** Complete chunked responses: however their bytes are cut into calls, the parser finds the same chunks, and
    collapsing the receive buffer leaves exactly the body. */
module HttpMessages {
  import opened HttpNumbers
  import opened HttpChunks
  import opened HttpCollapse
  import opened HttpParser

  const CRLF: string := "\r\n"

  // ---------------------------------------------------------------- hexadecimal sizes

  function HexDigit(v: nat): (c: char)
    requires v < 16
    ensures DigitValue(c, 16) == v
  {
    if v < 10 then '0' + v as char else 'a' + (v - 10) as char
  }

  function Hex(n: nat): (s: string)
    ensures |s| > 0 && (n > 0 ==> s[0] != '0')
  {
    if n < 16 then [HexDigit(n)] else Hex(n / 16) + [HexDigit(n % 16)]
  }

  lemma {:induction false} ReadHex(n: nat, rest: string)
    requires rest != [] ==> !IsDigit(rest[0], 16)
    ensures ReadDigits(Hex(n) + rest, 16, 0) == n
  {
    ReadHexThen(n, rest);
    assert ReadDigits(rest, 16, n) == n;
  }

  /** Reading the digits of n leaves the number n and whatever comes after. */
  lemma {:induction false} ReadHexThen(n: nat, rest: string)
    ensures ReadDigits(Hex(n) + rest, 16, 0) == ReadDigits(rest, 16, n)
  {
    if n < 16 {
      assert Hex(n) + rest == [HexDigit(n)] + rest;
      assert ([HexDigit(n)] + rest)[1..] == rest;
    } else {
      var last := [HexDigit(n % 16)];
      assert Hex(n) + rest == Hex(n / 16) + (last + rest);
      ReadHexThen(n / 16, last + rest);
      assert (last + rest)[1..] == rest;
    }
  }

  lemma {:induction false} HexIsHex(n: nat, i: nat)
    requires i < |Hex(n)|
    ensures IsDigit(Hex(n)[i], 16) && Hex(n)[i] != 'x' && Hex(n)[i] != 'X'
  {
    if n >= 16 && i < |Hex(n / 16)| { HexIsHex(n / 16, i); }
  }

  /** What may follow a size on its line. */
  predicate Extension(ext: string) {
    LF !in ext && (ext == [] || ext[0] == ';')
  }

  /** A chunk size followed by an optional extension and the line end is read back as written. */
  lemma SizeRoundTrip(n: nat, ext: string, rest: string)
    requires Extension(ext)
    ensures StrToInt(Hex(n) + ext + CRLF + rest, 16) == if n < 0x8000_0000_0000_0000 then n else 0x7fff_ffff_ffff_ffff
  {
    var tail := ext + CRLF + rest;
    var s := Hex(n) + tail;
    assert Hex(n) + ext + CRLF + rest == s;
    HexIsHex(n, 0);
    assert !IsDigit(';', 16) && !IsDigit(CR, 16);
    assert !IsDigit(tail[0], 16) && tail[0] != 'x' && tail[0] != 'X';
    assert SkipSpaces(s) == s;
    if |s| >= 2 { if |Hex(n)| > 1 { HexIsHex(n, 1); } }
    ReadHex(n, tail);
  }

  // ---------------------------------------------------------------- chunked bodies

  datatype Chunk = Chunk(ext: string, data: string)

  predicate ValidChunk(c: Chunk) {
    Extension(c.ext) && 0 < |c.data| <= MAX_INT64
  }

  predicate TrailerLine(line: string) { LF !in line && ':' in line }

  predicate ValidBody(chunks: seq<Chunk>, lastExt: string, trailer: seq<string>) {
    && (forall i :: 0 <= i < |chunks| ==> ValidChunk(chunks[i]))
    && Extension(lastExt)
    && ValidTrailer(trailer)
  }

  predicate ValidTrailer(trailer: seq<string>) {
    forall i :: 0 <= i < |trailer| ==> TrailerLine(trailer[i])
  }

  function TrailerText(trailer: seq<string>): string {
    if trailer == [] then CRLF else trailer[0] + CRLF + TrailerText(trailer[1..])
  }

  /** The chunked coding of a body: size line, data and line end of each chunk, then the last chunk
      and the trailer. */
  function BodyText(chunks: seq<Chunk>, lastExt: string, trailer: seq<string>): string {
    if chunks == [] then Hex(0) + lastExt + CRLF + TrailerText(trailer)
    else
      var c := chunks[0];
      Hex(|c.data|) + c.ext + CRLF + c.data + CRLF + BodyText(chunks[1..], lastExt, trailer)
  }

  function BodyData(chunks: seq<Chunk>): string {
    if chunks == [] then [] else chunks[0].data + BodyData(chunks[1..])
  }

  /** Before the first chunk header there is nothing, before the others a line end. */
  predicate Separator(sep: string) { sep == [] || sep == CRLF }

  lemma SepSkipped(sep: string, rest: string)
    requires Separator(sep) && |rest| > 0 && IsDigit(rest[0], 16)
    ensures SkipLineEnd(sep + rest) == |sep| && (sep + rest)[|sep|..] == rest && true == Led(sep + rest)
  {
    assert !IsSpace(rest[0]) && rest[0] != '-';
    assert SkipSpaces(rest) == rest;
  }

  lemma NoLineFeed(n: nat, ext: string)
    requires Extension(ext)
    ensures LF !in Hex(n) + ext
  {
    forall i | 0 <= i < |Hex(n)| ensures Hex(n)[i] != LF { HexIsHex(n, i); }
  }

  /** The size line starts at p, ends at lf and says n. */
  predicate SizeLine(buf: string, p: nat, lf: nat, n: nat) {
    && SkipLineEnd(buf) == p < |buf| && Led(buf) && StrToInt(buf[p..], 16) == n
    && Find(buf, p, LF) == lf < |buf|
  }

  /** Where the size line ends, and what size it announces. */
  lemma SizeLineEnd(buf: string, sep: string, n: nat, ext: string, rest: string, lf: nat)
    requires Separator(sep) && Extension(ext) && n <= MAX_INT64 && buf == sep + (Hex(n) + ext + CRLF + rest)
    requires lf == |sep| + |Hex(n)| + |ext| + 1
    ensures true == SizeLine(buf, |sep|, lf, n) && buf[lf + 1..] == rest
  {
    NoLineFeed(n, ext);
    LineFeedAt(buf, sep, Hex(n) + ext, rest);
    SizeLed(buf, sep, Hex(n) + ext + CRLF + rest, n, ext, rest);
  }

  lemma SizeLed(buf: string, sep: string, line: string, n: nat, ext: string, rest: string)
    requires Separator(sep) && Extension(ext) && n <= MAX_INT64 && line == Hex(n) + ext + CRLF + rest
    requires buf == sep + line
    ensures SkipLineEnd(buf) == |sep| && true == Led(buf) && StrToInt(buf[|sep|..], 16) == n
  {
    HexIsHex(n, 0);
    assert line[0] == Hex(n)[0];
    SepSkipped(sep, line);
    SizeRoundTrip(n, ext, rest);
  }

  lemma LineFeedAt(buf: string, sep: string, text: string, rest: string)
    requires LF !in text && buf == sep + (text + CRLF + rest)
    ensures Find(buf, |sep|, LF) == |sep| + |text| + 1 < |buf| && buf[|sep| + |text| + 2..] == rest
  {
    assert buf[|sep|..] == text + CRLF + rest;
    TrailerLineRead(buf, |sep|, text, rest);
  }

  /** A character is found behind a text without it. */
  lemma {:induction false} FoundAfter(buf: string, from: nat, c: char, text: string, rest: string)
    requires from <= |buf| && buf[from..] == text + rest && c !in text && rest != [] && rest[0] == c
    ensures Find(buf, from, c) == from + |text| < |buf|
    decreases |text|
  {
    assert buf[from..][0] == buf[from];
    if text != [] {
      assert buf[from + 1..] == buf[from..][1..] == text[1..] + rest;
      FoundAfter(buf, from + 1, c, text[1..], rest);
    }
  }

  lemma ParsedSize(buf: string, p: nat, lf: nat, n: nat)
    requires true == SizeLine(buf, p, lf, n) && n > 0
    ensures ParseChunkHeader(buf) == Header(n, lf + 1) && true == Led(buf)
  {
    HeaderIs(buf, p, lf, n);
  }

  lemma ParsedLast(buf: string, p: nat, lf: nat)
    requires true == SizeLine(buf, p, lf, 0) && TailEnd(buf, lf + 1) == |buf|
    ensures ParseChunkHeader(buf) == Header(0, |buf|) && true == Led(buf)
  {
    HeaderIs(buf, p, lf, 0);
  }

  /** A chunk header is recognized as soon as its line is complete. */
  lemma ChunkHeaderRead(buf: string, sep: string, n: nat, ext: string, rest: string)
    requires Separator(sep) && 0 < n <= MAX_INT64 && Extension(ext) && buf == sep + (Hex(n) + ext + CRLF + rest)
    ensures ParseChunkHeader(buf) == Header(n, |sep| + |Hex(n)| + |ext| + 2) && true == Led(buf)
  {
    var lf := |sep| + |Hex(n)| + |ext| + 1;
    SizeLineEnd(buf, sep, n, ext, rest, lf);
    ParsedSize(buf, |sep|, lf, n);
  }

  lemma {:induction false} TrailerRead(buf: string, pos: nat, trailer: seq<string>)
    requires pos <= |buf| && buf[pos..] == TrailerText(trailer)
    requires ValidTrailer(trailer)
    ensures TailEnd(buf, pos) == |buf|
    decreases |trailer|
  {
    if trailer == [] {
      assert buf[pos..] == [] + CRLF + [];
      TrailerLineRead(buf, pos, [], []);
      TailAt(buf, pos, |buf|, []);
    } else {
      TrailerLineRead(buf, pos, trailer[0], TrailerText(trailer[1..]));
      var next := pos + |trailer[0]| + 2;
      TailAt(buf, pos, next, trailer[0]);
      TrailerRead(buf, next, trailer[1..]);
    }
  }

  lemma TrailerLineRead(buf: string, pos: nat, line: string, rest: string)
    requires pos <= |buf| && buf[pos..] == line + CRLF + rest && LF !in line
    ensures pos + |line| + 2 <= |buf| && Find(buf, pos, LF) == pos + |line| + 1
    ensures LineText(buf, pos, pos + |line| + 1) == line && buf[pos + |line| + 2..] == rest
  {
    var k := |line| + 1;
    assert buf[pos..] == (line + "\r") + ("\n" + rest);
    FoundAfter(buf, pos, LF, line + "\r", "\n" + rest);
    assert buf[pos + k - 1] == buf[pos..][k - 1] == CR;
    assert buf[pos..pos + k - 1] == buf[pos..][..k - 1] == line;
    assert buf[pos + k + 1..] == buf[pos..][k + 1..] == rest;
  }

  /** The last chunk is recognized when its trailer is complete. */
  lemma LastChunkRead(buf: string, sep: string, ext: string, trailer: seq<string>)
    requires Separator(sep) && Extension(ext) && ValidTrailer(trailer)
    requires buf == sep + (Hex(0) + ext + CRLF + TrailerText(trailer))
    ensures ParseChunkHeader(buf) == Header(0, |buf|) && Led(buf)
  {
    var lf := |sep| + |Hex(0)| + |ext| + 1;
    SizeLineEnd(buf, sep, 0, ext, TrailerText(trailer), lf);
    TrailerRead(buf, lf + 1, trailer);
    ParsedLast(buf, |sep|, lf);
  }

  /** Where the data of the chunks lies when the coding starts at position e after `sep`. */
  function ChunkRanges(sep: string, chunks: seq<Chunk>, e: nat): seq<(nat, nat)>
    decreases |chunks|
  {
    if chunks == [] then [] else
      var start := DataStart(sep, chunks[0], e);
      var end := start + |chunks[0].data|;
      [(start, end)] + ChunkRanges(CRLF, chunks[1..], end)
  }

  /** Where the header at e ends and the data of chunk c starts. */
  function DataStart(sep: string, c: Chunk, e: nat): nat { e + |sep| + |Hex(|c.data|)| + |c.ext| + 2 }

  /** From position e on, the headers of the chunks and of the end are read as written. */
  ghost predicate Reads(g: Grammar, d: string, e: nat, sep: string, chunks: seq<Chunk>)
    decreases |chunks|
  {
    && e <= |d| && g.ok(d[e..])
    && if chunks == [] then g.parse(d[e..]) == Header(0, |d| - e) else
       var c := chunks[0];
       var n := DataStart(sep, c, e);
       && |c.data| > 0 && n + |c.data| <= |d| && g.parse(d[e..]) == Header(|c.data|, n - e)
       && Reads(g, d, n + |c.data|, CRLF, chunks[1..])
  }

  /** The grammar is that of HTTP. */
  ghost predicate ParsesHttp(g: Grammar) {
    forall buf: string {:trigger ParseChunkHeader(buf)} :: g.parse(buf) == ParseChunkHeader(buf)
      && g.ok(buf) == Led(buf)
  }

  lemma {:induction false} HttpReads(g: Grammar, d: string, e: nat, sep: string, chunks: seq<Chunk>, lastExt: string,
    trailer: seq<string>)
    requires ValidBody(chunks, lastExt, trailer) && Separator(sep) && ParsesHttp(g)
    requires e <= |d| && d[e..] == sep + BodyText(chunks, lastExt, trailer)
    ensures Reads(g, d, e, sep, chunks)
    decreases |chunks|
  {
    if chunks == [] {
      EndRead(g, d[e..], sep, lastExt, trailer);
    } else {
      var c := chunks[0];
      var more := BodyText(chunks[1..], lastExt, trailer);
      var next := DataStart(sep, c, e) + |c.data|;
      BodyStep(chunks, lastExt, trailer);
      NextChunkRead(g, d, e, sep, c, more);
      HttpReads(g, d, next, CRLF, chunks[1..], lastExt, trailer);
      ReadsStep(g, d, e, sep, chunks, next, Reads(g, d, next, CRLF, chunks[1..]));
    }
  }

  /** One more chunk before a body that is read as written. */
  lemma ReadsStep(g: Grammar, d: string, e: nat, sep: string, chunks: seq<Chunk>, next: nat, tail: bool)
    requires chunks != [] && |chunks[0].data| > 0 && next <= |d|
      && next == DataStart(sep, chunks[0], e) + |chunks[0].data|
    requires e <= |d| && g.ok(d[e..]) && g.parse(d[e..]) == Header(|chunks[0].data|, DataStart(sep, chunks[0], e) - e)
    requires tail && tail == Reads(g, d, next, CRLF, chunks[1..])
    ensures Reads(g, d, e, sep, chunks)
  {}

  lemma EndRead(g: Grammar, buf: string, sep: string, ext: string, trailer: seq<string>)
    requires ParsesHttp(g) && Separator(sep) && Extension(ext) && ValidTrailer(trailer)
    requires buf == sep + (Hex(0) + ext + CRLF + TrailerText(trailer))
    ensures g.ok(buf) && g.parse(buf) == Header(0, |buf|)
  {
    LastChunkRead(buf, sep, ext, trailer);
  }

  /** The header at e is read as written, and behind the chunk's data follows the rest. */
  lemma NextChunkRead(g: Grammar, d: string, e: nat, sep: string, c: Chunk, more: string)
    requires ParsesHttp(g) && Separator(sep) && ValidChunk(c)
    requires e <= |d| && d[e..] == sep + (Hex(|c.data|) + c.ext + CRLF + (c.data + CRLF + more))
    ensures var n := DataStart(sep, c, e);
      && n + |c.data| <= |d| && d[n + |c.data|..] == CRLF + more
      && g.ok(d[e..]) && g.parse(d[e..]) == Header(|c.data|, n - e)
  {
    NextHeaderRead(g, d[e..], sep, |c.data|, c.ext, c.data + CRLF + more);
    AfterChunk(d, e, sep, c, more);
  }

  lemma NextHeaderRead(g: Grammar, buf: string, sep: string, n: nat, ext: string, rest: string)
    requires ParsesHttp(g) && Separator(sep) && 0 < n <= MAX_INT64 && Extension(ext)
    requires buf == sep + (Hex(n) + ext + CRLF + rest)
    ensures g.ok(buf) && g.parse(buf) == Header(n, |sep| + |Hex(n)| + |ext| + 2)
  {
    ChunkHeaderRead(buf, sep, n, ext, rest);
  }

  /** All chunks have been found, and the end. */
  predicate FoundAll(c: Chunks, d: string, ranges: seq<(nat, nat)>) { c.finished && c.end == |d| && c.ranges == ranges }

  /** Reading such a body finds all its chunks and its end. */
  lemma {:induction false} BodyScanned(g: Grammar, d: string, e: nat, sep: string, chunks: seq<Chunk>,
    ranges: seq<(nat, nat)>, headers: nat)
    requires Steady(g) && true == Reads(g, d, e, sep, chunks)
    ensures true == WellFormedFrom(g, d, e)
    ensures true == FoundAll(Scan(g, d, e, ranges, headers), d, ranges + ChunkRanges(sep, chunks, e))
    decreases |chunks|
  {
    if chunks == [] {
      assert Reads(g, d, e, sep, chunks);
      ScanLast(g, d, e, ranges, headers, |d| - e);
    } else {
      var n := DataStart(sep, chunks[0], e);
      var next, ranges', headers' := n + |chunks[0].data|, ranges + [(n, n + |chunks[0].data|)], headers + n - e;
      BodyScanned(g, d, next, CRLF, chunks[1..], ranges', headers');
      ScanChunk(g, d, e, ranges, headers, |chunks[0].data|, n, next, ranges', headers');
      RangesStep(sep, chunks, e, ranges);
    }
  }

  lemma RangesStep(sep: string, chunks: seq<Chunk>, e: nat, ranges: seq<(nat, nat)>)
    requires chunks != []
    ensures var n := DataStart(sep, chunks[0], e);
      var next := n + |chunks[0].data|;
      ranges + ChunkRanges(sep, chunks, e) == ranges + [(n, next)] + ChunkRanges(CRLF, chunks[1..], next)
  {}

  lemma BodyStep(chunks: seq<Chunk>, lastExt: string, trailer: seq<string>)
    requires chunks != []
    ensures var c := chunks[0];
      BodyText(chunks, lastExt, trailer)
        == Hex(|c.data|) + c.ext + CRLF + (c.data + CRLF + BodyText(chunks[1..], lastExt, trailer))
  {}

  lemma AfterChunk(d: string, e: nat, sep: string, c: Chunk, more: string)
    requires e <= |d| && d[e..] == sep + (Hex(|c.data|) + c.ext + CRLF + (c.data + CRLF + more))
    ensures var n := e + |sep| + |Hex(|c.data|)| + |c.ext| + 2;
      n + |c.data| <= |d| && d[n + |c.data|..] == CRLF + more && d[n..n + |c.data|] == c.data
  {
    var k := |sep| + |Hex(|c.data|)| + |c.ext| + 2;
    var pre := sep + Hex(|c.data|) + c.ext + CRLF;
    assert d[e..] == pre + c.data + (CRLF + more);
    assert d[e + k + |c.data|..] == d[e..][k + |c.data|..];
    assert d[e + k..e + k + |c.data|] == d[e..][k..k + |c.data|];
  }

  // ---------------------------------------------------------------- the data of the chunks

  /** The data lies at the given range of d. */
  predicate Lies(d: string, range: (nat, nat), data: string) {
    range.0 <= range.1 <= |d| && d[range.0..range.1] == data
  }

  /** The ranges hold the data of the chunks. */
  predicate AllLie(d: string, ranges: seq<(nat, nat)>, chunks: seq<Chunk>) {
    |ranges| == |chunks| && forall i :: 0 <= i < |ranges| ==> Lies(d, ranges[i], chunks[i].data)
  }

  lemma {:induction false} ChunksLie(d: string, e: nat, sep: string, chunks: seq<Chunk>, lastExt: string,
    trailer: seq<string>)
    requires e <= |d| && d[e..] == sep + BodyText(chunks, lastExt, trailer)
    ensures AllLie(d, ChunkRanges(sep, chunks, e), chunks)
    decreases |chunks|
  {
    if chunks != [] {
      var c := chunks[0];
      var n := DataStart(sep, c, e);
      BodyStep(chunks, lastExt, trailer);
      AfterChunk(d, e, sep, c, BodyText(chunks[1..], lastExt, trailer));
      ChunksLie(d, n + |c.data|, CRLF, chunks[1..], lastExt, trailer);
      LieStep(d, (n, n + |c.data|), ChunkRanges(CRLF, chunks[1..], n + |c.data|), chunks);
    }
  }

  lemma LieStep(d: string, range: (nat, nat), ranges: seq<(nat, nat)>, chunks: seq<Chunk>)
    requires chunks != [] && Lies(d, range, chunks[0].data) && AllLie(d, ranges, chunks[1..])
    ensures AllLie(d, [range] + ranges, chunks)
  {
    var all := [range] + ranges;
    forall i | 0 <= i < |all| ensures Lies(d, all[i], chunks[i].data) {
      if i > 0 { assert all[i] == ranges[i - 1] && chunks[1..][i - 1] == chunks[i]; }
    }
  }

  lemma {:induction false} BodyDataAppend(chunks: seq<Chunk>, c: Chunk)
    ensures BodyData(chunks + [c]) == BodyData(chunks) + c.data
  {
    if chunks == [] {
      assert chunks + [c] == [c] && BodyData([c]) == c.data + BodyData([]);
    } else {
      assert (chunks + [c])[1..] == chunks[1..] + [c];
      BodyDataAppend(chunks[1..], c);
    }
  }

  /** The bytes of the chunks' ranges, put together, are the body. */
  lemma {:induction false} GatherBody(d: string, b: nat, end: nat, ranges: seq<(nat, nat)>, chunks: seq<Chunk>, k: nat)
    requires b <= end <= |d| && RangesIn(ranges, b, end - b) && AllLie(d, ranges, chunks) && k <= |chunks|
    requires ranges != [] ==> end == ranges[|ranges| - 1].1
    ensures Gather(d[b..end], ranges, k, b) == BodyData(chunks[..k])
  {
    if k > 0 {
      GatherBody(d, b, end, ranges, chunks, k - 1);
      assert chunks[..k] == chunks[..k - 1] + [chunks[k - 1]];
      BodyDataAppend(chunks[..k - 1], chunks[k - 1]);
      assert Lies(d, ranges[k - 1], chunks[k - 1].data);
      if k < |ranges| { assert ranges[k - 1].1 <= ranges[|ranges| - 1].0; }
      PieceIs(d, b, end, ranges[k - 1], chunks[k - 1].data);
    }
  }

  lemma PieceIs(d: string, b: nat, end: nat, range: (nat, nat), data: string)
    requires Lies(d, range, data) && b <= range.0 && range.1 <= end <= |d|
    ensures Piece(d[b..end], range, b) == data
  {
    var x, y := d[b..end][range.0 - b..range.1 - b], d[range.0..range.1];
    forall k | 0 <= k < |x| ensures x[k] == y[k] { assert x[k] == d[range.0 + k]; }
    assert x == y;
  }

  // ---------------------------------------------------------------- whole responses

  /** A complete response header that announces a chunked body. */
  predicate ChunkedHeader(header: string) {
    var f := RunFront(START, header);
    f.phase.ReadBody? && f.head.chunked && f.pos == |header| == f.bodyStart
  }

  /** The status line and header lines are read the same whatever body follows. */
  lemma HeaderKept(header: string, d: string)
    requires ChunkedHeader(header) && header <= d
    ensures RunFront(START, d) == RunFront(START, header)
  {
    RunFrontGrows(START, header, d);
  }

  /** What the header lines say, one after the other; none if one of them is bad. */
  function ReadLines(h: Head, lines: seq<string>): (Head, bool)
    decreases |lines|
  {
    if lines == [] then (h, false) else
    var (h', bad) := HeaderLine(h, lines[0]);
    if bad then (h', true) else ReadLines(h', lines[1..])
  }

  /** From the start of the header lines on, all of them are read up to the empty line. */
  lemma {:induction false} LinesRead(d: string, f: Front, lines: seq<string>, rest: string)
    requires f.phase.ReadHeader? && f.pos <= |d| && d[f.pos..] == TrailerText(lines) + rest && ValidTrailer(lines)
    requires !ReadLines(f.head, lines).1 && ReadLines(f.head, lines).0.status != 100
    ensures |rest| <= |d|
    ensures RunFront(f, d) == Front(ReadBody, |d| - |rest|, ReadLines(f.head, lines).0, |d| - |rest|)
    decreases |lines|
  {
    if lines == [] {
      assert d[f.pos..] == [] + CRLF + rest;
      TrailerLineRead(d, f.pos, [], rest);
    } else {
      var more := TrailerText(lines[1..]) + rest;
      assert d[f.pos..] == lines[0] + CRLF + more;
      var f' := f.(pos := f.pos + |lines[0]| + 2, head := HeaderLine(f.head, lines[0]).0);
      OneLineRead(d, f, lines[0], more, f');
      LinesRead(d, f', lines[1..], rest);
    }
  }

  lemma OneLineRead(d: string, f: Front, line: string, more: string, f': Front)
    requires f.phase.ReadHeader? && f.pos <= |d| && d[f.pos..] == line + CRLF + more && TrailerLine(line)
    requires !HeaderLine(f.head, line).1 && f' == f.(pos := f.pos + |line| + 2, head := HeaderLine(f.head, line).0)
    ensures f'.pos <= |d| && d[f'.pos..] == more && RunFront(f, d) == RunFront(f', d)
  {
    TrailerLineRead(d, f.pos, line, more);
    NextLine(f, d, f.pos + |line| + 1, line, f');
  }

  lemma NextLine(f: Front, d: string, lf: nat, line: string, f': Front)
    requires f.phase.ReadHeader? && f.pos <= lf < |d| && Find(d, f.pos, LF) == lf && LineText(d, f.pos, lf) == line
    requires ':' in line && !HeaderLine(f.head, line).1 && f' == f.(pos := lf + 1, head := HeaderLine(f.head, line).0)
    ensures RunFront(f, d) == RunFront(f', d)
  {
    assert LineStep(f, d, lf) == f';
  }

  /** A response is read line by line as written: the body starts behind the empty line, and it is
      chunked if the header lines say so. */
  lemma HeaderRead(d: string, status: string, lines: seq<string>, rest: string)
    requires d == status + CRLF + (TrailerText(lines) + rest) && LF !in status && ValidTrailer(lines)
    requires var (h, bad) := ReadLines(StatusLine(START.head, status), lines); !bad && h.status != 100
    ensures var (h, bad) := ReadLines(StatusLine(START.head, status), lines);
      |rest| <= |d| && RunFront(START, d) == Front(ReadBody, |d| - |rest|, h, |d| - |rest|)
  {
    var more := TrailerText(lines) + rest;
    assert d[0..] == status + CRLF + more;
    TrailerLineRead(d, 0, status, more);
    LinesRead(d, LineStep(START, d, |status| + 1), lines, rest);
  }

  /** A line with that name, in any case, decides about the transfer coding. */
  lemma TransferEncodingLine(h: Head, name: string, value: string)
    requires ':' !in name && Lowered(name) == "transfer-encoding"
    ensures HeaderLine(h, name + ":" + value) == (h.(chunked := BeginsNoCase("chunked", SkipBlanks(value))), false)
  {
    var line := name + ":" + value;
    FoundAfter(line, 0, ':', name, ":" + value);
    assert line[..|name|] == name && line[|name| + 1..] == value;
  }

  /** Sound data remains so when its end is cut off. */
  lemma SoundPrefix(q: string, d: string, parseChunks: bool)
    requires q <= d && Sound(d, parseChunks)
    ensures Sound(q, parseChunks)
  {
    RunFrontGrows(START, q, d);
    var f := RunFront(START, q);
    if f.phase.ReadBody? && f.head.chunked && parseChunks {
      ScanGrows(Http(), q, d, f.bodyStart, [], 0);
    }
  }

  /** What reading a complete response finds. */
  lemma ResponseScanned(header: string, chunks: seq<Chunk>, lastExt: string, trailer: seq<string>, d: string)
    requires ChunkedHeader(header) && ValidBody(chunks, lastExt, trailer)
    requires d == header + BodyText(chunks, lastExt, trailer)
    ensures Sound(d, true) && Steady(Http()) && WellFormedFrom(Http(), d, |header|)
    ensures FoundAll(ChunksOf(Http(), d, |header|), d, ChunkRanges([], chunks, |header|))
  {
    HttpSteady();
    HeaderKept(header, d);
    assert d[|header|..] == [] + BodyText(chunks, lastExt, trailer);
    HttpReads(Http(), d, |header|, [], chunks, lastExt, trailer);
    BodyScanned(Http(), d, |header|, [], chunks, [], 0);
  }

  /** The ranges have the size of the data. */
  lemma {:induction false} RangesTotal(sep: string, chunks: seq<Chunk>, e: nat)
    ensures RangeSum(ChunkRanges(sep, chunks, e)) == |BodyData(chunks)|
    decreases |chunks|
  {
    if chunks != [] {
      var n := DataStart(sep, chunks[0], e);
      var rest := ChunkRanges(CRLF, chunks[1..], n + |chunks[0].data|);
      RangesTotal(CRLF, chunks[1..], n + |chunks[0].data|);
      RangeSumBefore((n, n + |chunks[0].data|), rest);
    }
  }

  lemma {:induction false} RangeSumBefore(r: (nat, nat), rest: seq<(nat, nat)>)
    ensures RangeSum([r] + rest) == r.1 - r.0 + RangeSum(rest)
  {
    if rest == [] {
      RangeSumMore([], r);
      assert [r] + rest == [] + [r];
    } else {
      var m := rest[..|rest| - 1];
      RangeSumBefore(r, m);
      RangeSumMore([r] + m, rest[|rest| - 1]);
      assert [r] + rest == [r] + m + [rest[|rest| - 1]];
    }
  }

  /** Of a complete response as much has been reported as body as its chunks hold. */
  lemma BodyCounted(p: Parser, g: Grammar, d: string, b: nat, chunks: seq<Chunk>)
    requires p.phase.ReadBody? && p.bodyStart == b && Steady(g) && WellFormedFrom(g, d, b)
      && true == p.ChunksTracked(g, d)
    requires true == FoundAll(Scan(g, d, b, [], 0), d, ChunkRanges([], chunks, b))
    ensures p.BodyBytes() == |BodyData(chunks)| && p.BodyBytes() + p.OtherBytes() == |d|
  {
    ScanTotals(g, d, b, [], 0);
    RangesTotal([], chunks, b);
    var c := Scan(g, d, b, [], 0);
    assert FoundAll(c, d, ChunkRanges([], chunks, b)) && PartialHeader(d, c) == 0;
    assert p.ChunksTracked(g, d);
  }

  /** An error stays. */
  lemma NoErrorBefore(q: string, d: string)
    requires q <= d && !RunFront(START, d).phase.ErrorState?
    ensures !RunFront(START, q).phase.ErrorState?
  {
    RunFrontGrows(START, q, d);
  }

  /** The bytes that the parser has reported are those it has accounted for. */
  ghost predicate Reported(p: Parser, payload: int, protocol: int)
    reads p
  {
    payload == p.BodyBytes() && protocol == p.OtherBytes()
  }

  /** Hands the parser ever longer parts of a message; adds up what it reports. */
  method Feed(p: Parser, message: string, cuts: seq<nat>) returns (payload: int, protocol: int)
    requires true == p.Tracks([]) && true == Sound(message, p.parseChunks) && Cuts(cuts, |message|)
    requires !RunFront(START, message).phase.ErrorState?
    modifies p
    ensures true == p.Tracks(message) && Reported(p, payload, protocol)
  {
    ghost var q := [];
    payload, protocol := 0, 0;
    NothingYet(p);
    for i := 0 to |cuts|
      invariant true == p.Tracks(q) && q <= message && (i < |cuts| ==> |q| <= cuts[i])
      invariant true == Reported(p, payload, protocol)
    {
      payload, protocol := FeedPart(p, message, message[..cuts[i]], q, payload, protocol);
      q := message[..cuts[i]];
    }
    payload, protocol := FeedPart(p, message, message, q, payload, protocol);
  }

  lemma NothingYet(p: Parser)
    requires p.Tracks([])
    ensures true == Reported(p, 0, 0)
  {}

  method FeedPart(p: Parser, ghost message: string, part: string, ghost q: string, a: int, b: int)
    returns (payload: int, protocol: int)
    requires true == p.Tracks(q) && q <= part <= message && true == Sound(message, p.parseChunks)
    requires !RunFront(START, message).phase.ErrorState? && Reported(p, a, b)
    modifies p
    ensures true == p.Tracks(part) && Reported(p, payload, protocol)
  {
    SoundPrefix(part, message, p.parseChunks);
    NoErrorBefore(part, message);
    var x, y, _ := p.Incoming(part, q);
    assert !p.phase.ErrorState? by { assert p.Tracks(part); }
    payload, protocol := a + x, b + y;
  }

  /** Positions in ascending order at which a message of the given size is cut. */
  predicate Cuts(cuts: seq<nat>, size: nat) {
    && (forall i :: 0 <= i < |cuts| ==> cuts[i] <= size)
    && (forall i, j :: 0 <= i < j < |cuts| ==> cuts[i] <= cuts[j])
  }

  /** The body in a finished receive buffer, without chunk headers. */
  method ReadOut(p: Parser, d: string) returns (body: string, ghost end: nat)
    requires p.Tracks(d) && p.phase.ReadBody? && p.head.chunked
    ensures p.bodyStart <= end <= |d| && RangesIn(p.ranges, p.bodyStart, end - p.bodyStart)
    ensures p.finished && p.ranges != [] && p.ranges[|p.ranges| - 1].1 <= |d| ==> end == p.ranges[|p.ranges| - 1].1
    ensures body == Gather(d[p.bodyStart..end], p.ranges, |p.ranges|, p.bodyStart)
  {
    p.BodyLayout(d);
    var begin, last := p.GetBody(d);
    var size := last - begin;
    var buffer := new char[size](i requires 0 <= i < size => d[begin + i]);
    assert buffer[..size] == d[begin..last];
    var n := p.CollapseChunkHeaders(buffer, size);
    body, end := buffer[..n], last;
  }

  lemma BodyGathered(header: string, chunks: seq<Chunk>, lastExt: string, trailer: seq<string>, d: string, end: nat)
    requires d == header + BodyText(chunks, lastExt, trailer) && |header| <= end <= |d|
    requires var ranges := ChunkRanges([], chunks, |header|);
      RangesIn(ranges, |header|, end - |header|) && (ranges != [] && ranges[|ranges| - 1].1 <= |d|
        ==> end == ranges[|ranges| - 1].1)
    ensures var ranges := ChunkRanges([], chunks, |header|);
      Gather(d[|header|..end], ranges, |ranges|, |header|) == BodyData(chunks)
  {
    var ranges := ChunkRanges([], chunks, |header|);
    assert d[|header|..] == [] + BodyText(chunks, lastExt, trailer);
    ChunksLie(d, |header|, [], chunks, lastExt, trailer);
    if ranges != [] { assert Lies(d, ranges[|ranges| - 1], chunks[|ranges| - 1].data); }
    GatherBody(d, |header|, end, ranges, chunks, |chunks|);
    assert chunks[..|chunks|] == chunks;
  }

  /** However a chunked response is cut up, the parser finishes with the same chunks, and collapsing what
      it received yields exactly the body. The bytes it reports as payload are those of the body. */
  method Receive(header: string, chunks: seq<Chunk>, lastExt: string, trailer: seq<string>, cuts: seq<nat>)
    returns (finished: bool, ranges: seq<(nat, nat)>, body: string, payload: int, protocol: int)
    requires ChunkedHeader(header) && ValidBody(chunks, lastExt, trailer)
    requires Cuts(cuts, |header + BodyText(chunks, lastExt, trailer)|)
    ensures finished && ranges == ChunkRanges([], chunks, |header|) && body == BodyData(chunks)
    ensures payload == |body| && payload + protocol == |header + BodyText(chunks, lastExt, trailer)|
  {
    var message := header + BodyText(chunks, lastExt, trailer);
    ResponseScanned(header, chunks, lastExt, trailer, message);
    HeaderKept(header, message);
    var p := new Parser(true);
    payload, protocol := Feed(p, message, cuts);
    finished, ranges := p.finished, p.ranges;
    ghost var end;
    body, end := ReadOut(p, message);
    BodyCounted(p, Http(), message, |header|, chunks);
    BodyGathered(header, chunks, lastExt, trailer, message, end);
  }
}
