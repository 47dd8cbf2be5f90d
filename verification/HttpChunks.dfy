/** Chunk headers of the chunked transfer coding (section 4.1 of RFC 7230) as the HTTP parser reads them,
    and where the chunks of a partly received response lie. */
module HttpChunks {

  import opened HttpNumbers

  /** The first position of c at or after `from`, or the end. */
  function Find(d: string, from: nat, c: char): (i: nat)
    requires from <= |d|
    ensures from <= i <= |d| && (i < |d| ==> d[i] == c)
    decreases |d| - from
  {
    if from == |d| || d[from] == c then from else Find(d, from + 1, c)
  }

  // ---------------------------------------------------------------- chunk headers

  datatype ChunkHeader = Incomplete | Header(size: int, length: nat)

  /** A line without its end: a carriage return before the line feed is dropped. */
  function LineText(d: string, from: nat, lf: nat): string
    requires from <= lf <= |d|
  {
    if from < lf && d[lf - 1] == CR then d[from..lf - 1] else d[from..lf]
  }

  /** One optional line end before the header. */
  function SkipLineEnd(buf: string): (p: nat)
    ensures p <= |buf| && p <= 2
  {
    var p := if |buf| > 0 && buf[0] == CR then 1 else 0;
    if p < |buf| && buf[p] == LF then p + 1 else p
  }

  /** The end of the first line without a colon at or after pos; |buf| + 1 if there is none yet. */
  function TailEnd(buf: string, pos: nat): (e: nat)
    requires pos <= |buf|
    ensures pos < e <= |buf| + 1
    decreases |buf| - pos
  {
    var lf := Find(buf, pos, LF);
    if lf == |buf| then |buf| + 1
    else if ':' !in LineText(buf, pos, lf) then lf + 1
    else TailEnd(buf, lf + 1)
  }

  lemma TailAt(buf: string, pos: nat, next: nat, line: string)
    requires pos < next <= |buf| && Find(buf, pos, LF) == next - 1 && LineText(buf, pos, next - 1) == line
    ensures TailEnd(buf, pos) == if ':' !in line then next else TailEnd(buf, next)
  {}

  lemma TailStep(buf: string, pos: nat)
    requires pos <= |buf|
    ensures var lf := Find(buf, pos, LF);
      TailEnd(buf, pos) == if lf == |buf| then |buf| + 1
                           else if ':' !in LineText(buf, pos, lf) then lf + 1
                           else TailEnd(buf, lf + 1)
  {}

  /** The chunk header at the start of buf: a line with the size, and for size zero the trailer. */
  function ParseChunkHeader(buf: string): (h: ChunkHeader)
    ensures h.Header? ==> 0 < h.length <= |buf|
  {
    var p := SkipLineEnd(buf);
    if p == |buf| then Incomplete else
    var lf := Find(buf, p, LF);
    if lf == |buf| then Incomplete else
    HeaderOf(buf, lf, StrToInt(buf[p..], 16))
  }

  /** The header whose size line ends at lf and says `size`. */
  function HeaderOf(buf: string, lf: nat, size: int): (h: ChunkHeader)
    requires lf < |buf|
    ensures h.Header? ==> lf < h.length <= |buf|
  {
    HeaderAt(size, lf, TailEnd(buf, lf + 1), |buf|)
  }

  /** The same if the trailer ends at e. */
  function HeaderAt(size: int, lf: nat, e: nat, n: nat): ChunkHeader {
    if size != 0 then Header(size, lf + 1) else if e == n + 1 then Incomplete else Header(0, e)
  }

  lemma HeaderIs(buf: string, p: nat, lf: nat, size: int)
    requires SkipLineEnd(buf) == p < |buf| && Find(buf, p, LF) == lf < |buf| && StrToInt(buf[p..], 16) == size
    ensures ParseChunkHeader(buf) == HeaderOf(buf, lf, size)
  {}

  /** The size line is not blank, and the size not negative, as far as one can see. */
  predicate Led(buf: string) {
    var s := buf[SkipLineEnd(buf)..];
    var t := SkipSpaces(s);
    LF !in s[..|s| - |t|] && !(t != [] && t[0] == '-' && Magnitude(t, 16) > 0)
  }

  // ---------------------------------------------------------------- growing buffers

  lemma {:induction false} FindGrows(q: string, d: string, from: nat, c: char)
    requires q <= d && from <= |q|
    ensures Find(q, from, c) < |q| ==> Find(d, from, c) == Find(q, from, c)
    ensures Find(q, from, c) == |q| ==> Find(d, from, c) >= |q|
    decreases |q| - from
  {
    if from < |q| && q[from] != c { FindGrows(q, d, from + 1, c); }
  }

  /** A trailer that ends within the first n characters stays there, another one ends behind them. */
  predicate Kept(before: nat, after: nat, n: nat) {
    (before <= n ==> after == before) && (before == n + 1 ==> after > n)
  }

  lemma {:induction false} TailEndGrows(q: string, d: string, pos: nat)
    requires q <= d && pos <= |q|
    ensures true == Kept(TailEnd(q, pos), TailEnd(d, pos), |q|)
    decreases |q| - pos
  {
    FindGrows(q, d, pos, LF);
    var lf := Find(q, pos, LF);
    if lf < |q| {
      LineTextGrows(q, d, pos, lf);
      if ':' in LineText(q, pos, lf) { TailEndGrows(q, d, lf + 1); }
      KeptLine(q, d, pos, lf + 1, LineText(q, pos, lf));
    } else {
      KeptRest(q, d, pos);
    }
  }

  lemma KeptLine(q: string, d: string, pos: nat, next: nat, line: string)
    requires pos < next <= |q| <= |d| && Find(q, pos, LF) == next - 1 && Find(d, pos, LF) == next - 1
    requires LineText(q, pos, next - 1) == line && LineText(d, pos, next - 1) == line
    requires ':' in line ==> true == Kept(TailEnd(q, next), TailEnd(d, next), |q|)
    ensures true == Kept(TailEnd(q, pos), TailEnd(d, pos), |q|)
  {
    TailAt(q, pos, next, line);
    TailAt(d, pos, next, line);
  }

  lemma KeptRest(q: string, d: string, pos: nat)
    requires pos <= |q| <= |d| && Find(q, pos, LF) == |q| <= Find(d, pos, LF)
    ensures true == Kept(TailEnd(q, pos), TailEnd(d, pos), |q|)
  {
    TailStep(q, pos);
    TailStep(d, pos);
  }

  lemma LineTextGrows(q: string, d: string, from: nat, lf: nat)
    requires q <= d && from <= lf <= |q|
    ensures LineText(d, from, lf) == LineText(q, from, lf)
  {
    assert d[from..lf] == q[from..lf];
    if from < lf { assert d[from..lf - 1] == q[from..lf - 1]; }
  }

  lemma SkipLineEndGrows(q: string, d: string)
    requires q <= d && SkipLineEnd(q) < |q|
    ensures SkipLineEnd(d) == SkipLineEnd(q)
  {}

  lemma Rest(q: string, d: string, p: nat)
    requires q <= d && p <= |q|
    ensures d[p..] == q[p..] + d[|q|..]
  {
    assert d == q + d[|q|..];
  }

  /** As bytes arrive, the blanks skipped and the sign stay. */
  lemma LedGrows(q: string, d: string, p: nat)
    requires q <= d && Led(d) && SkipLineEnd(q) == p < |q|
    ensures true == Led(q) && (LF in q[p..] ==> LF in SkipSpaces(q[p..]))
  {
    var s, more := q[p..], d[|q|..];
    SkipLineEndGrows(q, d);
    Rest(q, d, p);
    var r := SkipSpaces(s);
    SkipSpacesGrows(s, more);
    SkipSpacesIs(s);
    var k := |s| - |r|;
    if r == [] {
      assert k == |s| && s[..k] == s;
      var n := |s + more| - |SkipSpaces(s + more)|;
      assert (s + more)[..n][..|s|] == s;
    } else {
      assert (s + more)[..k] == s[..k];
      if r[0] == '-' && Magnitude(r + more, 16) == 0 { MagnitudeZero(r, more); }
    }
    assert s == s[..k] + r;
  }

  lemma SizeGrows(q: string, d: string, p: nat)
    requires q <= d && Led(d) && SkipLineEnd(q) == p < |q| && LF in q[p..]
    ensures StrToInt(d[p..], 16) == StrToInt(q[p..], 16) >= 0
  {
    LedGrows(q, d, p);
    var s, r := q[p..], SkipSpaces(q[p..]);
    Rest(q, d, p);
    var i :| 0 <= i < |r| && r[i] == LF;
    FixedWhen(s, d[|q|..], i);
    NegativeIff(s);
  }

  /** A complete header stays what it is when more bytes arrive; an incomplete one ends, if at all,
      beyond the bytes seen so far. */
  lemma HeaderGrows(q: string, d: string)
    requires q <= d && Led(d)
    ensures Led(q)
    ensures ParseChunkHeader(q).Header? ==> ParseChunkHeader(d) == ParseChunkHeader(q) && ParseChunkHeader(q).size >= 0
    ensures ParseChunkHeader(q).Incomplete? && ParseChunkHeader(d).Header? ==> ParseChunkHeader(d).length > |q|
  {
    var p := SkipLineEnd(q);
    if p < |q| {
      LedGrows(q, d, p);
      SkipLineEndGrows(q, d);
      FindGrows(q, d, p, LF);
      var lf := Find(q, p, LF);
      if lf < |q| { LineGrows(q, d, p, lf); }
    } else {
      assert q[p..] == [];
    }
  }

  lemma LineGrows(q: string, d: string, p: nat, lf: nat)
    requires q <= d && true == Led(d) && SkipLineEnd(q) == SkipLineEnd(d) == p < |q|
    requires lf == Find(q, p, LF) == Find(d, p, LF) < |q|
    ensures ParseChunkHeader(q).Header? ==> ParseChunkHeader(d) == ParseChunkHeader(q) && ParseChunkHeader(q).size >= 0
    ensures ParseChunkHeader(q).Incomplete? && ParseChunkHeader(d).Header? ==> ParseChunkHeader(d).length > |q|
  {
    assert q[p..][lf - p] == LF;
    SizeGrows(q, d, p);
    var size := StrToInt(q[p..], 16);
    HeaderIs(q, p, lf, size);
    HeaderIs(d, p, lf, size);
    HeaderOfGrows(q, d, lf, size);
  }

  lemma HeaderOfGrows(q: string, d: string, lf: nat, size: int)
    requires q <= d && lf < |q| && size >= 0
    ensures HeaderOf(q, lf, size).Header? ==>
      HeaderOf(d, lf, size) == HeaderOf(q, lf, size) && HeaderOf(q, lf, size).size >= 0
    ensures HeaderOf(q, lf, size).Incomplete? && HeaderOf(d, lf, size).Header? ==> HeaderOf(d, lf, size).length > |q|
  {
    TailEndGrows(q, d, lf + 1);
    HeaderAtGrows(size, lf, TailEnd(q, lf + 1), |q|, TailEnd(d, lf + 1), |d|);
  }

  lemma HeaderAtGrows(size: int, lf: nat, e: nat, n: nat, e': nat, n': nat)
    requires size >= 0 && e <= n + 1 && Kept(e, e', n) && lf < n <= n'
    ensures var h, h' := HeaderAt(size, lf, e, n), HeaderAt(size, lf, e', n');
      (h.Header? ==> h' == h && h.size >= 0) && (h.Incomplete? && h'.Header? ==> h'.length > n)
  {}

  // ---------------------------------------------------------------- size lines

  /** What a size line says is the same whatever follows exactly if it is not blank. */
  lemma SizeFixedIff(sep: string, line: string)
    requires SkipLineEnd(sep + line + [LF]) == |sep| && LF !in line
    ensures var buf := sep + line + [LF];
      (forall t: string :: StrToInt((buf + t)[|sep|..], 16) == StrToInt(buf[|sep|..], 16)) <==> !Blank(line)
  {
    var buf := sep + line + [LF];
    assert buf[|sep|..] == line + [LF];
    forall t: string ensures (buf + t)[|sep|..] == line + [LF] + t {}
    FixedIff(line);
  }

  /** After blank lines the line that follows counts as the size line as soon as it is there. */
  lemma BlankSizeLine(digit: char)
    requires IsDigit(digit, 16) && digit != '0'
    ensures ParseChunkHeader("\n\n\n") == Header(0, 3)
    ensures ParseChunkHeader("\n\n\n" + [digit, LF]) == Header(DigitValue(digit, 16), 2)
  {
    var q, line := "\n\n\n", [digit, LF];
    var t := q + line;
    DigitRead(digit);
    BlankSkips([LF, LF]);
    assert q[1..] == [LF, LF] && t[1..] == [LF, LF] + line && SkipSpaces(line) == line;
    SkipSpacesGrows([LF, LF], line);
    assert StrToInt(t[1..], 16) == StrToInt(line, 16);
    assert Find(t, 1, LF) == 1 && Find(q, 1, LF) == 1 && Find(q, 2, LF) == 2;
    assert LineText(q, 2, 2) == [];
    TailStep(q, 2);
    HeaderIs(q, 1, 1, 0);
    HeaderIs(t, 1, 1, DigitValue(digit, 16));
  }

  // ---------------------------------------------------------------- the chunk loop on any data

  /** How many bytes are accounted for, where the current chunk ends, and how many bytes of the header there are
      accounted for although it is not complete. */
  datatype Cursor = Cursor(received: int, end: int, part: int)

  /** One round of the chunk loop, whatever the size line says. */
  function Round(d: string, c: Cursor): Cursor
    requires 0 <= c.end <= |d|
  {
    Advance(|d|, c, ParseChunkHeader(d[c.end..]))
  }

  function Advance(size: nat, c: Cursor, h: ChunkHeader): Cursor {
    var r := if c.end > c.received then c.end else c.received;
    if h.Header? then Cursor(r + h.length - c.part, c.end + h.length + h.size, 0)
    else Cursor(size, c.end, c.part + size - r)
  }

  /** What is accounted for behind the current chunk's end is part of the header there. */
  predicate InStep(c: Cursor) { c.part == if c.end < c.received then c.received - c.end else 0 }

  /** A complete header is accounted for exactly; the next chunk then ends before the bytes accounted for exactly if
      the size is negative. */
  lemma TurnsBackIff(d: string, c: Cursor)
    requires 0 <= c.end <= |d| && InStep(c) && ParseChunkHeader(d[c.end..]).Header?
    ensures var h, next := ParseChunkHeader(d[c.end..]), Round(d, c);
      next.received == c.end + h.length && (next.end < next.received <==> h.size < 0)
  {}

  /** What the cursor goes back over is accounted for twice: behind the header that is found there, more bytes are
      accounted for than there are up to its end, by as many as the size is below zero. */
  lemma CountsTwice(d: string, c: Cursor)
    requires 0 <= c.end <= |d| && InStep(c) && ParseChunkHeader(d[c.end..]).Header?
    requires ParseChunkHeader(d[c.end..]).size < 0 <= Round(d, c).end
    ensures var h, next := ParseChunkHeader(d[c.end..]), Round(d, c);
      next.end <= |d| && (ParseChunkHeader(d[next.end..]).Header? ==>
        Round(d, next).received == next.end + ParseChunkHeader(d[next.end..]).length - h.size)
  {
    TurnsBackIff(d, c);
  }

  /** A size may be negative; the position of the next chunk then lies before that of its header's end. */
  lemma NegativeSizeLine(digit: char)
    requires IsDigit(digit, 16) && digit != '0'
    ensures ParseChunkHeader(['-', digit, LF]) == Header(-(DigitValue(digit, 16) as int), 3)
    ensures !Led(['-', digit, LF])
  {
    var n := ['-', digit, LF];
    MinusRead(n, digit);
    assert n[0..] == n && n[..0] == [];
    assert Find(n, 0, LF) == 2 by { assert Find(n, 0, LF) == Find(n, 1, LF) == Find(n, 2, LF); }
    HeaderIs(n, 0, 2, StrToInt(n, 16));
  }

  lemma MinusRead(n: string, digit: char)
    requires n == ['-', digit, LF] && IsDigit(digit, 16) && digit != '0'
    ensures SkipSpaces(n) == n && Magnitude(n, 16) == DigitValue(digit, 16) > 0
      && StrToInt(n, 16) == -(DigitValue(digit, 16) as int)
  {
    var line := [digit, LF];
    DigitRead(digit);
    assert n[1..] == line && SkipSpaces(line) == line && !Prefixed(line) && !Signed(line);
    assert Magnitude(n, 16) == Magnitude(line, 16);
  }

  // ---------------------------------------------------------------- all chunks of a response

  /** How chunk headers are read, and which starts of a header are well formed. */
  datatype Grammar = Grammar(parse: string -> ChunkHeader, ok: string -> bool)

  function Http(): Grammar { Grammar(ParseChunkHeader, Led) }

  /** Well-formed headers are read the same however many bytes follow. */
  ghost predicate Steady(g: Grammar) {
    && (forall d {:trigger g.ok(d)} :: g.parse(d).Header? ==> 0 < g.parse(d).length <= |d|)
    && (forall q, d {:trigger g.ok(q), g.ok(d)} :: q <= d && g.ok(d) ==> SteadyAt(g, q, d))
  }

  ghost predicate SteadyAt(g: Grammar, q: string, d: string) {
    && g.ok(q)
    && (g.parse(q).Header? ==> g.parse(d) == g.parse(q) && g.parse(q).size >= 0)
    && (g.parse(q).Incomplete? && g.parse(d).Header? ==> g.parse(d).length > |q|)
  }

  lemma HttpSteady()
    ensures Steady(Http())
  {
    var g := Http();
    forall d: string ensures g.parse(d).Header? ==> 0 < g.parse(d).length <= |d| {
      assert g.parse(d) == ParseChunkHeader(d);
    }
    forall q: string, d: string | q <= d && g.ok(d) ensures SteadyAt(g, q, d) { HeaderGrows(q, d); }
  }

  /** Every chunk header from position e on is well formed. */
  ghost predicate WellFormedFrom(g: Grammar, d: string, e: nat)
    requires Steady(g)
    decreases |d| - e
  {
    e > |d| || (
      g.ok(d[e..]) &&
      var h := g.parse(d[e..]);
      h.Header? && h.size > 0 ==> WellFormedFrom(g, d, e + h.length + h.size))
  }

  /** Where the current chunk ends, the chunks found, whether the last one was, and the bytes
      that complete chunk headers take. */
  datatype Chunks = Chunks(end: nat, ranges: seq<(nat, nat)>, finished: bool, headers: nat)

  /** Reads chunk after chunk from position e as far as the data goes. */
  ghost function Scan(g: Grammar, d: string, e: nat, ranges: seq<(nat, nat)>, headers: nat): Chunks
    requires Steady(g) && WellFormedFrom(g, d, e)
    decreases |d| - e
  {
    if e > |d| then Chunks(e, ranges, false, headers) else
    assert SteadyAt(g, d[e..], d[e..]);
    match g.parse(d[e..])
    case Incomplete => Chunks(e, ranges, false, headers)
    case Header(size, length) =>
      if size == 0 then Chunks(e + length, ranges, true, headers + length)
      else Scan(g, d, e + length + size, ranges + [(e + length, e + length + size)], headers + length)
  }

  /** Reading d gives c if that is the end, and goes on from c if it is not. */
  ghost predicate GoesOn(g: Grammar, d: string, e: nat, ranges: seq<(nat, nat)>, headers: nat, c: Chunks)
    requires Steady(g) && WellFormedFrom(g, d, e)
  {
    if c.finished then Scan(g, d, e, ranges, headers) == c
    else WellFormedFrom(g, d, c.end) && Scan(g, d, e, ranges, headers) == Scan(g, d, c.end, c.ranges, c.headers)
  }

  /** Reading on from where a shorter prefix of the data left off gives the same as reading all of it. */
  lemma {:induction false} ScanGrows(g: Grammar, q: string, d: string, e: nat, ranges: seq<(nat, nat)>, headers: nat)
    requires Steady(g) && q <= d && true == WellFormedFrom(g, d, e)
    ensures true == WellFormedFrom(g, q, e)
    ensures true == GoesOn(g, d, e, ranges, headers, Scan(g, q, e, ranges, headers))
    decreases |d| - e
  {
    if e <= |q| {
      assert q[e..] <= d[e..];
      assert SteadyAt(g, q[e..], d[e..]) by { assert g.ok(d[e..]); var _ := g.ok(q[e..]); }
      var h := g.parse(q[e..]);
      if h.Header? && h.size > 0 {
        var n := e + h.length;
        var next, ranges', headers' := n + h.size, ranges + [(n, n + h.size)], headers + h.length;
        WellFormedNext(g, d, e, h, next);
        ScanGrows(g, q, d, next, ranges', headers');
        ScanChunk(g, q, e, ranges, headers, h.size, n, next, ranges', headers');
        ScanChunk(g, d, e, ranges, headers, h.size, n, next, ranges', headers');
      }
    }
  }

  lemma WellFormedNext(g: Grammar, d: string, e: nat, h: ChunkHeader, next: nat)
    requires Steady(g) && WellFormedFrom(g, d, e) && e <= |d| && h == g.parse(d[e..]) && h.Header? && h.size > 0
    requires next == e + h.length + h.size
    ensures true == WellFormedFrom(g, d, next)
  {}

  /** The bytes in all ranges. */
  function RangeSum(ranges: seq<(nat, nat)>): int {
    if ranges == [] then 0 else
    var last := ranges[|ranges| - 1];
    RangeSum(ranges[..|ranges| - 1]) + last.1 - last.0
  }

  lemma RangeSumMore(ranges: seq<(nat, nat)>, r: (nat, nat))
    ensures RangeSum(ranges + [r]) == RangeSum(ranges) + r.1 - r.0
  {
    assert (ranges + [r])[..|ranges|] == ranges;
  }

  /** Up to the current position there are headers and chunks, and nothing else. */
  lemma {:induction false} ScanTotals(g: Grammar, d: string, e: nat, ranges: seq<(nat, nat)>, headers: nat)
    requires Steady(g) && true == WellFormedFrom(g, d, e)
    ensures var c := Scan(g, d, e, ranges, headers);
      c.end - e == c.headers - headers + RangeSum(c.ranges) - RangeSum(ranges)
    decreases |d| - e
  {
    if e <= |d| {
      assert SteadyAt(g, d[e..], d[e..]);
      var h := g.parse(d[e..]);
      if h.Header? && h.size > 0 {
        var n := e + h.length;
        var next, ranges', headers' := n + h.size, ranges + [(n, n + h.size)], headers + h.length;
        WellFormedNext(g, d, e, h, next);
        ScanTotals(g, d, next, ranges', headers');
        ScanChunk(g, d, e, ranges, headers, h.size, n, next, ranges', headers');
        RangeSumMore(ranges, (n, n + h.size));
      }
    }
  }

  /** What is known of the current position: it lies beyond the data, or its header is incomplete. */
  lemma {:induction false} ScanStops(g: Grammar, d: string, e: nat, ranges: seq<(nat, nat)>, headers: nat)
    requires Steady(g) && WellFormedFrom(g, d, e)
    ensures var c := Scan(g, d, e, ranges, headers);
      && (!c.finished && c.end <= |d| ==> g.parse(d[c.end..]).Incomplete?)
      && (c.finished ==> c.end <= |d|) && e <= c.end
    decreases |d| - e
  {
    if e <= |d| {
      assert SteadyAt(g, d[e..], d[e..]);
      var h := g.parse(d[e..]);
      if h.Header? && h.size > 0 {
        ScanStops(g, d, e + h.length + h.size, ranges + [(e + h.length, e + h.length + h.size)], headers + h.length);
      }
    }
  }

  /** A point in the middle of the chunks of d: R bytes have been accounted for, the current chunk
      ends at e, and `part` bytes of the header there have been seen without completing it. */
  ghost predicate Midway(g: Grammar, d: string, b: nat, e: int, ranges: seq<(nat, nat)>, finished: bool,
    headers: int, r: int, part: int)
    requires Steady(g) && WellFormedFrom(g, d, b)
  {
    && 0 <= r <= |d| && 0 <= e && 0 <= headers
    && (finished ==> part == 0 && Scan(g, d, b, [], 0) == Chunks(e, ranges, true, headers))
    && (!finished ==>
         && WellFormedFrom(g, d, e) && Scan(g, d, b, [], 0) == Scan(g, d, e, ranges, headers)
         && part == (if e <= r then r - e else 0)
         && (e <= r ==> g.parse(d[e..r]).Incomplete?))
  }

  lemma SamePart(q: string, d: string, e: nat)
    requires q <= d && e <= |q|
    ensures d[e..|q|] == q[e..]
  {}

  /** The state after a prefix of the data is such a point. */
  lemma MidwayStart(g: Grammar, q: string, d: string, b: nat, c: Chunks, part: int)
    requires Steady(g) && q <= d && WellFormedFrom(g, d, b) && b <= |q| && WellFormedFrom(g, q, b)
    requires c == Scan(g, q, b, [], 0) && part == if c.finished || |q| <= c.end then 0 else |q| - c.end
    ensures true == Midway(g, d, b, c.end, c.ranges, c.finished, c.headers, |q|, part)
  {
    ScanGrows(g, q, d, b, [], 0);
    ScanStops(g, q, b, [], 0);
    if !c.finished && c.end <= |q| { SamePart(q, d, c.end); }
  }

  /** A complete header at the current chunk's end moves the point to the next chunk. */
  lemma MidwayStep(g: Grammar, d: string, b: nat, e: nat, ranges: seq<(nat, nat)>, headers: nat, r: int, part: int)
    requires Steady(g) && WellFormedFrom(g, d, b) && true == Midway(g, d, b, e, ranges, false, headers, r, part)
    requires e <= |d| && g.parse(d[e..]).Header?
    ensures g.parse(d[e..]).size >= 0 && r < e + g.parse(d[e..]).length <= |d|
    ensures var s, n := g.parse(d[e..]).size, e + g.parse(d[e..]).length;
            if s == 0 then true == Midway(g, d, b, n, ranges, true, headers + n - e, n, 0)
            else true == Midway(g, d, b, n + s, ranges + [(n, n + s)], false, headers + n - e, n, 0)
  {
    assert SteadyAt(g, d[e..], d[e..]);
    if e <= r {
      assert d[e..r] <= d[e..];
      assert SteadyAt(g, d[e..r], d[e..]) by { assert g.ok(d[e..]); var _ := g.ok(d[e..r]); }
    }
  }

  /** Once the data is used up, or the current chunk reaches beyond it, this is the final state. */
  lemma MidwayEnd(g: Grammar, d: string, b: nat, e: int, ranges: seq<(nat, nat)>, finished: bool, headers: int,
    r: int, part: int)
    requires Steady(g) && WellFormedFrom(g, d, b) && true == Midway(g, d, b, e, ranges, finished, headers, r, part)
    requires finished || r == |d| || e > |d|
    ensures 0 <= r <= |d| && 0 <= e && 0 <= headers && Scan(g, d, b, [], 0) == Chunks(e, ranges, finished, headers)
    ensures part == if finished || |d| <= e then 0 else |d| - e
  {
    if !finished && e <= |d| { assert d[e..r] == d[e..]; }
  }

  /** An incomplete header takes up the rest of the data. */
  lemma MidwayStop(g: Grammar, d: string, b: nat, e: nat, ranges: seq<(nat, nat)>, headers: nat, r: int, part: int)
    requires Steady(g) && WellFormedFrom(g, d, b) && true == Midway(g, d, b, e, ranges, false, headers, r, part)
    requires e <= |d| && g.parse(d[e..]).Incomplete?
    ensures true == Midway(g, d, b, e, ranges, false, headers, |d|, |d| - e)
  {
    assert d[e..|d|] == d[e..];
  }

  /** A complete header of a chunk with data: reading goes on behind the data. */
  lemma ScanChunk(g: Grammar, d: string, e: nat, ranges: seq<(nat, nat)>, headers: nat, size: nat, n: nat, next: nat,
    ranges': seq<(nat, nat)>, headers': nat)
    requires Steady(g) && e <= |d| && e <= n && size > 0 && g.ok(d[e..]) && g.parse(d[e..]) == Header(size, n - e)
    requires next == n + size && ranges' == ranges + [(n, next)] && headers' == headers + n - e
      && true == WellFormedFrom(g, d, next)
    ensures true == WellFormedFrom(g, d, e)
    ensures Scan(g, d, e, ranges, headers) == Scan(g, d, next, ranges', headers')
  {}

  /** A complete last header: reading ends there. */
  lemma ScanLast(g: Grammar, d: string, e: nat, ranges: seq<(nat, nat)>, headers: nat, length: nat)
    requires Steady(g) && e <= |d| && g.ok(d[e..]) && g.parse(d[e..]) == Header(0, length)
    ensures WellFormedFrom(g, d, e)
    ensures Scan(g, d, e, ranges, headers) == Chunks(e + length, ranges, true, headers + length)
  {}

  // ---------------------------------------------------------------- where chunks lie

  /** Ranges in order that start within a buffer of `size` bytes, which begins at `offset`. */
  predicate RangesIn(ranges: seq<(nat, nat)>, offset: nat, size: int) {
    && (forall i :: 0 <= i < |ranges| ==> offset <= ranges[i].0 <= ranges[i].1 && ranges[i].0 - offset <= size)
    && (forall i, j :: 0 <= i < j < |ranges| ==> ranges[i].1 <= ranges[j].0)
  }

  lemma RangesExtend(ranges: seq<(nat, nat)>, b: nat, size: nat, n: nat, m: nat)
    requires RangesIn(ranges, b, size) && b <= n <= m && n - b <= size
    requires ranges != [] ==> ranges[|ranges| - 1].1 <= n
    ensures RangesIn(ranges + [(n, m)], b, size)
  {
    var r := ranges + [(n, m)];
    forall i | 0 <= i < |ranges| ensures r[i].1 <= n {
      if i < |ranges| - 1 { assert ranges[i].1 <= ranges[|ranges| - 1].0; }
    }
  }

  /** The chunks of a response lie one behind the other, and begin within the data. */
  lemma {:induction false} ScanRanges(g: Grammar, d: string, b: nat, e: nat, ranges: seq<(nat, nat)>, headers: nat)
    requires Steady(g) && b <= |d| && b <= e && WellFormedFrom(g, d, e)
    requires RangesIn(ranges, b, |d| - b) && (ranges != [] ==> ranges[|ranges| - 1].1 <= e)
    ensures RangesIn(Scan(g, d, e, ranges, headers).ranges, b, |d| - b)
    decreases |d| - e
  {
    if e <= |d| {
      assert SteadyAt(g, d[e..], d[e..]);
      var h := g.parse(d[e..]);
      if h.Header? && h.size > 0 {
        var n := e + h.length;
        var m := n + h.size;
        RangesExtend(ranges, b, |d| - b, n, m);
        ScanRanges(g, d, b, m, ranges + [(n, m)], headers + h.length);
      }
    }
  }
}
