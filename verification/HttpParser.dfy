/** The incremental HTTP parser: it is handed an ever longer receive buffer and keeps, between calls, how
    far it has got. */
module HttpParser {
  import opened HttpNumbers
  import opened HttpChunks
  import opened HttpCollapse

  // ---------------------------------------------------------------- status line and headers

  /** What the header lines have said so far. */
  datatype Head = Head(status: int, contentLength: int, rangeStart: int, rangeEnd: int, chunked: bool)

  datatype Phase = ReadStatus | ReadHeader | ReadBody | ErrorState

  function ToLower(c: char): char { if 'A' <= c <= 'Z' then c - 'A' + 'a' else c }

  function Lowered(s: string): string {
    if s == [] then [] else [ToLower(s[0])] + Lowered(s[1..])
  }

  predicate BeginsNoCase(prefix: string, s: string) {
    |prefix| <= |s| && Lowered(prefix) == Lowered(s[..|prefix|])
  }

  function SkipBlanks(s: string): string {
    if s != [] && (s[0] == ' ' || s[0] == '\t') then SkipBlanks(s[1..]) else s
  }

  function SkipChar(s: string, c: char): string {
    if s != [] && s[0] == c then SkipChar(s[1..], c) else s
  }

  /** A response line sets the status; any other line is a request, which has no content. */
  function StatusLine(h: Head, line: string): Head {
    var i := Find(line, 0, ' ');
    var rest := SkipChar(line[i..], ' ');
    if i >= 5 && line[..5] == "HTTP/" then h.(status := StrToInt(rest[..Find(rest, 0, ' ')], 10))
    else h.(status := 0, contentLength := 0)
  }

  /** How many characters `strtoll` takes from s, none if there is no number. */
  function IntLength(s: string): (n: nat)
    ensures n <= |s|
  {
    var t := SkipSpaces(s);
    SkipSpacesShorter(s);
    var u := if t != [] && (t[0] == '-' || t[0] == '+') then t[1..] else t;
    var k := CountDigits(u);
    if k == 0 then 0 else |s| - |u| + k
  }

  lemma {:induction false} SkipSpacesShorter(s: string)
    ensures |SkipSpaces(s)| <= |s|
  {
    if s != [] && IsSpace(s[0]) { SkipSpacesShorter(s[1..]); }
  }

  function CountDigits(s: string): (n: nat)
    ensures n <= |s|
  {
    if s == [] || !IsDigit(s[0], 10) then 0 else 1 + CountDigits(s[1..])
  }

  /** "bytes a-b", the word optional; the second value says whether the range is bad. */
  function ContentRange(h: Head, value: string): (Head, bool) {
    var s := if BeginsNoCase("bytes ", value) then value[6..] else value;
    var h1 := h.(rangeStart := StrToInt(s, 10));
    var n := IntLength(s);
    if n == 0 || n == |s| || s[n] != '-' then (h1, true) else
    var r := s[n + 1..];
    var h2 := h1.(rangeEnd := StrToInt(r, 10));
    if IntLength(r) == 0 || h2.rangeEnd < h2.rangeStart then (h2, true)
    else (h2.(contentLength := h2.rangeEnd - h2.rangeStart + 1), false)
  }

  /** A line with a colon; the second value reports an error. */
  function HeaderLine(h: Head, line: string): (Head, bool) {
    var i := Find(line, 0, ':');
    var name := Lowered(line[..i]);
    var value := if i < |line| then SkipBlanks(line[i + 1..]) else [];
    if name == "content-length" then (h.(contentLength := StrToInt(value, 10)), false)
    else if name == "content-range" then ContentRange(h, value)
    else if name == "transfer-encoding" then (h.(chunked := BeginsNoCase("chunked", value)), false)
    else (h, false)
  }

  /** The parser before the body: `pos` is where the next unread line starts. */
  datatype Front = Front(phase: Phase, pos: nat, head: Head, bodyStart: nat) {
    predicate InLines() { phase.ReadStatus? || phase.ReadHeader? }
  }

  const START := Front(ReadStatus, 0, Head(-1, -1, -1, -1, false), 0)

  /** The effect of the line that starts at f.pos and ends at lf. */
  function LineStep(f: Front, d: string, lf: nat): (f': Front)
    requires f.InLines() && f.pos <= lf < |d|
    ensures f'.pos == lf + 1 || (f'.phase.ErrorState? && f'.pos == f.pos)
    ensures f'.phase.ReadBody? ==> f'.bodyStart == f'.pos
  {
    var line := LineText(d, f.pos, lf);
    if f.phase.ReadStatus? then
      if lf == f.pos then f.(phase := ErrorState)
      else f.(phase := ReadHeader, pos := lf + 1, head := StatusLine(f.head, line))
    else if ':' !in line then
      if f.head.status == 100 then f.(phase := ReadStatus, pos := lf + 1)
      else f.(phase := ReadBody, pos := lf + 1, bodyStart := lf + 1)
    else
      var (h, bad) := HeaderLine(f.head, line);
      f.(phase := if bad then ErrorState else ReadHeader, pos := lf + 1, head := h)
  }

  /** Reads whole lines until the data, the header or the patience with it ends. */
  function RunFront(f: Front, d: string): (r: Front)
    requires f.pos <= |d|
    ensures r.pos <= |d|
    decreases |d| - f.pos, if f.InLines() then 1 else 0
  {
    if !f.InLines() then f else
    var lf := Find(d, f.pos, LF);
    if lf == |d| then f else RunFront(LineStep(f, d, lf), d)
  }

  /** Reading the lines of the whole data is reading those of a prefix, then the rest. */
  lemma {:induction false} RunFrontGrows(f: Front, q: string, d: string)
    requires q <= d && f.pos <= |q|
    ensures RunFront(f, q).pos <= |d| && RunFront(f, d) == RunFront(RunFront(f, q), d)
    decreases |q| - f.pos, if f.InLines() then 1 else 0
  {
    if f.InLines() {
      var lf := Find(q, f.pos, LF);
      FindGrows(q, d, f.pos, LF);
      if lf < |q| {
        LineTextGrows(q, d, f.pos, lf);
        RunFrontGrows(LineStep(f, q, lf), q, d);
      }
    }
  }

  lemma {:induction false} RunFrontBody(f: Front, d: string)
    requires f.pos <= |d| && (f.phase.ReadBody? ==> f.bodyStart == f.pos)
    ensures RunFront(f, d).phase.ReadBody? ==> RunFront(f, d).bodyStart == RunFront(f, d).pos
    decreases |d| - f.pos, if f.InLines() then 1 else 0
  {
    if f.InLines() {
      var lf := Find(d, f.pos, LF);
      if lf < |d| { RunFrontBody(LineStep(f, d, lf), d); }
    }
  }

  // ---------------------------------------------------------------- the body

  /** Where the chunks of the data d lie, for a body that starts at b. */
  ghost function ChunksOf(g: Grammar, d: string, b: nat): Chunks
    requires Steady(g) && WellFormedFrom(g, d, b)
  {
    Scan(g, d, b, [], 0)
  }

  /** Bytes of an incomplete chunk header at the end of the data. */
  function PartialHeader(d: string, c: Chunks): nat {
    if c.finished || |d| <= c.end then 0 else |d| - c.end
  }

  /** The data has no ill-formed chunk header, as far as it gets to chunks. */
  ghost predicate Sound(d: string, parseChunks: bool) {
    var f := RunFront(START, d);
    Steady(Http()) && (f.phase.ReadBody? && f.head.chunked && parseChunks ==> WellFormedFrom(Http(), d, f.bodyStart))
  }

  /** How far a body without chunks is taken. */
  function PlainEnd(d: string, f: Front): int {
    if 0 <= f.head.contentLength < |d| - f.bodyStart then f.bodyStart + f.head.contentLength else |d|
  }

  class Parser {
    const parseChunks: bool
    var phase: Phase
    var recvPos: int
    var head: Head
    var bodyStart: nat
    var finished: bool
    var curChunkEnd: int
    var chunkHeaderSize: int
    var partialChunkHeader: int
    var ranges: seq<(nat, nat)>
    var seen: nat

    constructor (parseChunks: bool)
      ensures this.parseChunks == parseChunks && Tracks([])
    {
      this.parseChunks := parseChunks;
      phase, recvPos, head, bodyStart := ReadStatus, 0, Head(-1, -1, -1, -1, false), 0;
      finished, curChunkEnd, chunkHeaderSize, partialChunkHeader := false, -1, 0, 0;
      ranges, seen := [], 0;
    }

    /** The header fields are those of f. */
    ghost predicate AtFront(f: Front)
      reads this`phase, this`head, this`bodyStart
    {
      phase == f.phase && head == f.head && bodyStart == f.bodyStart
    }

    /** Nothing of the body has been looked at. */
    ghost predicate NoBody()
      reads this`finished, this`curChunkEnd, this`chunkHeaderSize, this`partialChunkHeader, this`ranges
    {
      !finished && curChunkEnd == -1 && chunkHeaderSize == 0 && partialChunkHeader == 0 && ranges == []
    }

    /** The chunk bookkeeping is that of the data d. */
    ghost predicate ChunksTracked(g: Grammar, d: string)
      requires Steady(g) && WellFormedFrom(g, d, bodyStart)
      reads this`recvPos, this`bodyStart, this`finished, this`curChunkEnd, this`chunkHeaderSize,
        this`partialChunkHeader, this`ranges
    {
      var c := ChunksOf(g, d, bodyStart);
      && recvPos == |d| && curChunkEnd == c.end && ranges == c.ranges && finished == c.finished
      && partialChunkHeader == PartialHeader(d, c) && chunkHeaderSize == c.headers + PartialHeader(d, c)
    }

    /** The parser is in the state that the data d puts it in, however it arrived. */
    ghost predicate Tracks(d: string)
      reads this
    {
      var f := RunFront(START, d);
      && seen == |d| && AtFront(f)
      && (!f.phase.ReadBody? ==> recvPos == f.pos && NoBody())
      && (f.phase.ReadBody? ==>
           if f.head.chunked && parseChunks then
             Steady(Http()) && WellFormedFrom(Http(), d, bodyStart) && ChunksTracked(Http(), d)
           else
             && recvPos == PlainEnd(d, f) && curChunkEnd == -1 && chunkHeaderSize == 0
             && partialChunkHeader == 0 && ranges == []
             && (finished <==> f.head.contentLength >= 0 && !f.head.chunked
                               && recvPos - bodyStart >= f.head.contentLength))
    }

    /** One line of the status or the header. */
    method TakeLine(d: string, lf: nat, ghost f: Front)
      requires f.InLines() && AtFront(f) && recvPos == f.pos <= lf < |d|
      modifies this`phase, this`recvPos, this`head, this`bodyStart
      ensures AtFront(LineStep(f, d, lf)) && recvPos == LineStep(f, d, lf).pos
    {
      var line := LineText(d, recvPos, lf);
      if phase.ReadStatus? {
        if lf == recvPos {
          phase := ErrorState;
        } else {
          head := StatusLine(head, line);
          recvPos, phase := lf + 1, ReadHeader;
        }
      } else {
        recvPos := lf + 1;
        if ':' !in line {
          if head.status == 100 {
            phase := ReadStatus;
          } else {
            phase, bodyStart := ReadBody, lf + 1;
          }
        } else {
          var (h, bad) := HeaderLine(head, line);
          head := h;
          if bad { phase := ErrorState; }
        }
      }
    }

    method TakeLines(d: string, ghost f: Front)
      requires f.pos <= |d| && true == AtFront(f) && recvPos == f.pos
      modifies this`phase, this`recvPos, this`head, this`bodyStart
      ensures true == AtFront(RunFront(f, d)) && recvPos == RunFront(f, d).pos
    {
      ghost var g := f;
      while phase.ReadStatus? || phase.ReadHeader?
        invariant g.pos <= |d| && AtFront(g) && recvPos == g.pos && RunFront(f, d) == RunFront(g, d)
        decreases |d| - g.pos, if g.InLines() then 1 else 0
      {
        var lf := Find(d, recvPos, LF);
        if lf == |d| { break; }
        TakeLine(d, lf, g);
        g := LineStep(g, d, lf);
      }
    }

    /** Reads trailer lines up to the first without a colon. */
    static method ReadTrailer(buf: string, start: nat) returns (e: nat)
      requires start <= |buf|
      ensures e == TailEnd(buf, start)
    {
      var pos := start;
      var lf := Find(buf, pos, LF);
      while lf != |buf|
        invariant start <= pos <= |buf| && lf == Find(buf, pos, LF) && TailEnd(buf, start) == TailEnd(buf, pos)
        decreases |buf| - pos
      {
        TailStep(buf, pos);
        var line := LineText(buf, pos, lf);
        pos := lf + 1;
        if ':' !in line { return pos; }
        lf := Find(buf, pos, LF);
      }
      TailStep(buf, pos);
      e := |buf| + 1;
    }

    /** Reads a chunk header: a line with the size, and after the last chunk the trailer. */
    static method ReadChunkHeader(buf: string) returns (h: ChunkHeader)
      ensures h == ParseChunkHeader(buf)
    {
      var pos := 0;
      if pos < |buf| && buf[pos] == CR { pos := pos + 1; }
      if pos < |buf| && buf[pos] == LF { pos := pos + 1; }
      assert pos == SkipLineEnd(buf);
      if pos == |buf| { return Incomplete; }
      var lf := Find(buf, pos, LF);
      if lf == |buf| { return Incomplete; }
      var size := StrToInt(buf[pos..], 16);
      if size != 0 { return Header(size, lf + 1); }
      var e := ReadTrailer(buf, lf + 1);
      h := if e == |buf| + 1 then Incomplete else Header(0, e);
    }

    /** The chunk bookkeeping is at a point in the middle of the chunks of d, r bytes in. */
    ghost predicate OnTheWay(g: Grammar, d: string, r: int)
      requires Steady(g) && WellFormedFrom(g, d, bodyStart)
      reads this`recvPos, this`bodyStart, this`finished, this`curChunkEnd, this`chunkHeaderSize,
        this`partialChunkHeader, this`ranges
    {
      Midway(g, d, bodyStart, curChunkEnd, ranges, finished, chunkHeaderSize - partialChunkHeader, r,
        partialChunkHeader)
    }

    ghost function At(): Cursor
      reads this`recvPos, this`curChunkEnd, this`partialChunkHeader
    {
      Cursor(recvPos, curChunkEnd, partialChunkHeader)
    }

    /** The effect of what was read at the current chunk's end: a header, or a part of one. */
    method TakeHeader(d: string, h: ChunkHeader, ghost g: Grammar, ghost r: int) returns (protocol: int)
      requires true == Steady(g) && true == WellFormedFrom(g, d, bodyStart) && true == OnTheWay(g, d, r) && !finished
      requires curChunkEnd <= |d| && h == g.parse(d[curChunkEnd..]) && r < |d|
      requires recvPos == if curChunkEnd > r then curChunkEnd else r
      modifies this`recvPos, this`finished, this`curChunkEnd, this`chunkHeaderSize, this`partialChunkHeader, this`ranges
      ensures true == OnTheWay(g, d, recvPos) && recvPos > r && protocol == recvPos - old(recvPos)
        && protocol == chunkHeaderSize - old(chunkHeaderSize)
      ensures At() == Advance(|d|, old(At()).(received := r), h)
    {
      if h.Header? {
        protocol := TakeComplete(d, h, g, r);
      } else {
        protocol := TakePart(d, h, g, r);
      }
    }

    method TakeComplete(d: string, h: ChunkHeader, ghost g: Grammar, ghost r: int) returns (protocol: int)
      requires true == Steady(g) && true == WellFormedFrom(g, d, bodyStart) && true == OnTheWay(g, d, r) && !finished
      requires curChunkEnd <= |d| && h == g.parse(d[curChunkEnd..]) && h.Header?
      requires recvPos == if curChunkEnd > r then curChunkEnd else r
      modifies this`recvPos, this`finished, this`curChunkEnd, this`chunkHeaderSize, this`partialChunkHeader, this`ranges
      ensures true == OnTheWay(g, d, recvPos) && recvPos > r && protocol == recvPos - old(recvPos)
        && protocol == chunkHeaderSize - old(chunkHeaderSize)
      ensures At() == Advance(|d|, old(At()).(received := r), h)
    {
      ghost var headers, e := chunkHeaderSize - partialChunkHeader, curChunkEnd;
      MidwayStep(g, d, bodyStart, curChunkEnd, ranges, headers, r, partialChunkHeader);
      var n := curChunkEnd + h.length;
      if h.size > 0 { ranges := ranges + [(n, n + h.size)]; }
      curChunkEnd := n + h.size;
      if h.size == 0 { finished := true; }
      protocol := h.length - partialChunkHeader;
      partialChunkHeader := 0;
      chunkHeaderSize := chunkHeaderSize + protocol;
      recvPos := recvPos + protocol;
      assert chunkHeaderSize - partialChunkHeader == headers + n - e && recvPos == n;
    }

    method TakePart(d: string, h: ChunkHeader, ghost g: Grammar, ghost r: int) returns (protocol: int)
      requires true == Steady(g) && true == WellFormedFrom(g, d, bodyStart) && true == OnTheWay(g, d, r) && !finished
      requires curChunkEnd <= |d| && h == g.parse(d[curChunkEnd..]) && h.Incomplete? && r < |d|
      requires recvPos == if curChunkEnd > r then curChunkEnd else r
      modifies this`recvPos, this`chunkHeaderSize, this`partialChunkHeader
      ensures true == OnTheWay(g, d, recvPos) && recvPos > r && protocol == recvPos - old(recvPos)
        && protocol == chunkHeaderSize - old(chunkHeaderSize)
      ensures At() == Advance(|d|, old(At()).(received := r), h)
    {
      ghost var headers, e := chunkHeaderSize - partialChunkHeader, curChunkEnd;
      MidwayStop(g, d, bodyStart, curChunkEnd, ranges, headers, r, partialChunkHeader);
      protocol := |d| - recvPos;
      partialChunkHeader := partialChunkHeader + protocol;
      chunkHeaderSize := chunkHeaderSize + protocol;
      recvPos := recvPos + protocol;
      assert chunkHeaderSize - partialChunkHeader == headers && partialChunkHeader == |d| - e;
    }

    /** In the middle of the chunks of d. */
    ghost predicate Reading(g: Grammar, d: string)
      reads this
    {
      g == Http() && Steady(g) && WellFormedFrom(g, d, bodyStart) && OnTheWay(g, d, recvPos)
    }

    /** One round of the chunk loop: payload up to the chunk's end, then its header. */
    method TakeChunk(d: string, ghost g: Grammar) returns (payload: int, protocol: int)
      requires Reading(g, d) && !finished && curChunkEnd <= |d| && recvPos < |d|
      modifies this`recvPos, this`finished, this`curChunkEnd, this`chunkHeaderSize, this`partialChunkHeader, this`ranges
      ensures true == Reading(g, d) && recvPos > old(recvPos) && payload + protocol == recvPos - old(recvPos)
        && protocol == chunkHeaderSize - old(chunkHeaderSize)
      ensures 0 <= old(curChunkEnd) && At() == Round(d, old(At()))
    {
      ghost var r := recvPos;
      payload := 0;
      if curChunkEnd > recvPos {
        payload := curChunkEnd - recvPos;
        recvPos := recvPos + payload;
      }
      var h := ReadChunkHeader(d[curChunkEnd..]);
      protocol := TakeHeader(d, h, g, r);
    }

    lemma ReadingDone(g: Grammar, d: string)
      requires true == Steady(g) && true == WellFormedFrom(g, d, bodyStart) && true == OnTheWay(g, d, recvPos)
      requires finished || recvPos == |d| || curChunkEnd > |d|
      ensures 0 <= recvPos <= |d|
      ensures recvPos == |d| ==> true == ChunksTracked(g, d)
      ensures var c := ChunksOf(g, d, bodyStart);
        && curChunkEnd == c.end && ranges == c.ranges && finished == c.finished
        && partialChunkHeader == PartialHeader(d, c) && chunkHeaderSize == c.headers + PartialHeader(d, c)
    {
      var h := chunkHeaderSize - partialChunkHeader;
      MidwayEnd(g, d, bodyStart, curChunkEnd, ranges, finished, h, recvPos, partialChunkHeader);
      assert ChunksOf(g, d, bodyStart) == Chunks(curChunkEnd, ranges, finished, h);
    }

    /** The chunk loop. */
    method TakeChunks(d: string, ghost g: Grammar) returns (payload: int, protocol: int)
      requires Reading(g, d)
      modifies this`recvPos, this`finished, this`curChunkEnd, this`chunkHeaderSize, this`partialChunkHeader, this`ranges
      ensures Steady(g) && WellFormedFrom(g, d, bodyStart) && ChunksTracked(g, d)
      ensures payload + protocol == |d| - old(recvPos) && protocol == chunkHeaderSize - old(chunkHeaderSize)
    {
      payload, protocol := 0, 0;
      while curChunkEnd <= |d| && !finished && recvPos < |d|
        invariant Reading(g, d) && payload + protocol == recvPos - old(recvPos)
          && protocol == chunkHeaderSize - old(chunkHeaderSize)
        decreases |d| - recvPos
      {
        var a, b := TakeChunk(d, g);
        payload, protocol := payload + a, protocol + b;
      }
      ReadingDone(g, d);
      if recvPos < |d| {
        payload := payload + |d| - recvPos;
        recvPos := |d|;
      }
    }

    /** A body without chunks ends with its content length, if that is known. */
    method TakePlain(d: string, ghost f: Front)
      returns (payload: int)
      requires bodyStart <= recvPos <= |d| && bodyStart == f.bodyStart && head == f.head
      requires head.contentLength >= 0 ==> recvPos <= bodyStart + head.contentLength
      modifies this`recvPos, this`finished
      ensures recvPos == PlainEnd(d, f) && payload == recvPos - old(recvPos) >= 0
      ensures finished == (old(finished)
        || (head.contentLength >= 0 && !head.chunked && recvPos - bodyStart >= head.contentLength))
    {
      payload := |d| - recvPos;
      var received := recvPos - bodyStart + payload;
      if received > head.contentLength && head.contentLength >= 0 {
        payload := head.contentLength - recvPos + bodyStart;
      }
      recvPos := recvPos + payload;
      if head.contentLength >= 0 && !head.chunked && recvPos - bodyStart >= head.contentLength { finished := true; }
    }

    /** The chunks of d have been read up to the bytes accounted for. */
    ghost predicate ChunksBegun(g: Grammar, d: string)
      reads this`recvPos, this`bodyStart, this`finished, this`curChunkEnd, this`chunkHeaderSize,
        this`partialChunkHeader, this`ranges
    {
      && Steady(g) && WellFormedFrom(g, d, bodyStart)
      && (if curChunkEnd == -1 then recvPos == bodyStart && NoBody() else OnTheWay(g, d, recvPos))
    }

    lemma ChunksResume(g: Grammar, q: string, d: string)
      requires Steady(g) && q <= d && WellFormedFrom(g, d, bodyStart) && bodyStart <= |q|
      requires WellFormedFrom(g, q, bodyStart) && true == ChunksTracked(g, q)
      ensures true == ChunksBegun(g, d)
    {
      var c := ChunksOf(g, q, bodyStart);
      MidwayStart(g, q, d, bodyStart, c, partialChunkHeader);
      assert chunkHeaderSize - partialChunkHeader == c.headers;
    }

    /** Takes what is new of the body. */
    method TakeBody(d: string, ghost f: Front, ghost g: Grammar) returns (payload: int, protocol: int)
      requires phase.ReadBody? && AtFront(f) && bodyStart <= recvPos <= |d| && g == Http()
      requires head.chunked && parseChunks ==> true == ChunksBegun(g, d)
      requires !(head.chunked && parseChunks) ==>
        (head.contentLength >= 0 ==> recvPos <= bodyStart + head.contentLength)
      modifies this`recvPos, this`finished, this`curChunkEnd, this`chunkHeaderSize, this`partialChunkHeader, this`ranges
      ensures head.chunked && parseChunks ==> true == ChunksTracked(g, d) && payload + protocol == |d| - old(recvPos)
      ensures protocol == chunkHeaderSize - old(chunkHeaderSize)
      ensures !(head.chunked && parseChunks) ==>
        && recvPos == PlainEnd(d, f) && protocol == 0 && payload == recvPos - old(recvPos)
          && curChunkEnd == old(curChunkEnd)
        && chunkHeaderSize == old(chunkHeaderSize) && partialChunkHeader == old(partialChunkHeader)
          && ranges == old(ranges)
        && finished == (old(finished)
          || (head.contentLength >= 0 && !head.chunked && recvPos - bodyStart >= head.contentLength))
    {
      if head.chunked && parseChunks {
        if curChunkEnd == -1 {
          curChunkEnd := bodyStart;
          assert d[bodyStart..bodyStart] == [] && g.parse([]) == ParseChunkHeader([]) == Incomplete;
        }
        payload, protocol := TakeChunks(d, g);
      } else {
        protocol := 0;
        payload := TakePlain(d, f);
      }
    }

    /** The lines in front of the body are read, and the body as far as the bytes accounted for. */
    ghost predicate BodyBegun(d: string, f: Front)
      reads this`phase, this`head, this`recvPos, this`bodyStart, this`finished, this`curChunkEnd,
        this`chunkHeaderSize, this`partialChunkHeader, this`ranges
    {
      && phase.ReadBody? && AtFront(f) && bodyStart <= recvPos <= |d|
      && (if head.chunked && parseChunks then ChunksBegun(Http(), d) else
          && (head.contentLength >= 0 ==> recvPos <= bodyStart + head.contentLength)
          && curChunkEnd == -1 && chunkHeaderSize == 0 && partialChunkHeader == 0 && ranges == []
          && (finished ==> head.contentLength >= 0 && !head.chunked && recvPos - bodyStart >= head.contentLength))
    }

    /** Where the lines end, the body begins; where they do not, the data is tracked. */
    method TakeFront(d: string, ghost q: string, ghost f: Front) returns (protocol: int)
      requires true == Tracks(q) && q <= d && true == Sound(d, parseChunks) && !phase.ReadBody? && !phase.ErrorState?
      requires f == RunFront(START, d)
      modifies this`phase, this`recvPos, this`head, this`bodyStart, this`seen
      ensures phase.ReadBody? ==> true == BodyBegun(d, f) && recvPos == bodyStart && protocol == bodyStart - |q|
      ensures seen == |d| && (!phase.ReadBody? ==> true == Tracks(d) && protocol == |d| - |q|)
      ensures chunkHeaderSize == old(chunkHeaderSize) == 0
    {
      var startPos := seen;
      seen := |d|;
      RunFrontGrows(START, q, d);
      TakeLines(d, RunFront(START, q));
      protocol := (if phase.ReadBody? then bodyStart else |d|) - startPos;
      FrontTaken(d, f);
    }

    lemma FrontTaken(d: string, f: Front)
      requires f == RunFront(START, d) && true == AtFront(f) && recvPos == f.pos && true == NoBody() && seen == |d|
      requires true == Sound(d, parseChunks)
      ensures phase.ReadBody? ==> true == BodyBegun(d, f) && recvPos == bodyStart
      ensures !phase.ReadBody? ==> true == Tracks(d)
    {
      RunFrontBody(START, d);
    }

    /** The body read so far is a beginning of the body in more data. */
    lemma BodyResumes(d: string, q: string, f: Front)
      requires true == Tracks(q) && q <= d && true == Sound(d, parseChunks) && phase.ReadBody?
      requires f == RunFront(START, d)
      ensures true == BodyBegun(d, f)
      ensures recvPos == |q| || (!(head.chunked && parseChunks) && recvPos == PlainEnd(d, f))
    {
      RunFrontGrows(START, q, d);
      RunFrontBody(START, q);
      if head.chunked && parseChunks { ChunksResume(Http(), q, d); }
    }

    /** Takes what is new of the body, and the data is tracked. */
    method FinishBody(d: string, ghost f: Front) returns (payload: int, protocol: int)
      requires true == BodyBegun(d, f) && f == RunFront(START, d) && seen == |d|
      modifies this`recvPos, this`finished, this`curChunkEnd, this`chunkHeaderSize, this`partialChunkHeader, this`ranges
      ensures true == Tracks(d) && payload + protocol == recvPos - old(recvPos)
        && protocol == chunkHeaderSize - old(chunkHeaderSize)
      ensures if head.chunked && parseChunks then recvPos == |d| else recvPos == PlainEnd(d, f)
    {
      payload, protocol := TakeBody(d, f, Http());
    }

    /** The bytes accounted for so far: of the body itself, and of the header and of chunk headers. */
    function BodyBytes(): int
      reads this
    {
      if phase.ReadBody? then recvPos - bodyStart - chunkHeaderSize else 0
    }

    function OtherBytes(): int
      reads this
    {
      if phase.ReadBody? then bodyStart + chunkHeaderSize else seen
    }

    /** Called with everything received so far. Whatever the earlier calls were, the parser ends up in
        the state that the data determines, and every new byte is counted once. */
    method Incoming(d: string, ghost q: string) returns (payload: int, protocol: int, error: bool)
      requires true == Tracks(q) && q <= d && true == Sound(d, parseChunks)
      modifies this
      ensures true == Tracks(d)
      ensures error <==> |d| > |q| && phase.ErrorState?
      ensures !phase.ErrorState? ==>
        payload == BodyBytes() - old(BodyBytes()) && protocol == OtherBytes() - old(OtherBytes())
    {
      payload, protocol, error := 0, 0, false;
      if seen == |d| {
        assert q == d;
        return;
      }
      ghost var f := RunFront(START, d);
      if phase.ErrorState? {
        RunFrontGrows(START, q, d);
        seen, error := |d|, true;
        return;
      }
      if !phase.ReadBody? {
        protocol := TakeFront(d, q, f);
        if phase.ErrorState? {
          error := true;
          return;
        }
      } else {
        BodyResumes(d, q, f);
        seen := |d|;
      }
      if phase.ReadBody? {
        var a, b := FinishBody(d, f);
        payload, protocol := a, protocol + b;
      }
    }

    /** What is known of a body with chunks: where it starts and where its chunks lie. */
    lemma BodyLayout(d: string)
      requires true == Tracks(d) && phase.ReadBody?
      ensures bodyStart <= recvPos <= |d|
      ensures RangesIn(ranges, bodyStart, |d| - bodyStart)
      ensures head.chunked && parseChunks ==> recvPos == |d|
      ensures !(head.chunked && parseChunks) ==> ranges == []
    {
      RunFrontBody(START, d);
      if head.chunked && parseChunks {
        ScanRanges(Http(), d, bodyStart, bodyStart, [], 0);
      }
    }

    /** The interval of the receive buffer that holds the body, chunk headers included. */
    method GetBody(ghost d: string) returns (begin: nat, end: nat)
      requires true == Tracks(d) && phase.ReadBody?
      ensures begin == bodyStart <= end <= |d| && RangesIn(ranges, begin, end - begin)
      ensures ranges != [] ==> end == if ranges[|ranges| - 1].1 < recvPos then ranges[|ranges| - 1].1 else recvPos
      ensures ranges == [] ==>
        end == if 0 <= head.contentLength < recvPos - bodyStart then bodyStart + head.contentLength else recvPos
    {
      BodyLayout(d);
      var last := recvPos;
      if head.chunked && ranges != [] {
        if ranges[|ranges| - 1].1 < last { last := ranges[|ranges| - 1].1; }
      } else if head.contentLength >= 0 && bodyStart + head.contentLength < last {
        last := bodyStart + head.contentLength;
      }
      begin, end := bodyStart, last;
    }

    /** Removes the chunk headers from a body, in place; any other body stays as it is. */
    method CollapseChunkHeaders(buffer: array<char>, size: nat) returns (n: nat)
      requires size <= buffer.Length && RangesIn(ranges, bodyStart, size)
      modifies buffer
      ensures n <= size
      ensures buffer[..n] == if head.chunked then Gather(old(buffer[..size]), ranges, |ranges|, bodyStart)
        else old(buffer[..size])
    {
      n := size;
      if head.chunked { n := Collapse(buffer, size, ranges, bodyStart); }
    }
  }
}
