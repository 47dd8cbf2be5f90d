/** What status and header lines mean, said of their text; and responses with a body of known length. */
module HttpHeaders {
  import opened HttpNumbers
  import opened HttpChunks
  import opened HttpCollapse
  import opened HttpParser
  import opened HttpMessages

  // ---------------------------------------------------------------- words and numbers

  /** The word, each letter in either case. */
  predicate Spells(s: string, word: string) {
    |s| == |word| && forall i :: 0 <= i < |s| ==>
      s[i] == word[i] || ('a' <= word[i] <= 'z' && s[i] as int == word[i] as int - 32)
  }

  predicate LowerCase(word: string) { forall i :: 0 <= i < |word| ==> !('A' <= word[i] <= 'Z') }

  /** Lowering a text gives a word in lower case exactly if the text spells it. */
  lemma {:induction false} LoweredIff(s: string, word: string)
    requires LowerCase(word)
    ensures Lowered(s) == word <==> Spells(s, word)
  {
    if s != [] && word != [] {
      LoweredIff(s[1..], word[1..]);
      assert forall i :: 1 <= i < |s| ==> s[i] == s[1..][i - 1];
      assert forall i :: 1 <= i < |word| ==> word[i] == word[1..][i - 1];
      FirstLowered(s, word);
    }
  }

  lemma FirstLowered(s: string, word: string)
    requires s != [] && word != []
    ensures Lowered(s) == word <==> ToLower(s[0]) == word[0] && Lowered(s[1..]) == word[1..]
  {
    assert ([ToLower(s[0])] + Lowered(s[1..]))[1..] == Lowered(s[1..]);
    assert word == [word[0]] + word[1..];
  }

  lemma BeginsIff(s: string, word: string)
    requires LowerCase(word)
    ensures BeginsNoCase(word, s) <==> |word| <= |s| && Spells(s[..|word|], word)
  {
    LoweredIff(word, word);
    if |word| <= |s| { LoweredIff(s[..|word|], word); }
  }

  function Dec(n: nat): (s: string)
    ensures |s| > 0
  {
    if n < 10 then ['0' + n as char] else Dec(n / 10) + ['0' + (n % 10) as char]
  }

  lemma {:induction false} DecDigits(n: nat, i: nat)
    requires i < |Dec(n)|
    ensures '0' <= Dec(n)[i] <= '9'
  {
    if n >= 10 && i < |Dec(n / 10)| { DecDigits(n / 10, i); }
  }

  lemma {:induction false} ReadDecThen(n: nat, rest: string)
    ensures ReadDigits(Dec(n) + rest, 10, 0) == ReadDigits(rest, 10, n)
    ensures CountDigits(Dec(n) + rest) == |Dec(n)| + CountDigits(rest)
  {
    if n < 10 {
      var last := ['0' + n as char];
      assert Dec(n) + rest == last + rest && (last + rest)[1..] == rest;
    } else {
      var last := ['0' + (n % 10) as char];
      assert Dec(n) + rest == Dec(n / 10) + (last + rest) && (last + rest)[1..] == rest;
      ReadDecThen(n / 10, last + rest);
    }
  }

  predicate EndsNumber(rest: string) { rest == [] || !('0' <= rest[0] <= '9') }

  /** A number in decimal writing is read as written, up to what does not belong to it, or as the largest number of 64
      bits. */
  lemma DecRead(n: nat, rest: string)
    requires EndsNumber(rest)
    ensures StrToInt(Dec(n) + rest, 10) == if n < 0x8000_0000_0000_0000 then n else 0x7fff_ffff_ffff_ffff
    ensures IntLength(Dec(n) + rest) == |Dec(n)|
  {
    var s := Dec(n) + rest;
    DecDigits(n, 0);
    assert s[0] == Dec(n)[0] && SkipSpaces(s) == s;
    ReadDecThen(n, rest);
  }

  // ---------------------------------------------------------------- header lines

  predicate OnlyBlanks(s: string) { forall i :: 0 <= i < |s| ==> s[i] == ' ' || s[i] == '\t' }

  lemma {:induction false} BlanksSkipped(blanks: string, value: string)
    requires OnlyBlanks(blanks) && (value == [] || (value[0] != ' ' && value[0] != '\t'))
    ensures SkipBlanks(blanks + value) == value
  {
    if blanks == [] {
      assert blanks + value == value;
    } else {
      assert (blanks + value)[1..] == blanks[1..] + value;
      BlanksSkipped(blanks[1..], value);
    }
  }

  /** The parts of a line. */
  lemma LineParts(name: string, blanks: string, value: string, line: string)
    requires ':' !in name && OnlyBlanks(blanks) && (value == [] || (value[0] != ' ' && value[0] != '\t'))
    requires line == name + ":" + (blanks + value)
    ensures Find(line, 0, ':') == |name| < |line| && line[..|name|] == name && SkipBlanks(line[|name| + 1..]) == value
  {
    FoundAfter(line, 0, ':', name, ":" + (blanks + value));
    assert line[|name| + 1..] == blanks + value;
    BlanksSkipped(blanks, value);
  }

  lemma SpellsNoColon(s: string, word: string)
    requires Spells(s, word) && LowerCase(word) && ':' !in word
    ensures ':' !in s
  {}

  const LENGTH := "content-length"
  const RANGE := "content-range"
  const CODING := "transfer-encoding"

  /** The content length is the number written in the line, whatever the case of its name. */
  lemma ContentLengthLine(h: Head, name: string, blanks: string, n: nat, rest: string)
    requires Spells(name, "content-length") && OnlyBlanks(blanks) && n <= MAX_INT64 && EndsNumber(rest)
    ensures HeaderLine(h, name + ":" + (blanks + (Dec(n) + rest))) == (h.(contentLength := n), false)
  {
    var value := Dec(n) + rest;
    DecDigits(n, 0);
    assert value[0] == Dec(n)[0];
    SpellsNoColon(name, LENGTH);
    LoweredIff(name, LENGTH);
    LineParts(name, blanks, value, name + ":" + (blanks + value));
    DecRead(n, rest);
  }

  /** The first and last byte of a range, with or without the word "bytes", make the content length; a range that ends
      before it starts is an error, and no other. */
  lemma ContentRangeLine(h: Head, name: string, blanks: string, word: string, a: nat, b: nat, rest: string)
    requires Spells(name, "content-range") && OnlyBlanks(blanks) && (word == [] || Spells(word, "bytes "))
    requires a <= MAX_INT64 && b <= MAX_INT64 && EndsNumber(rest)
    ensures var (h', bad) := HeaderLine(h, name + ":" + (blanks + (word + (Dec(a) + "-" + (Dec(b) + rest)))));
      && h'.rangeStart == a && h'.rangeEnd == b && h'.status == h.status && h'.chunked == h.chunked && (bad <==> b < a)
      && h'.contentLength == if bad then h.contentLength else b - a + 1
  {
    var range := Dec(a) + "-" + (Dec(b) + rest);
    var value := word + range;
    RangeRead(h, word, a, b, rest, range, value);
    RangeLine(h, name, blanks, value, name + ":" + (blanks + value));
  }

  lemma RangeLine(h: Head, name: string, blanks: string, value: string, line: string)
    requires Spells(name, "content-range") && OnlyBlanks(blanks) && value != [] && value[0] != ' ' && value[0] != '\t'
    requires line == name + ":" + (blanks + value)
    ensures HeaderLine(h, line) == ContentRange(h, value)
  {
    SpellsNoColon(name, RANGE);
    LoweredIff(name, RANGE);
    LineParts(name, blanks, value, line);
  }

  lemma RangeRead(h: Head, word: string, a: nat, b: nat, rest: string, range: string, value: string)
    requires (word == [] || Spells(word, "bytes ")) && a <= MAX_INT64 && b <= MAX_INT64 && EndsNumber(rest)
    requires range == Dec(a) + "-" + (Dec(b) + rest) && value == word + range
    ensures value != [] && value[0] != ' ' && value[0] != '\t'
    ensures var h2 := h.(rangeStart := a, rangeEnd := b);
      ContentRange(h, value) == if b < a then (h2, true) else (h2.(contentLength := b - a + 1), false)
  {
    var tail := Dec(b) + rest;
    DecDigits(a, 0);
    BothRead(a, b, rest, range, tail);
    WordSkipped(word, range, value);
    RangeParts(h, value, range, |Dec(a)|, tail, a, b);
  }

  lemma BothRead(a: nat, b: nat, rest: string, range: string, tail: string)
    requires a <= MAX_INT64 && b <= MAX_INT64 && EndsNumber(rest)
    requires tail == Dec(b) + rest && range == Dec(a) + "-" + tail
    ensures range != [] && range[0] == Dec(a)[0] && StrToInt(range, 10) == a && IntLength(range) == |Dec(a)| < |range|
    ensures range[|Dec(a)|] == '-' && range[|Dec(a)| + 1..] == tail
    ensures StrToInt(tail, 10) == b && IntLength(tail) > 0
  {
    assert range == Dec(a) + ("-" + tail);
    DecRead(a, "-" + tail);
    DecRead(b, rest);
  }

  lemma RangeParts(h: Head, value: string, s: string, n: nat, r: string, a: int, b: int)
    requires s == (if BeginsNoCase("bytes ", value) then value[6..] else value) && 0 < n == IntLength(s) < |s|
    requires StrToInt(s, 10) == a && s[n] == '-' && s[n + 1..] == r && StrToInt(r, 10) == b && IntLength(r) > 0
    ensures var h2 := h.(rangeStart := a, rangeEnd := b);
      ContentRange(h, value) == if b < a then (h2, true) else (h2.(contentLength := b - a + 1), false)
  {}

  lemma WordSkipped(word: string, range: string, value: string)
    requires (word == [] || Spells(word, "bytes ")) && range != [] && '0' <= range[0] <= '9' && value == word + range
    ensures (if BeginsNoCase("bytes ", value) then value[6..] else value) == range
    ensures value[0] != ' ' && value[0] != '\t'
  {
    BeginsIff(value, "bytes ");
    if word == [] {
      assert value == range;
    } else {
      assert value[..6] == word && value[6..] == range;
    }
  }

  /** A body is chunked if the value begins with that word in any case, and not otherwise. */
  lemma CodingLine(h: Head, name: string, blanks: string, value: string)
    requires Spells(name, "transfer-encoding") && OnlyBlanks(blanks)
    requires value == [] || (value[0] != ' ' && value[0] != '\t')
    ensures HeaderLine(h, name + ":" + (blanks + value))
      == (h.(chunked := |value| >= 7 && Spells(value[..7], "chunked")), false)
  {
    SpellsNoColon(name, CODING);
    LoweredIff(name, CODING);
    LineParts(name, blanks, value, name + ":" + (blanks + value));
    BeginsIff(value, "chunked");
  }

  /** A line with one of these names has a meaning to the parser. */
  predicate Special(name: string) {
    Spells(name, "content-length") || Spells(name, "content-range") || Spells(name, "transfer-encoding")
  }

  /** Any other line changes nothing. */
  lemma OtherLine(h: Head, name: string, value: string)
    requires ':' !in name && !Special(name)
    ensures HeaderLine(h, name + ":" + value) == (h, false)
  {
    var line := name + ":" + value;
    FoundAfter(line, 0, ':', name, ":" + value);
    assert line[..|name|] == name;
    LoweredIff(name, LENGTH);
    LoweredIff(name, RANGE);
    LoweredIff(name, CODING);
  }

  // ---------------------------------------------------------------- the status line

  lemma {:induction false} SpacesSkipped(spaces: string, rest: string)
    requires (forall i :: 0 <= i < |spaces| ==> spaces[i] == ' ') && rest != [] && rest[0] != ' '
    ensures SkipChar(spaces + rest, ' ') == rest
  {
    if spaces == [] {
      assert spaces + rest == rest;
    } else {
      assert (spaces + rest)[1..] == spaces[1..] + rest;
      SpacesSkipped(spaces[1..], rest);
    }
  }

  /** The status is the number behind the protocol. */
  lemma StatusRead(h: Head, version: string, spaces: string, n: nat, message: string)
    requires ' ' !in version && spaces != [] && (forall i :: 0 <= i < |spaces| ==> spaces[i] == ' ') && n <= MAX_INT64
    requires message == [] || message[0] == ' '
    ensures StatusLine(h, "HTTP/" + version + (spaces + (Dec(n) + message))) == h.(status := n)
  {
    var protocol, rest := "HTTP/" + version, Dec(n) + message;
    var line := protocol + (spaces + rest);
    assert forall i :: 0 <= i < |protocol| ==> protocol[i] == if i < 5 then "HTTP/"[i] else version[i - 5];
    FoundAfter(line, 0, ' ', protocol, spaces + rest);
    assert line[|protocol|..] == spaces + rest && line[..5] == "HTTP/";
    DecDigits(n, 0);
    assert rest[0] == Dec(n)[0];
    SpacesSkipped(spaces, rest);
    NumberAlone(n, message);
  }

  lemma NumberAlone(n: nat, message: string)
    requires (message == [] || message[0] == ' ') && n <= MAX_INT64
    ensures var rest := Dec(n) + message; StrToInt(rest[..Find(rest, 0, ' ')], 10) == n
  {
    var rest := Dec(n) + message;
    forall i | 0 <= i < |Dec(n)| ensures Dec(n)[i] != ' ' { DecDigits(n, i); }
    if message == [] {
      assert rest == Dec(n);
      NotFound(rest, 0, ' ');
    } else {
      FoundAfter(rest, 0, ' ', Dec(n), message);
    }
    assert rest[..|Dec(n)|] == Dec(n) + [];
    DecRead(n, []);
  }

  lemma {:induction false} NotFound(s: string, from: nat, c: char)
    requires from <= |s| && forall i :: from <= i < |s| ==> s[i] != c
    ensures Find(s, from, c) == |s|
    decreases |s| - from
  {
    if from < |s| { NotFound(s, from + 1, c); }
  }

  /** A line that does not begin so is a request, which has no content. */
  lemma RequestRead(h: Head, line: string)
    requires |line| < 5 || line[..5] != "HTTP/"
    ensures StatusLine(h, line) == h.(status := 0, contentLength := 0)
  {}

  /** The header lines are read one after the other, up to the empty line. */
  lemma {:induction false} LinesUpTo(d: string, f: Front, lines: seq<string>, rest: string) returns (f': Front)
    requires f.phase.ReadHeader? && f.pos <= |d| && d[f.pos..] == TrailerText(lines) + rest && ValidTrailer(lines)
    requires !ReadLines(f.head, lines).1
    ensures f' == f.(pos := f'.pos, head := ReadLines(f.head, lines).0) && f'.pos <= |d| && d[f'.pos..] == CRLF + rest
    ensures RunFront(f, d) == RunFront(f', d)
    decreases |lines|
  {
    f' := f;
    if lines != [] {
      var more := TrailerText(lines[1..]) + rest;
      assert d[f.pos..] == lines[0] + CRLF + more;
      var next := f.(pos := f.pos + |lines[0]| + 2, head := HeaderLine(f.head, lines[0]).0);
      OneLineRead(d, f, lines[0], more, next);
      f' := LinesUpTo(d, next, lines[1..], rest);
    }
  }

  /** Behind a header with the status 100, another one is read from its status line on. */
  lemma InterimRead(d: string, status: string, lines: seq<string>, rest: string, h: Head)
    requires d == status + CRLF + (TrailerText(lines) + rest) && LF !in status && ValidTrailer(lines)
    requires ReadLines(StatusLine(START.head, status), lines) == (h, false) && h.status == 100
    ensures |rest| <= |d| && RunFront(START, d) == RunFront(Front(ReadStatus, |d| - |rest|, h, 0), d)
  {
    var f := FirstLine(d, status, TrailerText(lines) + rest);
    var f' := LinesUpTo(d, f, lines, rest);
    InterimEnds(d, f', rest);
  }

  lemma FirstLine(d: string, status: string, more: string) returns (f: Front)
    requires d == status + CRLF + more && LF !in status
    ensures f == Front(ReadHeader, |status| + 2, StatusLine(START.head, status), 0)
    ensures f.pos <= |d| && d[f.pos..] == more && RunFront(START, d) == RunFront(f, d)
  {
    assert d[0..] == status + CRLF + more;
    TrailerLineRead(d, 0, status, more);
    f := LineStep(START, d, |status| + 1);
  }

  lemma InterimEnds(d: string, f: Front, rest: string)
    requires f.phase.ReadHeader? && f.head.status == 100 && f.pos <= |d| && d[f.pos..] == CRLF + rest
    ensures |rest| <= |d| && RunFront(f, d) == RunFront(Front(ReadStatus, |d| - |rest|, f.head, f.bodyStart), d)
  {
    assert d[f.pos..] == [] + CRLF + rest;
    TrailerLineRead(d, f.pos, [], rest);
  }

  /** An empty line in the place of the status line is an error. */
  lemma EmptyStatus(d: string)
    requires d != [] && d[0] == LF
    ensures RunFront(START, d).phase.ErrorState?
  {
    assert Find(d, 0, LF) == 0;
  }

  // ---------------------------------------------------------------- bodies of known length

  /** The parts of an ordinary line. */
  datatype Line = Line(name: string, value: string)

  function LineOf(l: Line): string { l.name + ":" + l.value }

  predicate Ordinary(l: Line) { ':' !in l.name && LF !in l.name && LF !in l.value && !Special(l.name) }

  predicate AllOrdinary(ls: seq<Line>) { forall i :: 0 <= i < |ls| ==> Ordinary(ls[i]) }

  function TextOf(ls: seq<Line>): (r: seq<string>)
    ensures |r| == |ls| && forall i :: 0 <= i < |ls| ==> r[i] == LineOf(ls[i])
  {
    seq(|ls|, i requires 0 <= i < |ls| => LineOf(ls[i]))
  }

  /** Ordinary lines before and behind a line that matters. */
  lemma {:induction false} LinesSkipped(h: Head, before: seq<Line>, lines: seq<string>)
    requires AllOrdinary(before)
    ensures ReadLines(h, TextOf(before) + lines) == ReadLines(h, lines)
    decreases |before|
  {
    if before == [] {
      assert TextOf(before) + lines == lines;
    } else {
      var all := TextOf(before) + lines;
      assert Ordinary(before[0]) && all[0] == LineOf(before[0]);
      OtherLine(h, before[0].name, before[0].value);
      assert all[1..] == TextOf(before[1..]) + lines;
      LinesSkipped(h, before[1..], lines);
    }
  }

  lemma LengthAmong(h: Head, before: seq<Line>, line: string, behind: seq<Line>, n: nat)
    requires AllOrdinary(before) && AllOrdinary(behind) && HeaderLine(h, line) == (h.(contentLength := n), false)
    ensures ReadLines(h, TextOf(before) + ([line] + TextOf(behind))) == (h.(contentLength := n), false)
  {
    LinesSkipped(h, before, [line] + TextOf(behind));
    assert ([line] + TextOf(behind))[1..] == TextOf(behind) == TextOf(behind) + [];
    LinesSkipped(h.(contentLength := n), behind, []);
  }

  /** The text of a response with a body of known length. */
  datatype Response = Response(version: string, status: nat, message: string, before: seq<Line>, name: string,
    blanks: string, behind: seq<Line>, body: string)

  predicate ValidResponse(r: Response) {
    && ' ' !in r.version && LF !in r.version && r.status <= MAX_INT64 && r.status != 100
    && (r.message == [] || r.message[0] == ' ') && LF !in r.message
    && AllOrdinary(r.before) && AllOrdinary(r.behind) && Spells(r.name, "content-length") && OnlyBlanks(r.blanks)
    && |r.body| <= MAX_INT64
  }

  function StatusText(r: Response): string { "HTTP/" + r.version + (" " + (Dec(r.status) + r.message)) }

  function LengthText(r: Response): string { r.name + ":" + (r.blanks + (Dec(|r.body|) + [])) }

  function HeaderText(r: Response): string {
    StatusText(r) + CRLF + TrailerText(TextOf(r.before) + ([LengthText(r)] + TextOf(r.behind)))
  }

  lemma LinesValid(r: Response)
    requires ValidResponse(r)
    ensures ValidTrailer(TextOf(r.before) + ([LengthText(r)] + TextOf(r.behind))) && LF !in StatusText(r)
  {
    forall i | 0 <= i < |Dec(|r.body|)| ensures Dec(|r.body|)[i] != LF { DecDigits(|r.body|, i); }
    forall i | 0 <= i < |Dec(r.status)| ensures Dec(r.status)[i] != LF { DecDigits(r.status, i); }
    assert LF !in "HTTP/" && LF !in " ";
    NameHasNoLF(r.name);
    assert TrailerLine(LengthText(r));
    forall i | 0 <= i < |r.before| ensures TrailerLine(TextOf(r.before)[i]) { OrdinaryTrailer(r.before[i]); }
    forall i | 0 <= i < |r.behind| ensures TrailerLine(TextOf(r.behind)[i]) { OrdinaryTrailer(r.behind[i]); }
  }

  lemma NameHasNoLF(name: string)
    requires Spells(name, "content-length")
    ensures LF !in name && ':' !in name
  {
    SpellsNoColon(name, LENGTH);
    assert LF !in LENGTH;
  }

  lemma OrdinaryTrailer(l: Line)
    requires Ordinary(l)
    ensures TrailerLine(LineOf(l))
  {
    assert LineOf(l)[|l.name|] == ':';
  }

  /** The head that the lines of a response make. */
  lemma HeadRead(r: Response, status: string, lines: seq<string>)
    requires ValidResponse(r) && status == StatusText(r)
    requires lines == TextOf(r.before) + ([LengthText(r)] + TextOf(r.behind))
    ensures ReadLines(StatusLine(START.head, status), lines) == (Head(r.status, |r.body|, -1, -1, false), false)
  {
    StatusRead(START.head, r.version, " ", r.status, r.message);
    var h := START.head.(status := r.status);
    ContentLengthLine(h, r.name, r.blanks, |r.body|, []);
    LengthAmong(h, r.before, LengthText(r), r.behind, |r.body|);
  }

  /** The header is read as written, whatever stands behind it. */
  lemma ResponseRead(r: Response, rest: string)
    requires ValidResponse(r)
    ensures var header := HeaderText(r);
      RunFront(START, header + rest)
        == Front(ReadBody, |header|, Head(r.status, |r.body|, -1, -1, false), |header|)
  {
    var status, lines := StatusText(r), TextOf(r.before) + ([LengthText(r)] + TextOf(r.behind));
    LinesValid(r);
    HeadRead(r, status, lines);
    TextRead(status, lines, Head(r.status, |r.body|, -1, -1, false), rest);
  }

  lemma TextRead(status: string, lines: seq<string>, h: Head, rest: string)
    requires LF !in status && ValidTrailer(lines) && h.status != 100
    requires ReadLines(StatusLine(START.head, status), lines) == (h, false)
    ensures var header := status + CRLF + TrailerText(lines);
      RunFront(START, header + rest) == Front(ReadBody, |header|, h, |header|)
  {
    var header := status + CRLF + TrailerText(lines);
    assert header + rest == status + CRLF + (TrailerText(lines) + rest);
    HeaderRead(header + rest, status, lines, rest);
  }

  /** Where a parser stands in a body of known length n that starts at b. */
  lemma PlainState(p: Parser, q: string, b: nat, h: Head)
    requires true == p.Tracks(q) && RunFront(START, q) == Front(ReadBody, b, h, b) && !h.chunked && h.contentLength >= 0
    ensures p.phase.ReadBody? && p.bodyStart == b && p.head == h && p.ranges == []
    ensures p.recvPos == (if h.contentLength < |q| - b then b + h.contentLength else |q|) && p.chunkHeaderSize == 0
    ensures p.finished <==> |q| >= b + h.contentLength
  {}

  lemma FrontState(p: Parser, q: string)
    requires true == p.Tracks(q) && !RunFront(START, q).phase.ReadBody?
    ensures !p.finished
  {}

  /** The body begins only when the whole header is there. */
  lemma HeaderFirst(header: string, f: Front, q: string, d: string)
    requires RunFront(START, header) == f && f.phase.ReadBody? && f.pos == |header| && header <= d && q <= d
    ensures |q| < |header| ==> !RunFront(START, q).phase.ReadBody?
    ensures |q| >= |header| ==> RunFront(START, q) == f
  {
    RunFrontGrows(START, header, d);
    if |q| >= |header| { RunFrontGrows(START, header, q); } else { RunFrontGrows(START, q, d); }
  }

  /** What the header of a response leads to. */
  function FrontOf(r: Response): Front {
    Front(ReadBody, |HeaderText(r)|, Head(r.status, |r.body|, -1, -1, false), |HeaderText(r)|)
  }

  lemma HeaderOnly(r: Response, header: string)
    requires ValidResponse(r) && header == HeaderText(r)
    ensures RunFront(START, header) == FrontOf(r)
  {
    ResponseRead(r, []);
    assert header + [] == header;
  }

  /** With a part of the data the parser is finished exactly if the whole body is in it. */
  lemma FinishedIff(p: Parser, r: Response, q: string, d: string, header: string)
    requires true == ValidResponse(r) && true == p.Tracks(q) && q <= d && header == HeaderText(r)
      && header + r.body <= d
    ensures p.finished <==> |q| >= |header + r.body|
  {
    HeaderOnly(r, header);
    HeaderFirst(header, FrontOf(r), q, d);
    if |q| >= |header| {
      PlainState(p, q, |header|, FrontOf(r).head);
    } else {
      FrontState(p, q);
    }
  }

  /** The data holds the response, and it ends at `size`. */
  ghost predicate Carries(d: string, r: Response, size: nat, parseChunks: bool) {
    Sound(d, parseChunks) && ValidResponse(r) && HeaderText(r) + r.body <= d && size == |HeaderText(r) + r.body|
  }

  /** Hands the parser the first n bytes of the data after the first k, and tells whether it is finished. */
  method Hand(p: Parser, d: string, ghost k: nat, n: nat, ghost r: Response, ghost size: nat, a: int, b: int)
    returns (finished: bool, payload: int, protocol: int)
    requires k <= n <= |d| && true == p.Tracks(d[..k]) && true == Carries(d, r, size, p.parseChunks)
    requires true == Reported(p, a, b)
    modifies p
    ensures true == p.Tracks(d[..n]) && finished == (n >= size) && true == Reported(p, payload, protocol)
  {
    ghost var header := HeaderText(r);
    assert Carries(d, r, size, p.parseChunks);
    HeaderOnly(r, header);
    HeaderFirst(header, FrontOf(r), d, d);
    payload, protocol := FeedPart(p, d, d[..n], d[..k], a, b);
    FinishedIff(p, r, d[..n], d, header);
    finished := p.finished;
  }

  /** The body that the parser shows in the end. */
  method Show(p: Parser, ghost d: string, ghost r: Response, ghost header: string)
    returns (begin: nat, end: nat)
    requires true == p.Tracks(d) && true == ValidResponse(r) && header == HeaderText(r) && header + r.body <= d
    ensures begin == |header| && end == |header| + |r.body| <= |d|
    ensures p.BodyBytes() == |r.body| && p.OtherBytes() == |header|
  {
    HeaderOnly(r, header);
    HeaderFirst(header, FrontOf(r), d, d);
    PlainState(p, d, |header|, FrontOf(r).head);
    begin, end := p.GetBody(d);
  }

  /** However a response with a body of known length is cut up, and whatever comes behind it, the parser is finished
      exactly when all of the body has arrived, and the body it then shows is that body. The bytes it reports are those
      of the body and of the header. */
  method ReceivePlain(r: Response, extra: string, cuts: seq<nat>, parseChunks: bool)
    returns (finished: seq<bool>, begin: nat, end: nat, payload: int, protocol: int)
    requires ValidResponse(r) && Cuts(cuts, |HeaderText(r) + r.body + extra|)
    ensures |finished| == |cuts|
    ensures forall i :: 0 <= i < |cuts| ==> finished[i] == (cuts[i] >= |HeaderText(r) + r.body|)
    ensures begin <= end <= |HeaderText(r) + r.body + extra|
      && (HeaderText(r) + r.body + extra)[begin..end] == r.body
    ensures payload == |r.body| && protocol == |HeaderText(r)|
  {
    var header := HeaderText(r);
    var d := header + r.body + extra;
    var p := new Parser(parseChunks);
    PlainSound(r, d, header, parseChunks);
    finished, payload, protocol := HandAll(p, d, cuts, r, |header + r.body|);
    begin, end := Show(p, d, r, header);
    Middle(header, r.body, extra);
  }

  method HandAll(p: Parser, d: string, cuts: seq<nat>, ghost r: Response, ghost size: nat)
    returns (finished: seq<bool>, payload: int, protocol: int)
    requires true == p.Tracks([]) && true == Carries(d, r, size, p.parseChunks) && true == Cuts(cuts, |d|)
    modifies p
    ensures true == p.Tracks(d) && Told(finished, cuts, size, |cuts|) && true == Reported(p, payload, protocol)
  {
    ghost var k: nat := 0;
    finished, payload, protocol := [], 0, 0;
    NothingYet(p);
    assert d[..0] == [];
    for i := 0 to |cuts|
      invariant k <= |d| && true == p.Tracks(d[..k]) && (i < |cuts| ==> k <= cuts[i])
      invariant true == Told(finished, cuts, size, i) && true == Reported(p, payload, protocol)
    {
      CutNext(cuts, |d|, i);
      var done;
      done, payload, protocol := Hand(p, d, k, cuts[i], r, size, payload, protocol);
      ToldMore(finished, cuts, size, i);
      k, finished := cuts[i], finished + [done];
    }
    var last;
    last, payload, protocol := Hand(p, d, k, |d|, r, size, payload, protocol);
    assert d[..|d|] == d;
  }

  /** At the first n cuts the parser was finished exactly where all of the response had arrived. */
  predicate Told(finished: seq<bool>, cuts: seq<nat>, size: nat, n: nat) {
    |finished| == n <= |cuts| && forall i :: 0 <= i < n ==> finished[i] == (cuts[i] >= size)
  }

  lemma ToldMore(finished: seq<bool>, cuts: seq<nat>, size: nat, n: nat)
    requires Told(finished, cuts, size, n) && n < |cuts|
    ensures true == Told(finished + [cuts[n] >= size], cuts, size, n + 1)
  {}

  lemma CutNext(cuts: seq<nat>, size: nat, i: nat)
    requires Cuts(cuts, size) && i < |cuts|
    ensures cuts[i] <= size && (i + 1 < |cuts| ==> cuts[i] <= cuts[i + 1])
  {}

  lemma Middle(a: string, b: string, c: string)
    ensures (a + b + c)[|a|..|a| + |b|] == b
  {}

  lemma PlainSound(r: Response, d: string, header: string, parseChunks: bool)
    requires true == ValidResponse(r) && header == HeaderText(r) && header <= d
    ensures true == Sound(d, parseChunks)
  {
    HeaderOnly(r, header);
    HeaderFirst(header, FrontOf(r), d, d);
    HttpSteady();
  }
}
