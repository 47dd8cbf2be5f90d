/** The conversion loops. Each moves through the source and writes to a target that has room for a number of
    code units; when it stops, the source position is where a later call has to go on. */
module UtfConvert {
  import opened UtfCodes
  import opened UtfRuns

  /** The test of a UTF-8 sequence, from its last byte to its first. */
  method IsLegalUTF8(t: seq<nat>) returns (legal: bool)
    requires t != []
    ensures legal == Legal(t)
  {
    if |t| > 4 { return false; }
    if |t| == 4 && (t[3] < 0x80 || t[3] > 0xBF) { return false; }
    if |t| >= 3 && (t[2] < 0x80 || t[2] > 0xBF) { return false; }
    if |t| >= 2 {
      var a := t[1];
      if a > 0xBF { return false; }
      if t[0] == 0xE0 {
        if a < 0xA0 { return false; }
      } else if t[0] == 0xED {
        if a > 0x9F { return false; }
      } else if t[0] == 0xF0 {
        if a < 0x90 { return false; }
      } else if t[0] == 0xF4 {
        if a > 0x8F { return false; }
      } else if a < 0x80 {
        return false;
      }
    }
    if 0x80 <= t[0] < 0xC2 { return false; }
    legal := t[0] <= 0xF4;
  }

  /** Adds up the bytes, shifting after each but the last. */
  method GatherBytes(t: seq<nat>) returns (ch: nat)
    ensures ch == Gathered(t)
  {
    ch := 0;
    for i := 0 to |t|
      invariant ch == Gathered(t[..i])
    {
      assert t[..i + 1][..i] == t[..i];
      ch := ch * 64 + t[i];
    }
    assert t[..|t|] == t;
  }

  /** The encoding of a character is written from its last byte to its first. */
  method WriteBytes(c: nat) returns (bytes: seq<nat>)
    ensures bytes == Encode8(c)
  {
    var n := if c < 0x80 then 1 else if c < 0x800 then 2 else if c < 0x10000 then 3 else 4;
    var ch := c;
    bytes := [];
    Shifts(c);
    if n >= 4 { bytes := [0x80 + ch % 64] + bytes; ch := ch / 64; }
    if n >= 3 { bytes := [0x80 + ch % 64] + bytes; ch := ch / 64; }
    if n >= 2 { bytes := [0x80 + ch % 64] + bytes; ch := ch / 64; }
    var mark := if n == 1 then 0 else if n == 2 then 0xC0 else if n == 3 then 0xE0 else 0xF0;
    bytes := [mark + ch] + bytes;
  }

  method WriteUnits(c: nat) returns (units: seq<nat>)
    ensures units == Encode16(c)
  {
    if c <= 0xFFFF { return [c]; }
    var ch := c - 0x10000;
    units := [ch / 1024 + 0xD800, ch % 1024 + 0xDC00];
  }

  lemma Shifts(c: nat)
    ensures c / 64 / 64 == c / 4096 && c / 64 / 64 / 64 == c / 262144
  {}

  /** What is written comes first. */
  function After(out: seq<nat>, o: Outcome): Outcome { o.(out := out + o.out) }

  /** The run from start is what has been written, followed by the run from pos. */
  ghost predicate Underway(c: Conversion, s: seq<nat>, start: nat, room: nat, pos: nat, target: seq<nat>,
    sofar: Result) {
    && pos <= |s| && |target| <= room
    && Run(c, s, start, room, ConversionOK) == After(target, Run(c, s, pos, room - |target|, sofar))
  }

  /** A character that fits has been written. */
  lemma Wrote(c: Conversion, s: seq<nat>, start: nat, room: nat, pos: nat, target: seq<nat>, sofar: Result, ch: nat,
    len: nat, bad: bool, piece: seq<nat>)
    requires Underway(c, s, start, room, pos, target, sofar) && pos < |s| && c.read(s, pos) == Char(ch, len, bad)
      && len > 0
    requires piece == c.write(ch) && |target| + |piece| <= room && pos + len <= |s|
    ensures Underway(c, s, start, room, pos + len, target + piece, if bad then SourceIllegal else sofar)
  {
    var left := room - |target| - |piece|;
    RunStep(c, s, pos, room - |target|, left, sofar, pos + len, piece);
    var rest := Run(c, s, pos + len, left, if bad then SourceIllegal else sofar);
    Assoc(target, piece, rest.out);
    assert room - |target + piece| == left;
  }

  /** The run stops at pos. */
  lemma Stopped(c: Conversion, s: seq<nat>, start: nat, room: nat, pos: nat, target: seq<nat>, sofar: Result,
    result: Result)
    requires Underway(c, s, start, room, pos, target, sofar)
    requires
      || (pos == |s| && result == sofar)
      || (pos < |s| && c.read(s, pos) == Stop(result))
      || (pos < |s| && c.read(s, pos).Char? && |target| + |c.write(c.read(s, pos).ch)| > room
        && result == TargetExhausted)
    ensures Run(c, s, start, room, ConversionOK) == Outcome(result, pos, target)
  {
    assert target + [] == target;
  }

  /** Reads one character of UTF-8, or finds out why there is none. */
  method Next8(s: seq<nat>, pos: nat) returns (x: Step)
    requires pos < |s|
    ensures x == Read8(s, pos) && (x.Char? ==> Scalar(x.ch) && pos < pos + x.len <= |s|)
  {
    var extra := Trailing(s[pos]);
    if pos + extra >= |s| { return Stop(SourceExhausted); }
    var t := s[pos..pos + extra + 1];
    var legal := IsLegalUTF8(t);
    if !legal { return Stop(SourceIllegal); }
    LegalValue(t);
    var ch := GatherBytes(t);
    x := Char(ch - Offset(extra), extra + 1, false);
  }

  method ConvertUTF8toUTF16(s: seq<nat>, start: nat, room: nat) returns (result: Result, pos: nat, target: seq<nat>)
    requires start <= |s|
    ensures Outcome(result, pos, target) == Run(From8To16, s, start, room, ConversionOK)
  {
    ghost var c := From8To16;
    result, pos, target := ConversionOK, start, [];
    while pos < |s|
      invariant Underway(c, s, start, room, pos, target, ConversionOK) && result == ConversionOK
      decreases |s| - pos
    {
      var x := Next8(s, pos);
      if x.Stop? {
        Stopped(c, s, start, room, pos, target, ConversionOK, x.result);
        result := x.result;
        return;
      }
      var units := WriteUnits(x.ch);
      if |target| >= room || (|units| == 2 && |target| + 1 >= room) {
        Stopped(c, s, start, room, pos, target, ConversionOK, TargetExhausted);
        result := TargetExhausted;
        return;
      }
      Wrote(c, s, start, room, pos, target, ConversionOK, x.ch, x.len, false, units);
      target := target + units;
      pos := pos + x.len;
    }
    Stopped(c, s, start, room, pos, target, ConversionOK, ConversionOK);
  }

  method ConvertUTF8toUTF32(s: seq<nat>, start: nat, room: nat) returns (result: Result, pos: nat, target: seq<nat>)
    requires start <= |s|
    ensures Outcome(result, pos, target) == Run(From8To32, s, start, room, ConversionOK)
  {
    ghost var c := From8To32;
    result, pos, target := ConversionOK, start, [];
    while pos < |s|
      invariant Underway(c, s, start, room, pos, target, ConversionOK) && result == ConversionOK
      decreases |s| - pos
    {
      var x := Next8(s, pos);
      if x.Stop? {
        Stopped(c, s, start, room, pos, target, ConversionOK, x.result);
        result := x.result;
        return;
      }
      if |target| >= room {
        Stopped(c, s, start, room, pos, target, ConversionOK, TargetExhausted);
        result := TargetExhausted;
        return;
      }
      Wrote(c, s, start, room, pos, target, ConversionOK, x.ch, x.len, false, [x.ch]);
      target := target + [x.ch];
      pos := pos + x.len;
    }
    Stopped(c, s, start, room, pos, target, ConversionOK, ConversionOK);
  }

  /** Reads one character of UTF-16. */
  method Next16(s: seq<nat>, pos: nat, strict: bool) returns (x: Step)
    requires pos < |s|
    ensures x == Read16(strict)(s, pos) && (x.Char? ==> pos < pos + x.len <= |s|)
  {
    var u := s[pos];
    if 0xD800 <= u <= 0xDBFF {
      if pos + 1 < |s| {
        var v := s[pos + 1];
        if 0xDC00 <= v <= 0xDFFF {
          PairIs(u, v);
          return Char((u - 0xD800) * 1024 + (v - 0xDC00) + 0x10000, 2, false);
        }
        if strict { return Stop(SourceIllegal); }
      } else {
        return Stop(SourceExhausted);
      }
    } else if strict && 0xDC00 <= u <= 0xDFFF {
      return Stop(SourceIllegal);
    }
    x := Char(u, 1, false);
  }

  method ConvertUTF16toUTF8(s: seq<nat>, start: nat, room: nat, strict: bool)
    returns (result: Result, pos: nat, target: seq<nat>)
    requires start <= |s|
    ensures Outcome(result, pos, target) == Run(Conversion(Read16(strict), Encode8), s, start, room, ConversionOK)
  {
    ghost var c := Conversion(Read16(strict), Encode8);
    result, pos, target := ConversionOK, start, [];
    while pos < |s|
      invariant Underway(c, s, start, room, pos, target, ConversionOK) && result == ConversionOK
      decreases |s| - pos
    {
      var x := Next16(s, pos, strict);
      if x.Stop? {
        Stopped(c, s, start, room, pos, target, ConversionOK, x.result);
        result := x.result;
        return;
      }
      var bytes := WriteBytes(x.ch);
      if |target| + |bytes| > room {
        Stopped(c, s, start, room, pos, target, ConversionOK, TargetExhausted);
        result := TargetExhausted;
        return;
      }
      Wrote(c, s, start, room, pos, target, ConversionOK, x.ch, x.len, false, bytes);
      target := target + bytes;
      pos := pos + x.len;
    }
    Stopped(c, s, start, room, pos, target, ConversionOK, ConversionOK);
  }

  /** What is too large is replaced and remembered; the conversion goes on. */
  method ConvertUTF32toUTF8(s: seq<nat>, start: nat, room: nat, strict: bool)
    returns (result: Result, pos: nat, target: seq<nat>)
    requires start <= |s|
    ensures Outcome(result, pos, target) == Run(Conversion(Read32(strict), Encode8), s, start, room, ConversionOK)
  {
    ghost var c := Conversion(Read32(strict), Encode8);
    result, pos, target := ConversionOK, start, [];
    while pos < |s|
      invariant Underway(c, s, start, room, pos, target, result)
      decreases |s| - pos
    {
      var ch, bad := s[pos], s[pos] > 0x10FFFF;
      if strict && 0xD800 <= ch <= 0xDFFF {
        Stopped(c, s, start, room, pos, target, result, SourceIllegal);
        result := SourceIllegal;
        return;
      }
      if bad { ch := 0xFFFD; }
      var bytes := WriteBytes(ch);
      if |target| + |bytes| > room {
        Stopped(c, s, start, room, pos, target, result, TargetExhausted);
        result := TargetExhausted;
        return;
      }
      Wrote(c, s, start, room, pos, target, result, ch, 1, bad, bytes);
      if bad { result := SourceIllegal; }
      target := target + bytes;
      pos := pos + 1;
    }
    Stopped(c, s, start, room, pos, target, result, result);
  }
}
