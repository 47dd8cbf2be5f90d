/** Numbers in HTTP headers as the C library reads them, and when more bytes change them. */
module HttpNumbers {

  const CR: char := '\r'
  const LF: char := '\n'
  const MAX_INT64: nat := 0x7fff_ffff_ffff_ffff

  predicate IsSpace(c: char) { c == ' ' || '\t' <= c <= '\r' }

  /** The value of a digit, or the base if it is none. */
  function DigitValue(c: char, base: nat): (v: nat)
    requires base == 10 || base == 16
    ensures v <= base
  {
    if '0' <= c <= '9' then (c - '0') as nat
    else if base == 16 && 'a' <= c <= 'f' then (c - 'a') as nat + 10
    else if base == 16 && 'A' <= c <= 'F' then (c - 'A') as nat + 10
    else base
  }

  predicate IsDigit(c: char, base: nat)
    requires base == 10 || base == 16
  {
    DigitValue(c, base) < base
  }

  /** The digits at the start of s, read after a number with value v. */
  function ReadDigits(s: string, base: nat, v: nat): nat
    requires base == 10 || base == 16
  {
    if s == [] || !IsDigit(s[0], base) then v
    else ReadDigits(s[1..], base, v * base + DigitValue(s[0], base))
  }

  function SkipSpaces(s: string): (r: string)
    ensures |r| <= |s| && (r != [] ==> !IsSpace(r[0]))
  {
    if s != [] && IsSpace(s[0]) then SkipSpaces(s[1..]) else s
  }

  predicate Signed(t: string) { t != [] && (t[0] == '-' || t[0] == '+') }

  predicate Prefixed(u: string) { |u| >= 3 && u[0] == '0' && (u[1] == 'x' || u[1] == 'X') && IsDigit(u[2], 16) }

  /** The number behind the blanks and the sign; hexadecimal numbers may have a prefix. */
  function Magnitude(t: string, base: nat): nat
    requires base == 10 || base == 16
  {
    var u := if Signed(t) then t[1..] else t;
    ReadDigits(if base == 16 && Prefixed(u) then u[2..] else u, base, 0)
  }

  /** What `strtoll` makes of s: blanks, a sign, a hexadecimal prefix, digits, saturating. */
  function StrToInt(s: string, base: nat): int
    requires base == 10 || base == 16
  {
    var t := SkipSpaces(s);
    var m := Magnitude(t, base);
    if t != [] && t[0] == '-' then (if m > MAX_INT64 + 1 then -1 - MAX_INT64 as int else -(m as int))
    else if m > MAX_INT64 then MAX_INT64 else m
  }

  // ---------------------------------------------------------------- more bytes

  lemma {:induction false} ReadDigitsStops(s: string, t: string, base: nat, v: nat)
    requires base == 10 || base == 16
    requires exists i :: 0 <= i < |s| && !IsDigit(s[i], base)
    ensures ReadDigits(s, base, v) == ReadDigits(s + t, base, v)
  {
    if IsDigit(s[0], base) {
      var i :| 0 <= i < |s| && !IsDigit(s[i], base);
      assert s[1..][i - 1] == s[i];
      assert (s + t)[1..] == s[1..] + t;
      ReadDigitsStops(s[1..], t, base, v * base + DigitValue(s[0], base));
    }
  }

  lemma {:induction false} ReadDigitsGrow(s: string, t: string, base: nat, v: nat)
    requires base == 10 || base == 16
    ensures v <= ReadDigits(s, base, v) <= ReadDigits(s + t, base, v)
  {
    if s == [] {
      DigitsUp(t, base, v);
      assert s + t == t;
    } else if IsDigit(s[0], base) {
      assert (s + t)[1..] == s[1..] + t;
      ReadDigitsGrow(s[1..], t, base, v * base + DigitValue(s[0], base));
      Larger(v, base);
    }
  }

  lemma {:induction false} DigitsUp(s: string, base: nat, v: nat)
    requires base == 10 || base == 16
    ensures v <= ReadDigits(s, base, v)
  {
    if s != [] && IsDigit(s[0], base) {
      DigitsUp(s[1..], base, v * base + DigitValue(s[0], base));
      Larger(v, base);
    }
  }

  lemma Larger(v: nat, base: nat)
    requires base >= 1
    ensures v <= v * base
  {}

  lemma {:induction false} SkipSpacesGrows(s: string, t: string)
    ensures SkipSpaces(s) != [] ==> SkipSpaces(s + t) == SkipSpaces(s) + t
    ensures SkipSpaces(s) == [] ==> SkipSpaces(s + t) == SkipSpaces(t)
  {
    if s == [] {
      assert s + t == t;
    } else if IsSpace(s[0]) {
      assert (s + t)[1..] == s[1..] + t;
      SkipSpacesGrows(s[1..], t);
    }
  }

  lemma {:induction false} SkipSpacesIs(s: string)
    ensures s[|s| - |SkipSpaces(s)|..] == SkipSpaces(s)
  {
    if s != [] && IsSpace(s[0]) { SkipSpacesIs(s[1..]); }
  }

  /** The digits after a sign and a prefix. */
  function Digits(t: string): string {
    var u := if Signed(t) then t[1..] else t;
    if Prefixed(u) then u[2..] else u
  }

  /** With a line feed behind it, the number is complete. */
  lemma DigitsGrow(t: string, more: string, i: nat)
    requires i < |t| && t[i] == LF
    ensures Digits(t + more) == Digits(t) + more && exists j :: 0 <= j < |Digits(t)| && Digits(t)[j] == LF
  {
    var s := if Signed(t) then 1 else 0;
    var u := t[s..];
    assert (t + more)[s..] == u + more && u[i - s] == LF;
    var p := if Prefixed(u) then 2 else 0;
    assert (u + more)[p..] == u[p..] + more && u[p..][i - s - p] == LF;
  }

  lemma MagnitudeGrows(t: string, more: string, i: nat)
    requires i < |t| && t[i] == LF
    ensures Magnitude(t + more, 16) == Magnitude(t, 16)
  {
    DigitsGrow(t, more, i);
    var d := Digits(t);
    var j :| 0 <= j < |d| && d[j] == LF;
    assert !IsDigit(d[j], 16);
    ReadDigitsStops(d, more, 16, 0);
  }

  /** A number that is zero was zero before. */
  lemma MagnitudeZero(t: string, more: string)
    requires Signed(t) && Magnitude(t + more, 16) == 0
    ensures Magnitude(t, 16) == 0
  {
    var u := t[1..];
    assert (t + more)[1..] == u + more;
    if Prefixed(u) {
      assert (u + more)[2..] == u[2..] + more;
      ReadDigitsGrow(u[2..], more, 16, 0);
    } else if Prefixed(u + more) {
      ShortPrefix(u);
    } else {
      ReadDigitsGrow(u, more, 16, 0);
    }
  }

  lemma ShortPrefix(u: string)
    requires |u| < 3 && (|u| >= 1 ==> u[0] == '0') && (|u| >= 2 ==> !IsDigit(u[1], 16))
    ensures ReadDigits(u, 16, 0) == 0
  {
    if |u| >= 1 { assert ReadDigits(u, 16, 0) == ReadDigits(u[1..], 16, 0); }
  }

  // ---------------------------------------------------------------- when a line fixes its number

  predicate Blank(s: string) { forall i :: 0 <= i < |s| ==> IsSpace(s[i]) }

  lemma {:induction false} BlankSkips(s: string)
    ensures SkipSpaces(s) == [] <==> Blank(s)
  {
    if s != [] {
      BlankSkips(s[1..]);
      assert forall i :: 1 <= i < |s| ==> s[i] == s[1..][i - 1];
    }
  }

  /** The number at the start of s stays the same whatever follows. */
  ghost predicate Fixed(s: string) { forall t: string :: StrToInt(s + t, 16) == StrToInt(s, 16) }

  lemma FixedWhen(s: string, t: string, i: nat)
    requires i < |SkipSpaces(s)| && SkipSpaces(s)[i] == LF
    ensures StrToInt(s + t, 16) == StrToInt(s, 16)
  {
    SkipSpacesGrows(s, t);
    MagnitudeGrows(SkipSpaces(s), t, i);
  }

  lemma DigitRead(c: char)
    requires IsDigit(c, 16)
    ensures StrToInt([c, LF], 16) == DigitValue(c, 16)
  {
    var s := [c, LF];
    assert s[1..] == [LF] && !IsSpace(c);
    assert ReadDigits(s, 16, 0) == ReadDigits(s[1..], 16, DigitValue(c, 16));
  }

  /** A complete line fixes the number exactly if it is not blank. A blank line that is followed by "5" or by "6"
      says 5 or 6. */
  lemma FixedIff(line: string)
    requires LF !in line
    ensures Fixed(line + [LF]) <==> !Blank(line)
  {
    var s := line + [LF];
    BlankSkips(line);
    SkipSpacesGrows(line, [LF]);
    if Blank(line) {
      BlankSkips(s);
      var five, six := ['5', LF], ['6', LF];
      SkipSpacesGrows(s, five);
      SkipSpacesGrows(s, six);
      DigitRead('5');
      DigitRead('6');
      assert SkipSpaces(five) == five && SkipSpaces(six) == six;
      assert StrToInt(s + five, 16) == 5 && StrToInt(s + six, 16) == 6;
    } else {
      var r := SkipSpaces(line);
      assert SkipSpaces(s) == r + [LF] && (r + [LF])[|r|] == LF;
      forall t: string ensures StrToInt(s + t, 16) == StrToInt(s, 16) { FixedWhen(s, t, |r|); }
    }
  }

  /** A number is negative exactly if it has a minus and a digit that is not zero. */
  lemma NegativeIff(s: string)
    ensures StrToInt(s, 16) < 0 <==> SkipSpaces(s) != [] && SkipSpaces(s)[0] == '-' && Magnitude(SkipSpaces(s), 16) > 0
  {}
}
