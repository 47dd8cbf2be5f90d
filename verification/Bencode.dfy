/** Bencoded values (BEP 3), and the entries that the lazy decoder makes of them: positions in the text, in
    arrays that grow. */
module Bencode {
  import BitArith

  /** An integer, a string, or a list or dictionary. The keys of list items are empty. */
  datatype Value = Int(i: int) | Str(s: string) | Many(dict: bool, items: seq<Item>)
  datatype Item = Item(key: string, val: Value)

  const TWO_31: nat := 0x8000_0000
  const TWO_32: nat := 0x1_0000_0000
  const TWO_63: int := 0x8000_0000_0000_0000
  const TWO_64: nat := 0x1_0000_0000_0000_0000

  /** The 64-bit signed number with the same low bits. */
  function Wrap64(x: int): (r: int)
    ensures -TWO_63 <= r < TWO_63
  {
    (x + TWO_63) % TWO_64 - TWO_63
  }

  predicate Fits64(x: int) { -TWO_63 <= x < TWO_63 }

  predicate IsDigit(c: char) { '0' <= c <= '9' }

  function Digit(c: char): nat
    requires IsDigit(c)
  {
    (c - '0') as nat
  }

  function Decimal(n: nat): (s: string)
    ensures |s| > 0 && IsDigit(s[0])
  {
    if n < 10 then ['0' + n as char] else Decimal(n / 10) + ['0' + (n % 10) as char]
  }

  function EncodeStr(s: string): string { Decimal(|s|) + ":" + s }

  function EncodeInt(i: int): string { if i < 0 then "-" + Decimal(-i) else Decimal(i) }

  function Encode(v: Value): (s: string)
    decreases v, 1
  {
    match v
    case Int(i) => "i" + EncodeInt(i) + "e"
    case Str(s) => EncodeStr(s)
    case Many(dict, items) => (if dict then "d" else "l") + EncodeItems(v, 0)
  }

  /** The items from k on, and the end. */
  function EncodeItems(v: Value, k: nat): string
    requires v.Many? && k <= |v.items|
    decreases v, 0, |v.items| - k
  {
    if k == |v.items| then "e"
    else EncodeKey(v.dict, v.items[k].key) + Encode(v.items[k].val) + EncodeItems(v, k + 1)
  }

  function EncodeKey(dict: bool, key: string): string { if dict then EncodeStr(key) else "" }

  /** Lists have no keys, and no string or key is too long for its length to be counted. */
  predicate Proper(v: Value) {
    match v
    case Int(_) => true
    case Str(s) => |s| < TWO_31
    case Many(dict, items) =>
      forall k :: 0 <= k < |items| ==>
        (if dict then |items[k].key| < TWO_63 else items[k].key == "") && Proper(items[k].val)
  }

  /** The value with every integer cut to 64 bits. */
  function Wrapped(v: Value): Value
    decreases v, 1
  {
    match v
    case Int(i) => Int(Wrap64(i))
    case Str(_) => v
    case Many(dict, items) => Many(dict, seq(|items|, k requires 0 <= k < |items| => WrappedItem(items[k])))
  }

  function WrappedItem(item: Item): Item
    decreases item, 0
  {
    Item(item.key, Wrapped(item.val))
  }

  /** All integers have 64 bits. */
  predicate AllFit(v: Value) {
    match v
    case Int(i) => Fits64(i)
    case Str(_) => true
    case Many(_, items) => forall k :: 0 <= k < |items| ==> AllFit(items[k].val)
  }

  /** Cutting changes nothing exactly if all integers fit. */
  lemma {:induction false} WrappedIff(v: Value)
    ensures Wrapped(v) == v <==> AllFit(v)
  {
    if v.Many? {
      var w := Wrapped(v);
      forall k | 0 <= k < |v.items| ensures Wrapped(v.items[k].val) == v.items[k].val <==> AllFit(v.items[k].val) {
        WrappedIff(v.items[k].val);
      }
      assert forall k :: 0 <= k < |v.items| ==> w.items[k] == WrappedItem(v.items[k]);
      if AllFit(v) { assert w.items == v.items; }
    }
  }

  /** The number of values in a value, from item k on. */
  function Count(v: Value): (n: nat)
    ensures n > 0
    decreases v, 1
  {
    if v.Many? then 1 + CountItems(v, 0) else 1
  }

  function CountItems(v: Value, k: nat): nat
    requires v.Many? && k <= |v.items|
    decreases v, 0, |v.items| - k
  {
    if k == |v.items| then 0 else Count(v.items[k].val) + CountItems(v, k + 1)
  }

  /** How deep lists and dictionaries are nested. */
  function Depth(v: Value): nat
    decreases v, 1
  {
    if v.Many? then 1 + DepthItems(v, 0) else 0
  }

  function DepthItems(v: Value, k: nat): nat
    requires v.Many? && k <= |v.items|
    decreases v, 0, |v.items| - k
  {
    if k == |v.items| then 0 else
    var d, e := Depth(v.items[k].val), DepthItems(v, k + 1);
    if d > e then d else e
  }

  // ---------------------------------------------------------------- entries

  /** What the decoder keeps: where the text of an integer or string lies; for a list or dictionary the array of
      its slots, its capacity, and how often it has been moved to a larger one. */
  datatype Entry =
    | NoEntry
    | IntEntry(start: nat, len: nat)
    | StrEntry(start: nat, len: nat)
    | Node(dict: bool, begin: nat, slots: seq<Slot>, capacity: nat, moves: nat, extent: nat)

  datatype Slot = Slot(name: nat, val: Entry)

  function NumDigits(n: nat): (k: nat)
    ensures k > 0
  {
    if n < 10 then 1 else 1 + NumDigits(n / 10)
  }

  /** Where the encoding of an entry begins, as the decoder notes it. */
  function Begin(e: Entry): int {
    match e
    case NoEntry => 0
    case IntEntry(start, _) => start - 1
    case StrEntry(start, len) => start - 1 - (if len < TWO_31 then NumDigits(len) else 1)
    case Node(_, begin, _, _, _, _) => begin
  }

  /** The number that the digits from pos on form, up to a delimiter or the end, in 64 bits; or up to what is no
      digit. */
  datatype Num = NoNum(val: int) | Num(pos: nat, val: int)

  function ParseInt(text: string, pos: nat, end: nat, delimiter: char, val: int): (r: Num)
    requires pos <= end <= |text|
    ensures r.Num? ==> pos <= r.pos <= end && (r.pos < end ==> text[r.pos] == delimiter)
    decreases end - pos
  {
    if pos == end || text[pos] == delimiter then Num(pos, val)
    else if !IsDigit(text[pos]) then NoNum(val)
    else ParseInt(text, pos + 1, end, delimiter, Wrap64(val * 10 + Digit(text[pos])))
  }

  /** The value of an integer entry: of its digits up to the first character that is none. */
  function IntValue(text: string, start: nat, len: nat): int
    requires start + len <= |text|
  {
    var negative := start < |text| && text[start] == '-';
    if negative && len == 0 then 0 else
    var r := ParseInt(text, if negative then start + 1 else start, start + len, 'e', 0);
    if negative then Wrap64(-r.val) else r.val
  }

  function Sub(text: string, a: int, b: int): string { if 0 <= a <= b <= |text| then text[a..b] else "" }

  /** The value that an entry stands for; a key is what lies between its start and its value. */
  function ToValue(text: string, e: Entry): Value
    decreases e, 1
  {
    match e
    case NoEntry => Str("")
    case IntEntry(start, len) => Int(if start + len <= |text| then IntValue(text, start, len) else 0)
    case StrEntry(start, len) => Str(Sub(text, start, start + len))
    case Node(dict, _, _, _, _, _) => Many(dict, ToItems(text, e, 0))
  }

  function ToItems(text: string, e: Entry, k: nat): seq<Item>
    requires e.Node? && k <= |e.slots|
    decreases e, 0, |e.slots| - k
  {
    if k == |e.slots| then [] else [ToItem(text, e.dict, e.slots[k])] + ToItems(text, e, k + 1)
  }

  function ToItem(text: string, dict: bool, s: Slot): Item
    decreases s, 0
  {
    Item(if dict then Sub(text, s.name, Begin(s.val)) else "", ToValue(text, s.val))
  }

  // ---------------------------------------------------------------- numbers

  lemma {:induction false} DecimalDigits(n: nat, i: nat)
    requires i < |Decimal(n)|
    ensures IsDigit(Decimal(n)[i])
  {
    if n >= 10 && i < |Decimal(n / 10)| { DecimalDigits(n / 10, i); }
  }

  lemma {:induction false} DecimalLength(n: nat)
    ensures |Decimal(n)| == NumDigits(n)
  {
    if n >= 10 { DecimalLength(n / 10); }
  }

  lemma ModShift(x: int, k: int, m: int)
    requires m > 0
    ensures (x + k * m) % m == x % m
  {
    BitArith.DivUnique(x + k * m, m, x / m + k, x % m);
  }

  /** Cutting early or late is the same. */
  lemma WrapStep(a: int, d: int)
    ensures Wrap64(Wrap64(a) * 10 + d) == Wrap64(a * 10 + d)
  {
    var q := (a + TWO_63) / TWO_64;
    assert Wrap64(a) == a - q * TWO_64;
    assert Wrap64(a) * 10 + d + TWO_63 == (a * 10 + d + TWO_63) + (-10 * q) * TWO_64;
    ModShift(a * 10 + d + TWO_63, -10 * q, TWO_64);
  }

  lemma WrapNegative(a: int)
    ensures Wrap64(-Wrap64(a)) == Wrap64(-a)
  {
    var q := (a + TWO_63) / TWO_64;
    assert -Wrap64(a) + TWO_63 == (-a + TWO_63) + q * TWO_64;
    ModShift(-a + TWO_63, q, TWO_64);
  }

  /** Reading the digits of n, however far one has got. */
  lemma {:induction false} ParseDecimal(text: string, pos: nat, end: nat, delimiter: char, n: nat, k: nat)
    requires pos + |Decimal(n)| <= end <= |text| && text[pos..pos + |Decimal(n)|] == Decimal(n) && !IsDigit(delimiter)
    requires k == |Decimal(n)|
    ensures ParseInt(text, pos, end, delimiter, 0) == ParseInt(text, pos + k, end, delimiter, Wrap64(n))
  {
    var d := Decimal(n);
    assert text[pos] == d[0];
    if n >= 10 {
      var m := Decimal(n / 10);
      assert text[pos..pos + |m|] == text[pos..pos + k][..|m|] == m;
      ParseDecimal(text, pos, end, delimiter, n / 10, |m|);
      assert text[pos + |m|] == d[|m|];
      WrapStep(n / 10, n % 10);
    }
  }
}
