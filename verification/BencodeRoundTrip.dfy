/** Decoding what was encoded gives back the same value. */
module BencodeRoundTrip {
  import opened Bencode
  import opened BencodeSteps

  /** The text s stands at pos. */
  predicate At(text: string, pos: nat, s: string) { pos + |s| <= |text| && text[pos..pos + |s|] == s }

  lemma AtParts(text: string, pos: nat, a: string, b: string)
    requires At(text, pos, a + b)
    ensures At(text, pos, a) && At(text, pos + |a|, b)
  {
    var t := text[pos..pos + |a + b|];
    assert text[pos..pos + |a|] == t[..|a|] && text[pos + |a|..pos + |a| + |b|] == t[|a|..];
  }

  lemma AtFirst(text: string, pos: nat, s: string)
    requires At(text, pos, s) && s != []
    ensures pos < |text| && text[pos] == s[0]
  {
    assert text[pos..pos + |s|][0] == text[pos];
  }

  /** The value of the top entry is e; it is done, and the text behind it comes next. */
  function Placed(st: State, e: Entry, pos: nat, items: int): State
    requires st.stack != []
  {
    Pop(SetTop(st.(pos := pos, items := items), e))
  }

  // ---------------------------------------------------------------- numbers and strings

  /** A length and a colon are read as written, but for what 64 bits cut off. */
  lemma LengthRead(text: string, pos: nat, n: nat)
    requires At(text, pos, Decimal(n) + ":")
    ensures pos < |text| && IsDigit(text[pos])
    ensures ParseInt(text, pos + 1, |text|, ':', Digit(text[pos])) == Num(pos + |Decimal(n)|, Wrap64(n))
  {
    var d := Decimal(n);
    AtParts(text, pos, d, ":");
    AtFirst(text, pos, d);
    AtFirst(text, pos + |d|, ":");
    DigitsRead(text, pos, n, |d|, Wrap64(n));
  }

  lemma DigitsRead(text: string, pos: nat, n: nat, k: nat, val: int)
    requires k == |Decimal(n)| && pos + k < |text| && text[pos..pos + k] == Decimal(n) && text[pos + k] == ':'
    requires IsDigit(text[pos]) && val == Wrap64(n)
    ensures ParseInt(text, pos + 1, |text|, ':', Digit(text[pos])) == Num(pos + k, val)
  {
    ParseDecimal(text, pos, |text|, ':', n, k);
    FirstDigit(text, pos, |text|, ':');
    AtDelimiter(text, pos + k, val);
  }

  lemma AtDelimiter(text: string, q: nat, val: int)
    requires q < |text| && text[q] == ':'
    ensures ParseInt(text, q, |text|, ':', val) == Num(q, val)
  {}

  lemma FirstDigit(text: string, pos: nat, end: nat, delimiter: char)
    requires pos < end <= |text| && IsDigit(text[pos]) && !IsDigit(delimiter)
    ensures ParseInt(text, pos, end, delimiter, 0) == ParseInt(text, pos + 1, end, delimiter, Digit(text[pos]))
  {
    WrapSmall(Digit(text[pos]));
  }

  lemma WrapSmall(x: int)
    requires 0 <= x < TWO_63
    ensures Wrap64(x) == x
  {}

  lemma LengthKept(n: nat)
    requires n < TWO_31
    ensures Wrap64(n) == n && n % TWO_32 == n
  {}

  /** A string whose length has been read, however it was written. */
  lemma StrBegun(text: string, st: State, q: nat, n: int, end: int, e: Entry)
    requires st.stack != [] && 0 <= st.pos < |text| && st.items > 1 && IsDigit(text[st.pos])
    requires ParseInt(text, st.pos + 1, |text|, ':', Digit(text[st.pos])) == Num(q, n) && q < |text|
    requires end == q + 1 + n <= |text| && e == StrEntry(q + 1, n % TWO_32)
    ensures BeginValue(text, st) == Ok(Pop(SetTop(st.(pos := end, items := st.items - 1), e)))
  {
    var t, s := text[st.pos], st.(pos := st.pos + 1, items := st.items - 1);
    assert BeginValue(text, st) == StrFrom(text, s, t);
    assert s.(pos := end) == st.(pos := end, items := st.items - 1);
  }

  lemma StrParsed(text: string, st: State, s: string, end: nat, left: int) returns (e: Entry)
    requires st.stack != [] && st.pos >= 0 && At(text, st.pos, EncodeStr(s)) && st.items > 1 && |s| < TWO_31
    requires end == st.pos + |EncodeStr(s)| && left == st.items - 1
    ensures st.pos < |text| && BeginValue(text, st) == Ok(Placed(st, e, end, left))
    ensures ToValue(text, e) == Str(s) && Begin(e) == st.pos
  {
    var d := Decimal(|s|);
    AtParts(text, st.pos, d + ":", s);
    LengthRead(text, st.pos, |s|);
    DecimalLength(|s|);
    LengthKept(|s|);
    e := StrEntry(st.pos + |d| + 1, |s|);
    StrBegun(text, st, st.pos + |d|, |s|, end, e);
  }

  lemma IntParsed(text: string, st: State, i: int, end: nat, left: int) returns (e: Entry)
    requires st.stack != [] && st.pos >= 0 && At(text, st.pos, "i" + EncodeInt(i) + "e") && st.items > 1
    requires end == st.pos + |"i" + EncodeInt(i) + "e"| && left == st.items - 1
    ensures st.pos < |text| && BeginValue(text, st) == Ok(Placed(st, e, end, left))
    ensures ToValue(text, e) == Int(Wrap64(i)) && Begin(e) == st.pos
  {
    var d := EncodeInt(i);
    AtParts(text, st.pos, "i" + d, "e");
    AtParts(text, st.pos, "i", d);
    AtFirst(text, st.pos, "i");
    var p := st.pos + 1;
    AtFirst(text, p + |d|, "e");
    NoE(text, p, i);
    FindAt(text, p, 'e', p + |d|);
    IntRead(text, p, i);
    e := IntEntry(p, |d|);
    IntBegun(text, st, p + |d|, end, e);
  }

  lemma IntBegun(text: string, st: State, q: nat, end: nat, e: Entry)
    requires st.stack != [] && 0 <= st.pos < |text| && st.items > 1 && text[st.pos] == 'i'
    requires FindChar(text, st.pos + 1, 'e') == q < |text| && end == q + 1 && e == IntEntry(st.pos + 1, q - st.pos - 1)
    ensures BeginValue(text, st) == Ok(Pop(SetTop(st.(pos := end, items := st.items - 1), e)))
  {
    var s := st.(pos := st.pos + 1, items := st.items - 1);
    BeginsInt(text, st, s);
    IntFromAt(text, s, q, end, e);
  }

  lemma BeginsInt(text: string, st: State, s: State)
    requires st.stack != [] && 0 <= st.pos < |text| && st.items > 1 && text[st.pos] == 'i'
    requires s == st.(pos := st.pos + 1, items := st.items - 1)
    ensures BeginValue(text, st) == IntFrom(text, s)
  {}

  lemma IntFromAt(text: string, s: State, q: nat, end: nat, e: Entry)
    requires s.stack != [] && 0 <= s.pos <= |text|
    requires FindChar(text, s.pos, 'e') == q < |text| && end == q + 1 && e == IntEntry(s.pos, q - s.pos)
    ensures IntFrom(text, s) == Ok(Pop(SetTop(s.(pos := end), e)))
  {}

  /** The digits of an integer hold no 'e'. */
  lemma NoE(text: string, pos: nat, i: int)
    requires At(text, pos, EncodeInt(i))
    ensures forall k :: pos <= k < pos + |EncodeInt(i)| ==> text[k] != 'e'
  {
    var d := EncodeInt(i);
    forall k | pos <= k < pos + |d| ensures text[k] != 'e' {
      assert text[k] == text[pos..pos + |d|][k - pos] == d[k - pos];
      if i >= 0 { DecimalDigits(i, k - pos); } else if k > pos { DecimalDigits(-i, k - pos - 1); }
    }
  }

  lemma {:induction false} FindAt(text: string, pos: nat, c: char, q: nat)
    requires pos <= q < |text| && text[q] == c && forall k :: pos <= k < q ==> text[k] != c
    ensures FindChar(text, pos, c) == q
    decreases q - pos
  {
    if pos < q { FindAt(text, pos + 1, c, q); }
  }

  lemma IntRead(text: string, pos: nat, i: int)
    requires At(text, pos, EncodeInt(i)) && pos + |EncodeInt(i)| < |text|
    ensures IntValue(text, pos, |EncodeInt(i)|) == Wrap64(i)
  {
    var d := EncodeInt(i);
    AtFirst(text, pos, d);
    if i < 0 {
      AtParts(text, pos, "-", Decimal(-i));
      WrapNegative(-i);
      ParseDecimal(text, pos + 1, pos + |d|, 'e', -i, |Decimal(-i)|);
    } else {
      ParseDecimal(text, pos, pos + |d|, 'e', i, |Decimal(i)|);
    }
  }

  // ---------------------------------------------------------------- lists and dictionaries

  /** The node holds the first k items of v. */
  predicate Holds(text: string, e: Entry, v: Value, k: nat)
    requires v.Many?
  {
    && e.Node? && e.dict == v.dict && |e.slots| == k <= |v.items|
    && forall j :: 0 <= j < k ==> ToItem(text, e.dict, e.slots[j]) == WrappedItem(v.items[j])
  }

  lemma {:induction false} HoldsAll(text: string, e: Entry, v: Value, k: nat)
    requires v.Many? && Holds(text, e, v, |v.items|) && k <= |v.items|
    ensures ToItems(text, e, k) == Wrapped(v).items[k..]
    decreases |v.items| - k
  {
    if k < |v.items| {
      HoldsAll(text, e, v, k + 1);
      var w := Wrapped(v).items;
      assert w[k..] == [w[k]] + w[k + 1..];
    }
  }

  /** A node whose last slot has been filled. */
  lemma HoldsMore(text: string, e: Entry, v: Value, k: nat, name: nat, val: Entry)
    requires v.Many? && Holds(text, e, v, k) && k < |v.items|
    requires ToItem(text, e.dict, Slot(name, val)) == WrappedItem(v.items[k])
    ensures Holds(text, Filled(Appended(e, name), val), v, k + 1)
  {
    var f := Filled(Appended(e, name), val);
    assert f.slots == e.slots + [Slot(name, val)];
  }

  /** Pushing a slot, placing its value: the node on top has grown. */
  lemma PushPlaced(st: State, name: nat, val: Entry, pos: nat, items: int, at: nat)
    requires st.stack != [] && Top(st).Node?
    ensures var s := Push(st, name).(pos := at);
      Placed(s, val, pos, items) == SetTop(st.(pos := pos, items := items), Filled(Appended(Top(st), name), val))
  {
    var s := Push(st, name).(pos := at);
    var n := |st.stack|;
    assert s.stack[..n - 1] == st.stack[..n - 1];
    var a, b := Placed(s, val, pos, items).stack,
      SetTop(st.(pos := pos, items := items), Filled(Appended(Top(st), name), val)).stack;
    assert |a| == |b| && a[n - 1] == b[n - 1];
    assert a == b;
  }

  lemma RunStep(text: string, st: State, depthLimit: int, next: State)
    requires 0 <= st.pos < |text| && st.stack != [] && Step(text, st, depthLimit) == Ok(next)
    ensures Run(text, st, depthLimit) == Run(text, next, depthLimit)
  {}

  /** The first character of an encoding is not an end. */
  lemma NotEnd(v: Value)
    ensures |Encode(v)| >= 2 && Encode(v)[0] != 'e'
  {
    if v.Many? { assert |EncodeItems(v, 0)| > 0 by { EncodeItemsSome(v, 0); } }
  }

  lemma EncodeItemsSome(v: Value, k: nat)
    requires v.Many? && k <= |v.items|
    ensures |EncodeItems(v, k)| > 0
    decreases |v.items| - k
  {
    if k < |v.items| { EncodeItemsSome(v, k + 1); }
  }

  /** The next item of the list or dictionary on top is entered; its value comes next. */
  lemma ItemEntered(text: string, st: State, v: Value, k: nat, name: nat, at: nat)
    requires st.stack != [] && st.pos >= 0 && v.Many? && k < |v.items| && true == Proper(v)
      && true == Holds(text, Top(st), v, k) && true == At(text, st.pos, EncodeItems(v, k))
    requires at == st.pos + |EncodeKey(v.dict, v.items[k].key)| && name == if v.dict then at - |v.items[k].key| else 0
    ensures true == At(text, at, Encode(v.items[k].val))
    ensures true == At(text, at + |Encode(v.items[k].val)|, EncodeItems(v, k + 1))
    ensures st.pos + 1 < |text| && text[st.pos] != 'e' && at < |text|
    ensures Enter(text, st) == Ok(Push(st, name).(pos := at))
    ensures v.dict ==> Sub(text, name, at) == v.items[k].key
  {
    ItemParts(text, st.pos, v, k, at);
    if v.dict {
      KeyEntered(text, st, v.items[k].key, name, at);
    } else {
      assert EncodeKey(v.dict, v.items[k].key) == "";
    }
  }

  /** Where key, value and the rest of the encoding stand. */
  lemma ItemParts(text: string, pos: nat, v: Value, k: nat, at: nat)
    requires v.Many? && k < |v.items| && true == At(text, pos, EncodeItems(v, k))
    requires at == pos + |EncodeKey(v.dict, v.items[k].key)|
    ensures true == At(text, pos, EncodeKey(v.dict, v.items[k].key)) && true == At(text, at, Encode(v.items[k].val))
    ensures true == At(text, at + |Encode(v.items[k].val)|, EncodeItems(v, k + 1))
    ensures at + 2 <= |text| && text[at] != 'e'
  {
    var key, val, more := EncodeKey(v.dict, v.items[k].key), Encode(v.items[k].val), EncodeItems(v, k + 1);
    assert EncodeItems(v, k) == key + val + more;
    NotEnd(v.items[k].val);
    EncodeItemsSome(v, k + 1);
    AtThree(text, pos, key, val, more, at, at + |val|);
  }

  lemma AtThree(text: string, pos: nat, a: string, b: string, c: string, mid: nat, end: nat)
    requires true == At(text, pos, a + b + c) && mid == pos + |a| && end == mid + |b| && |b| >= 2
    ensures true == At(text, pos, a) && true == At(text, mid, b) && true == At(text, end, c)
    ensures mid + 2 <= |text| && text[mid] == b[0]
  {
    AtParts(text, pos, a + b, c);
    AtParts(text, pos, a, b);
    AtFirst(text, mid, b);
  }

  /** A key with at least two more bytes behind it is read as written. */
  lemma KeyEntered(text: string, st: State, key: string, name: nat, at: nat)
    requires st.stack != [] && st.pos >= 0 && Top(st).Node? && Top(st).dict && |key| < TWO_63
      && At(text, st.pos, EncodeStr(key)) && at + 2 <= |text|
    requires at == st.pos + |EncodeStr(key)| && name == at - |key|
    ensures st.pos < |text| && IsDigit(text[st.pos]) && Enter(text, st) == Ok(Push(st, name).(pos := at))
      && Sub(text, name, at) == key
  {
    AtParts(text, st.pos, Decimal(|key|) + ":", key);
    LengthRead(text, st.pos, |key|);
    WrapSmall(|key|);
  }

  // ---------------------------------------------------------------- values

  /** The encoding of v stands at the current position, and the limits allow for it; it ends at `end`, and
      `left` more items may follow. */
  predicate ValueReady(text: string, st: State, v: Value, depthLimit: int, end: nat, left: int) {
    && st.stack != [] && st.pos >= 0 && At(text, st.pos, Encode(v)) && Proper(v)
    && st.items > Count(v) && |st.stack| + Depth(v) <= depthLimit + 1
    && end == st.pos + |Encode(v)| && left == st.items - Count(v)
  }

  /** The value at the current position has been decoded into e; the run goes on behind it. */
  predicate ValueDone(text: string, st: State, v: Value, depthLimit: int, end: nat, left: int, e: Entry) {
    && st.stack != [] && 0 <= st.pos < |text| && BeginValue(text, st).Ok?
    && Run(text, BeginValue(text, st).st, depthLimit) == Run(text, Placed(st, e, end, left), depthLimit)
    && ToValue(text, e) == Wrapped(v) && Begin(e) == st.pos
  }

  /** The node on top holds the first k items of v, and the others stand at the current position. */
  predicate ItemsReady(text: string, st: State, v: Value, k: nat, depthLimit: int, end: nat, left: int) {
    && st.stack != [] && st.pos >= 0 && v.Many? && k <= |v.items| && Holds(text, Top(st), v, k) && Proper(v)
    && At(text, st.pos, EncodeItems(v, k)) && Top(st).begin < st.pos
    && st.items > CountItems(v, k) && |st.stack| + DepthItems(v, k) <= depthLimit
    && end == st.pos + |EncodeItems(v, k)| && left == st.items - CountItems(v, k)
  }

  predicate ItemsDone(text: string, st: State, v: Value, depthLimit: int, end: nat, left: int, e: Entry) {
    && st.stack != [] && Top(st).Node?
    && Run(text, st, depthLimit) == Run(text, Placed(st, e, end, left), depthLimit)
    && ToValue(text, e) == Wrapped(v) && Begin(e) == Top(st).begin
  }

  lemma {:induction false} ValueParsed(text: string, st: State, v: Value, depthLimit: int, end: nat, left: int)
    returns (e: Entry)
    requires true == ValueReady(text, st, v, depthLimit, end, left)
    ensures true == ValueDone(text, st, v, depthLimit, end, left, e)
    decreases v, 1
  {
    match v
    case Int(i) => e := IntParsed(text, st, i, end, left);
    case Str(s) => e := StrParsed(text, st, s, end, left);
    case Many(_, _) =>
      var s := ManyBegun(text, st, v, depthLimit, end, left);
      e := ItemsParsed(text, s, v, 0, depthLimit, end, left);
      ManyDone(text, st, v, depthLimit, end, left, s, e);
  }

  lemma ManyBegun(text: string, st: State, v: Value, depthLimit: int, end: nat, left: int) returns (s: State)
    requires true == ValueReady(text, st, v, depthLimit, end, left) && v.Many?
    ensures st.stack != [] && 0 <= st.pos < |text| && BeginValue(text, st) == Ok(s)
    ensures s == SetTop(st.(pos := st.pos + 1, items := st.items - 1), Node(v.dict, st.pos, [], 0, 0, 0))
    ensures true == ItemsReady(text, s, v, 0, depthLimit, end, left)
  {
    var head := if v.dict then "d" else "l";
    AtParts(text, st.pos, head, EncodeItems(v, 0));
    AtFirst(text, st.pos, head);
    s := SetTop(st.(pos := st.pos + 1, items := st.items - 1), Node(v.dict, st.pos, [], 0, 0, 0));
  }

  lemma ManyDone(text: string, st: State, v: Value, depthLimit: int, end: nat, left: int, s: State, e: Entry)
    requires st.stack != [] && 0 <= st.pos < |text| && BeginValue(text, st) == Ok(s)
    requires s == SetTop(st.(pos := st.pos + 1, items := st.items - 1), Node(v.Many? && v.dict, st.pos, [], 0, 0, 0))
    requires true == ItemsDone(text, s, v, depthLimit, end, left, e)
    ensures true == ValueDone(text, st, v, depthLimit, end, left, e)
  {
    PlacedOver(st, s, Top(s), e, end, left);
  }

  lemma PlacedOver(st: State, s: State, node: Entry, e: Entry, pos: nat, items: int)
    requires st.stack != [] && s == SetTop(st.(pos := s.pos, items := s.items), node)
    ensures Placed(s, e, pos, items) == Placed(st, e, pos, items)
  {
    var n := |st.stack| - 1;
    assert SetTop(s.(pos := pos, items := items), e).stack == SetTop(st.(pos := pos, items := items), e).stack;
  }

  /** The same for the items from k on of a list or dictionary. */
  lemma {:induction false} ItemsParsed(text: string, st: State, v: Value, k: nat, depthLimit: int, end: nat, left: int)
    returns (e: Entry)
    requires true == ItemsReady(text, st, v, k, depthLimit, end, left)
    ensures true == ItemsDone(text, st, v, depthLimit, end, left, e)
    decreases v, 0, if v.Many? then |v.items| - k else 0
  {
    if k == |v.items| {
      e := EndParsed(text, st, v, k, depthLimit, end, left);
    } else {
      var s, name, pos, items := ItemBegun(text, st, v, k, depthLimit, end, left);
      var val := ValueParsed(text, s, v.items[k].val, depthLimit, pos, items);
      var next := ItemDone(text, st, v, k, depthLimit, end, left, name, s, val, pos, items);
      e := ItemsParsed(text, next, v, k + 1, depthLimit, end, left);
      ItemsJoined(text, st, v, depthLimit, end, left, next, e);
    }
  }

  /** The state in which the value of item k is decoded. */
  predicate InItem(text: string, st: State, v: Value, k: nat, name: nat, s: State, pos: nat, items: int)
    requires v.Many? && k < |v.items|
  {
    && st.stack != [] && 0 <= st.pos && st.pos + 1 < |text| && text[st.pos] != 'e' && Top(st).Node?
    && 0 <= s.pos < |text| && s == Push(st, name).(pos := s.pos) && Enter(text, st) == Ok(s)
    && (v.dict ==> Sub(text, name, s.pos) == v.items[k].key)
    && At(text, pos, EncodeItems(v, k + 1)) && st.pos < pos == s.pos + |Encode(v.items[k].val)|
    && pos + |EncodeItems(v, k + 1)| == st.pos + |EncodeItems(v, k)| && items == st.items - Count(v.items[k].val)
  }

  lemma ItemBegun(text: string, st: State, v: Value, k: nat, depthLimit: int, end: nat, left: int)
    returns (s: State, name: nat, pos: nat, items: int)
    requires true == ItemsReady(text, st, v, k, depthLimit, end, left) && k < |v.items|
    ensures true == ValueReady(text, s, v.items[k].val, depthLimit, pos, items)
    ensures true == InItem(text, st, v, k, name, s, pos, items)
  {
    var at := st.pos + |EncodeKey(v.dict, v.items[k].key)|;
    name := if v.dict then at - |v.items[k].key| else 0;
    s := Push(st, name).(pos := at);
    pos, items := at + |Encode(v.items[k].val)|, st.items - Count(v.items[k].val);
    ItemInside(text, st, v, k, name, at, s, pos, items);
    ItemSizes(v, k);
    ItemReady(text, st, v, k, depthLimit, name, at, s, pos, items);
  }

  lemma ItemInside(text: string, st: State, v: Value, k: nat, name: nat, at: nat, s: State, pos: nat, items: int)
    requires st.stack != [] && st.pos >= 0 && v.Many? && k < |v.items| && true == Proper(v)
      && true == Holds(text, Top(st), v, k) && true == At(text, st.pos, EncodeItems(v, k))
    requires at == st.pos + |EncodeKey(v.dict, v.items[k].key)| && name == if v.dict then at - |v.items[k].key| else 0
    requires s == Push(st, name).(pos := at)
    requires pos == at + |Encode(v.items[k].val)| && items == st.items - Count(v.items[k].val)
    ensures true == InItem(text, st, v, k, name, s, pos, items) && true == At(text, at, Encode(v.items[k].val))
  {
    ItemSizes(v, k);
    NotEnd(v.items[k].val);
    ItemEntered(text, st, v, k, name, at);
  }

  lemma ItemReady(text: string, st: State, v: Value, k: nat, depthLimit: int, name: nat, at: nat, s: State, pos: nat,
    items: int)
    requires st.stack != [] && v.Many? && k < |v.items| && Top(st).Node? && s == Push(st, name).(pos := at)
    requires true == At(text, at, Encode(v.items[k].val)) && true == Proper(v.items[k].val)
      && st.items > Count(v.items[k].val)
    requires pos == at + |Encode(v.items[k].val)| && items == st.items - Count(v.items[k].val)
    requires |st.stack| + Depth(v.items[k].val) <= depthLimit
    ensures true == ValueReady(text, s, v.items[k].val, depthLimit, pos, items)
  {
    assert |s.stack| == |st.stack| + 1;
  }

  /** What an item and those behind it take. */
  lemma ItemSizes(v: Value, k: nat)
    requires v.Many? && k < |v.items|
    ensures |EncodeItems(v, k)| == |EncodeKey(v.dict, v.items[k].key)| + |Encode(v.items[k].val)|
      + |EncodeItems(v, k + 1)|
    ensures CountItems(v, k) == Count(v.items[k].val) + CountItems(v, k + 1)
    ensures DepthItems(v, k) >= Depth(v.items[k].val) && DepthItems(v, k) >= DepthItems(v, k + 1)
    ensures Proper(v) ==> true == Proper(v.items[k].val)
  {}

  /** An item has been decoded: the node on top holds one more. */
  lemma ItemDone(text: string, st: State, v: Value, k: nat, depthLimit: int, end: nat, left: int, name: nat,
    s: State, val: Entry, pos: nat, items: int)
    returns (next: State)
    requires true == ItemsReady(text, st, v, k, depthLimit, end, left) && k < |v.items|
    requires true == InItem(text, st, v, k, name, s, pos, items)
    requires true == ValueDone(text, s, v.items[k].val, depthLimit, pos, items, val)
    ensures true == ItemsReady(text, next, v, k + 1, depthLimit, end, left)
    ensures Run(text, st, depthLimit) == Run(text, next, depthLimit)
    ensures st.stack != [] && next == SetTop(st.(pos := pos, items := items), Filled(Appended(Top(st), name), val))
  {
    var node := Filled(Appended(Top(st), name), val);
    next := SetTop(st.(pos := pos, items := items), node);
    PushPlaced(st, name, val, pos, items, s.pos);
    StepInto(text, st, depthLimit, s);
    HoldsMore(text, Top(st), v, k, name, val);
    ItemSizes(v, k);
  }

  lemma ItemsJoined(text: string, st: State, v: Value, depthLimit: int, end: nat, left: int, next: State, e: Entry)
    requires st.stack != [] && Top(st).Node? && next.stack != []
      && next == SetTop(st.(pos := next.pos, items := next.items), Top(next))
    requires Top(next).Node? && Top(next).begin == Top(st).begin
      && Run(text, st, depthLimit) == Run(text, next, depthLimit)
    requires true == ItemsDone(text, next, v, depthLimit, end, left, e)
    ensures true == ItemsDone(text, st, v, depthLimit, end, left, e)
  {
    PlacedOver(st, next, Top(next), e, end, left);
  }

  /** A round that enters an item. */
  lemma StepInto(text: string, st: State, depthLimit: int, s: State)
    requires st.stack != [] && st.pos >= 0 && Top(st).Node? && st.pos + 1 < |text| && text[st.pos] != 'e'
    requires |st.stack| <= depthLimit && Enter(text, st) == Ok(s)
    requires 0 <= s.pos < |text| && s.stack != [] && BeginValue(text, s).Ok?
    ensures Run(text, st, depthLimit) == Run(text, BeginValue(text, s).st, depthLimit)
  {
    RunStep(text, st, depthLimit, BeginValue(text, s).st);
  }

  /** The end of a list or dictionary that has all its items. */
  lemma EndParsed(text: string, st: State, v: Value, k: nat, depthLimit: int, end: nat, left: int) returns (e: Entry)
    requires true == ItemsReady(text, st, v, k, depthLimit, end, left) && k == |v.items|
    ensures true == ItemsDone(text, st, v, depthLimit, end, left, e)
  {
    AtFirst(text, st.pos, "e");
    e := Top(st).(extent := st.pos + 1 - Top(st).begin);
    RunStep(text, st, depthLimit, Close(st));
    Whole(text, Top(st), v, e);
  }

  lemma Whole(text: string, node: Entry, v: Value, e: Entry)
    requires v.Many? && Holds(text, node, v, |v.items|) && e.Node? && e == node.(extent := e.extent)
    ensures ToValue(text, e) == Wrapped(v)
  {
    assert Holds(text, e, v, |v.items|);
    HoldsAll(text, e, v, 0);
    assert Wrapped(v).items[0..] == Wrapped(v).items;
  }

  /** Decoding an encoded value succeeds if the limits allow it, uses exactly its text, and gives back the value
      with its integers cut to 64 bits, whatever follows. */
  lemma Decoded(v: Value, rest: string, depthLimit: int, itemLimit: int) returns (root: Entry)
    requires Proper(v) && depthLimit >= 1 && depthLimit >= Depth(v) && itemLimit > Count(v)
    ensures Run(Encode(v) + rest, Start(itemLimit), depthLimit)
      == Ok(State(root, [], |Encode(v)|, itemLimit - Count(v)))
    ensures ToValue(Encode(v) + rest, root) == Wrapped(v)
  {
    var text, st := Encode(v) + rest, Start(itemLimit);
    assert text[..|Encode(v)|] == Encode(v);
    NotEnd(v);
    AtFirst(text, 0, Encode(v));
    root := ValueParsed(text, st, v, depthLimit, |Encode(v)|, itemLimit - Count(v));
    RunStep(text, st, depthLimit, BeginValue(text, st).st);
  }

  /** The same value comes back exactly if all its integers have 64 bits. */
  lemma RoundTrip(v: Value, rest: string, depthLimit: int, itemLimit: int) returns (root: Entry)
    requires Proper(v) && depthLimit >= 1 && depthLimit >= Depth(v) && itemLimit > Count(v)
    ensures Run(Encode(v) + rest, Start(itemLimit), depthLimit)
      == Ok(State(root, [], |Encode(v)|, itemLimit - Count(v)))
    ensures ToValue(Encode(v) + rest, root) == v <==> AllFit(v)
  {
    root := Decoded(v, rest, depthLimit, itemLimit);
    WrappedIff(v);
  }

  /** An integer that does not fit comes back as the one with the same low bits: 2^64 as 0. */
  lemma LostInteger(i: int, rest: string, depthLimit: int, itemLimit: int) returns (root: Entry)
    requires depthLimit >= 1 && itemLimit > 1 && !Fits64(i)
    ensures Run(Encode(Int(i)) + rest, Start(itemLimit), depthLimit)
      == Ok(State(root, [], |Encode(Int(i))|, itemLimit - 1))
    ensures ToValue(Encode(Int(i)) + rest, root) == Int(Wrap64(i)) && Wrap64(i) != i && (i == TWO_64 ==> Wrap64(i) == 0)
  {
    var v := Int(i);
    root := Decoded(v, rest, depthLimit, itemLimit);
  }

  /** A length that 64 bits cut to a negative number passes the test of the text's end, and the cursor goes back
      by so much. */
  lemma NegativeLength(n: nat, rest: string, depthLimit: int, itemLimit: int) returns (root: Entry)
    requires Wrap64(n) < 0 && depthLimit >= 1 && itemLimit > 1
    ensures var digits := |Decimal(n)|;
      Run(Decimal(n) + ":" + rest, Start(itemLimit), depthLimit)
        == Ok(State(root, [], digits + 1 + Wrap64(n), itemLimit - 1))
  {
    var text, st := Decimal(n) + ":" + rest, Start(itemLimit);
    assert text[..|Decimal(n) + ":"|] == Decimal(n) + ":";
    LengthRead(text, 0, n);
    root := StrEntry(|Decimal(n)| + 1, Wrap64(n) % TWO_32);
    NotLast(text, n, rest);
    StrBegun(text, st, |Decimal(n)|, Wrap64(n), |Decimal(n)| + 1 + Wrap64(n), root);
    RunStep(text, st, depthLimit, BeginValue(text, st).st);
  }

  /** A length is kept exactly if it has 63 bits and the text is long enough; it moves the cursor back exactly if
      the highest of its low 64 bits is set. */
  lemma LengthIff(n: nat, rest: string, depthLimit: int, itemLimit: int)
    requires depthLimit >= 1 && itemLimit > 1
    ensures var r, behind := Run(Decimal(n) + ":" + rest, Start(itemLimit), depthLimit), |Decimal(n)| + 1;
      && (r.Ok? && r.st.pos == behind + n <==> n < TWO_63 && n <= |rest|)
      && (r.Ok? && r.st.pos < behind <==> n % TWO_64 >= TWO_63)
  {
    var text, st := Decimal(n) + ":" + rest, Start(itemLimit);
    assert text[..|Decimal(n) + ":"|] == Decimal(n) + ":";
    LengthRead(text, 0, n);
    NotLast(text, n, rest);
    WrapSign(n);
    if BeginValue(text, st).Ok? { RunStep(text, st, depthLimit, BeginValue(text, st).st); }
  }

  /** Likewise for the length of a key, if anything stands behind it. */
  lemma KeyLengthIff(text: string, st: State, n: nat)
    requires st.stack != [] && st.pos >= 0 && Top(st).Node? && Top(st).dict && At(text, st.pos, Decimal(n) + ":")
    ensures st.pos < |text|
    ensures var r, behind := Enter(text, st), st.pos + |Decimal(n)| + 1;
      && (r.Ok? && r.st.pos == behind + n <==> n < TWO_63 && behind + n + 2 <= |text|)
      && (r.Ok? && r.st.pos < behind <==> n % TWO_64 >= TWO_63 && behind < |text|)
  {
    LengthRead(text, st.pos, n);
    WrapSign(n);
  }

  lemma WrapSign(n: nat)
    ensures Wrap64(n) < 0 <==> n % TWO_64 >= TWO_63
    ensures Wrap64(n) == n <==> n < TWO_63
    ensures Wrap64(n) <= n
  {}

  lemma NotLast(text: string, n: nat, rest: string)
    requires text == Decimal(n) + ":" + rest
    ensures |text| > 1 && text[0] == Decimal(n)[0]
  {}
}
