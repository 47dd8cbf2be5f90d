/** When decoding fails for its limits: exactly if a value is nested too deep or holds too many values. */
module BencodeLimits {
  import opened Bencode
  import opened BencodeSteps
  import opened BencodeRoundTrip

  /** The encoding of v stands at the current position. */
  predicate ValueAt(text: string, st: State, v: Value) {
    st.stack != [] && st.pos >= 0 && At(text, st.pos, Encode(v)) && Proper(v)
  }

  /** The node on top holds the first k items of v, and the others stand at the current position. */
  predicate ItemsAt(text: string, st: State, v: Value, k: nat) {
    && st.stack != [] && st.pos >= 0 && v.Many? && k <= |v.items| && Holds(text, Top(st), v, k) && Proper(v)
    && At(text, st.pos, EncodeItems(v, k)) && Top(st).begin < st.pos
  }

  /** The value at the current position is not decoded. */
  predicate Fails(text: string, st: State, depthLimit: int) {
    && st.stack != [] && 0 <= st.pos < |text|
    && (BeginValue(text, st).Failed? || Run(text, BeginValue(text, st).st, depthLimit).Failed?)
  }

  lemma {:induction false} ValueFails(text: string, st: State, v: Value, depthLimit: int)
    requires true == ValueAt(text, st, v) && |st.stack| <= depthLimit + 1
    requires st.items <= Count(v) || |st.stack| + Depth(v) > depthLimit + 1
    ensures true == Fails(text, st, depthLimit)
    decreases v, 1
  {
    NotEnd(v);
    AtFirst(text, st.pos, Encode(v));
    if st.items > 1 {
      var s := NodeBegun(text, st, v);
      if |s.stack| > depthLimit {
        TooDeep(text, s, depthLimit);
      } else {
        ItemsFail(text, s, v, 0, depthLimit);
      }
    }
  }

  /** A list or dictionary is begun without a look at the depth. */
  lemma NodeBegun(text: string, st: State, v: Value) returns (s: State)
    requires true == ValueAt(text, st, v) && st.items > 1 && v.Many?
    ensures st.pos < |text| && BeginValue(text, st) == Ok(s) && s.stack != [] && |s.stack| == |st.stack|
    ensures true == ItemsAt(text, s, v, 0) && s.items == st.items - 1 && 0 <= s.pos < |text|
  {
    var first := if v.dict then "d" else "l";
    assert Encode(v) == first + EncodeItems(v, 0);
    AtParts(text, st.pos, first, EncodeItems(v, 0));
    AtFirst(text, st.pos, first);
    EncodeItemsSome(v, 0);
    s := BeginValue(text, st).st;
  }

  lemma TooDeep(text: string, st: State, depthLimit: int)
    requires st.stack != [] && 0 <= st.pos < |text| && |st.stack| > depthLimit
    ensures Run(text, st, depthLimit) == Failed(DepthExceeded)
  {}

  lemma {:induction false} ItemsFail(text: string, st: State, v: Value, k: nat, depthLimit: int)
    requires true == ItemsAt(text, st, v, k) && |st.stack| <= depthLimit && st.items > 0
    requires st.items <= CountItems(v, k) || |st.stack| + DepthItems(v, k) > depthLimit
    ensures Run(text, st, depthLimit).Failed?
    decreases v, 0, if v.Many? then |v.items| - k else 0
  {
    var s, name, pos, items := ItemAt(text, st, v, k);
    var val := v.items[k].val;
    ItemSizes(v, k);
    if st.items > Count(val) && |st.stack| + Depth(val) <= depthLimit {
      ItemReady(text, st, v, k, depthLimit, name, s.pos, s, pos, items);
      var e := ValueParsed(text, s, val, depthLimit, pos, items);
      var next := NextItem(text, st, v, k, depthLimit, name, s, e, pos, items);
      ItemsFail(text, next, v, k + 1, depthLimit);
    } else {
      ValueFails(text, s, val, depthLimit);
      ItemFails(text, st, v, k, depthLimit, name, s, pos, items);
    }
  }

  /** The next item is entered, whatever the limits. */
  lemma ItemAt(text: string, st: State, v: Value, k: nat) returns (s: State, name: nat, pos: nat, items: int)
    requires true == ItemsAt(text, st, v, k) && k < |v.items|
    ensures true == InItem(text, st, v, k, name, s, pos, items) && true == ValueAt(text, s, v.items[k].val)
    ensures s.items == st.items && |s.stack| == |st.stack| + 1
  {
    var at := st.pos + |EncodeKey(v.dict, v.items[k].key)|;
    name := if v.dict then at - |v.items[k].key| else 0;
    s := Push(st, name).(pos := at);
    pos, items := at + |Encode(v.items[k].val)|, st.items - Count(v.items[k].val);
    ItemInside(text, st, v, k, name, at, s, pos, items);
    ItemSizes(v, k);
  }

  /** An item has been decoded, and the next one comes. */
  lemma NextItem(text: string, st: State, v: Value, k: nat, depthLimit: int, name: nat, s: State, val: Entry, pos: nat,
    items: int) returns (next: State)
    requires true == ItemsAt(text, st, v, k) && k < |v.items| && |st.stack| <= depthLimit
    requires true == InItem(text, st, v, k, name, s, pos, items)
    requires true == ValueDone(text, s, v.items[k].val, depthLimit, pos, items, val)
    ensures true == ItemsAt(text, next, v, k + 1) && Run(text, st, depthLimit) == Run(text, next, depthLimit)
    ensures |next.stack| == |st.stack| && next.items == items
  {
    var node := Filled(Appended(Top(st), name), val);
    next := SetTop(st.(pos := pos, items := items), node);
    PushPlaced(st, name, val, pos, items, s.pos);
    StepInto(text, st, depthLimit, s);
    HoldsMore(text, Top(st), v, k, name, val);
  }

  lemma ItemFails(text: string, st: State, v: Value, k: nat, depthLimit: int, name: nat, s: State, pos: nat, items: int)
    requires v.Many? && k < |v.items| && |st.stack| <= depthLimit && true == Fails(text, s, depthLimit)
    requires true == InItem(text, st, v, k, name, s, pos, items)
    ensures Run(text, st, depthLimit).Failed?
  {
    assert Step(text, st, depthLimit) == BeginValue(text, s);
    if BeginValue(text, s).Ok? { RunStep(text, st, depthLimit, BeginValue(text, s).st); }
  }

  /** An encoded value is decoded exactly if the limits allow it: lists and dictionaries are not nested deeper than the
      one, and there are fewer values than the other. */
  lemma DecodedIff(v: Value, rest: string, depthLimit: int, itemLimit: int)
    requires Proper(v)
    ensures Run(Encode(v) + rest, Start(itemLimit), depthLimit).Ok?
      <==> depthLimit >= 1 && depthLimit >= Depth(v) && itemLimit > Count(v)
  {
    var text, st := Encode(v) + rest, Start(itemLimit);
    if depthLimit >= 1 && depthLimit >= Depth(v) && itemLimit > Count(v) {
      var root := Decoded(v, rest, depthLimit, itemLimit);
    } else {
      assert text[..|Encode(v)|] == Encode(v);
      NotEnd(v);
      AtFirst(text, 0, Encode(v));
      if depthLimit >= 1 {
        ValueFails(text, st, v, depthLimit);
        FirstFails(text, st, depthLimit);
      } else {
        TooDeep(text, st, depthLimit);
      }
    }
  }

  lemma FirstFails(text: string, st: State, depthLimit: int)
    requires true == Fails(text, st, depthLimit) && |st.stack| <= depthLimit && !Top(st).Node? && st.pos + 1 < |text|
    ensures Run(text, st, depthLimit).Failed?
  {
    assert Step(text, st, depthLimit) == BeginValue(text, st);
    if BeginValue(text, st).Ok? { RunStep(text, st, depthLimit, BeginValue(text, st).st); }
  }
}
