/** The decoding tables of the inflator: how a table of code lengths is turned into a ten-bit
    lookup table plus an overflow tree, and how a symbol is read back through them. */
module InflateTables {
  import opened BitArith
  import opened CanonicalCodes
  import opened InflateTrie

  /** The acceptance test of the decoder: a Kraft sum of 1, or at most one symbol in use. */
  predicate Accepted(sizes: seq<nat>)
    requires ValidSizes(sizes)
  {
    KraftSum(sizes, |sizes|) == Pow2(MAX_BITS) || Used(sizes, |sizes|) <= 1
  }

  method CountSizes(sizes: seq<nat>) returns (totals: array<nat>)
    requires ValidSizes(sizes)
    ensures fresh(totals) && totals.Length == 16
    ensures forall l: nat :: l <= MAX_BITS ==> totals[l] == Count(sizes, l)
  {
    totals := new nat[16](_ => 0);
    for i := 0 to |sizes|
      invariant forall l: nat :: l <= MAX_BITS ==> totals[l] == CountBefore(sizes, i, l)
    {
      totals[sizes[i]] := totals[sizes[i]] + 1;
    }
  }

  lemma CountFromSplit(sizes: seq<nat>, l: nat)
    requires 1 <= l <= MAX_BITS
    ensures CountFrom(sizes, l) == Count(sizes, l) + CountFrom(sizes, l + 1)
  {}

  /** The first code of every length, the number of coded symbols and the final running total. */
  method FirstCodes(sizes: seq<nat>, totals: array<nat>) returns (next: array<nat>, used: nat, total: nat)
    requires ValidSizes(sizes) && totals.Length == 16
    requires forall l: nat :: l <= MAX_BITS ==> totals[l] == Count(sizes, l)
    ensures fresh(next) && next.Length == 17
    ensures forall l: nat :: 1 <= l <= MAX_BITS + 1 ==> next[l] == FirstCode(sizes, l)
    ensures used == Used(sizes, |sizes|) && total == 2 * KraftSum(sizes, |sizes|)
  {
    next := new nat[17](_ => 0);
    used, total := 0, 0;
    ghost var low: nat := 1;
    for i := 1 to 16
      invariant forall l: nat :: 1 <= l <= i ==> next[l] == FirstCode(sizes, l)
      invariant total == FirstCode(sizes, i)
      invariant used + CountFrom(sizes, i) == CountFrom(sizes, low)
    {
      CountFromSplit(sizes, i);
      used := used + totals[i];
      total := (total + totals[i]) * 2;
      next[i + 1] := total;
    }
    EndCodeIsKraft(sizes);
    CountFromWhole(sizes, low);
    CountFromUsed(sizes, low, |sizes|);
  }

  /** Reads a code from its most significant end. */
  method ReverseBits(code: nat, n: nat) returns (rev: nat)
    ensures rev == Reversed(code, n)
  {
    rev := 0;
    var cur, l := code, n;
    while l > 0
      invariant 0 <= l <= n && cur == Prefix(code, n, l) && rev == ReversedFrom(code, n, l)
    {
      rev := 2 * rev + cur % 2;
      cur := cur / 2;
      l := l - 1;
    }
  }

  lemma {:induction false} KraftOfFew(sizes: seq<nat>, k: nat)
    requires ValidSizes(sizes) && k <= |sizes|
    ensures KraftSum(sizes, k) <= Used(sizes, k) * Pow2(MAX_BITS - 1)
  {
    if k > 0 {
      KraftOfFew(sizes, k - 1);
      var u, p := Used(sizes, k - 1), Pow2(MAX_BITS - 1);
      assert (u + 1) * p == u * p + p;
      if sizes[k - 1] > 0 { Pow2Monotone(MAX_BITS - sizes[k - 1], MAX_BITS - 1); }
    }
  }

  lemma AcceptedFits(sizes: seq<nat>)
    requires ValidSizes(sizes) && Accepted(sizes)
    ensures Fits(sizes) && (Complete(sizes) || Used(sizes, |sizes|) <= 1)
  {
    EndCodeIsKraft(sizes);
    KraftOfFew(sizes, |sizes|);
    Pow2Monotone(MAX_BITS - 1, MAX_BITS);
  }

  lemma NextMatch(x: nat, j: nat, m: nat, r: nat)
    requires m > 0 && x % m == r && x < j < x + m
    ensures j % m != r
  {
    var q := x / m;
    assert x == q * m + r;
    var p := j / m;
    if j % m == r {
      assert j == p * m + r;
      assert (p + 1 - q) * m == j + m - x && (p - q) * m == j - x;
      if p > q { MulMonotone(1, p - q, m); }
      if p < q { MulMonotone(p - q, 0, m); }
    }
  }

  lemma AddPeriod(x: nat, m: nat)
    requires m > 0
    ensures (x + m) % m == x % m
  {
    DivUnique(x + m, m, x / m + 1, x % m);
  }

  /** `next` holds the next code of each length when the first s symbols have theirs. */
  predicate Numbering(sizes: seq<nat>, next: seq<nat>, s: nat, top: nat) {
    |next| > top && s <= |sizes| &&
    forall l: nat :: 1 <= l <= top ==> next[l] == FirstCode(sizes, l) + CountBefore(sizes, s, l)
  }

  lemma SkipNumber(sizes: seq<nat>, next: seq<nat>, s: nat, top: nat)
    requires Numbering(sizes, next, s, top) && s < |sizes| && sizes[s] == 0
    ensures Numbering(sizes, next, s + 1, top)
  {}

  method TakeCode(sizes: seq<nat>, next: array<nat>, s: nat, ghost top: nat) returns (code: nat)
    requires Coded(sizes, s) && sizes[s] <= top && true == Numbering(sizes, next[..], s, top)
    modifies next
    ensures code == StreamCode(sizes, s) && true == Numbering(sizes, next[..], s + 1, top)
  {
    code := ReverseBits(next[sizes[s]], sizes[s]);
    next[sizes[s]] := next[sizes[s]] + 1;
  }

  /** Writes k to every cell whose index is `start` modulo `step`. */
  method FillEvery(a: array<int>, start: nat, step: nat, k: int)
    requires start < step
    modifies a
    ensures forall i: nat :: i < a.Length ==> a[i] == if i % step == start then k else old(a[i])
  {
    var j := start;
    SmallMod(start, step);
    NoneBefore(start, step);
    while j < a.Length
      invariant j % step == start
      invariant forall i: nat :: i < a.Length && i < j ==> a[i] == if i % step == start then k else old(a[i])
      invariant forall i: nat :: j <= i < a.Length ==> a[i] == old(a[i])
    {
      forall i: nat | j < i < j + step ensures i % step != start { NextMatch(j, i, step, start); }
      AddPeriod(j, step);
      a[j] := k;
      j := j + step;
    }
  }

  lemma NoneBefore(start: nat, step: nat)
    requires start < step
    ensures forall i: nat :: i < start ==> i % step != start
  {
    forall i: nat | i < start ensures i % step != start { SmallMod(i, step); }
  }

  class HuffTable {
    const lookUp: array<int>
    const tree: array<int>
    var sizes: seq<nat>
    ghost var at: NodeMap

    constructor ()
      ensures fresh(lookUp) && fresh(tree) && Allocated()
    {
      lookUp := new int[FAST_SIZE];
      tree := new int[TREE_SIZE];
      sizes, at := [], map[];
    }

    ghost predicate Allocated() reads this {
      lookUp.Length == FAST_SIZE && tree.Length == TREE_SIZE && lookUp != tree
    }

    /** The tables hold the first n symbols of `sizes`. */
    ghost predicate Holds(n: nat)
      reads this, lookUp, tree
    {
      Allocated() && TablesHold(sizes, lookUp[..], tree[..], at, n)
    }

    /** The tables hold every symbol of an accepted table of code lengths. */
    ghost predicate Ready()
      reads this, lookUp, tree
    {
      Holds(|sizes|) && ValidSizes(sizes) && Accepted(sizes)
    }

    /** A short code: every lookup cell whose low bits are the code gets length and symbol. */
    method InsertShort(s: nat, code: nat)
      requires true == Holds(s) && Coded(sizes, s) && sizes[s] <= FAST_BITS && code == StreamCode(sizes, s)
      modifies lookUp
      ensures true == Holds(s + 1)
    {
      ghost var before := lookUp[..];
      ReversedBound(Code(sizes, s), sizes[s], 0);
      FillEvery(lookUp, code, Pow2(sizes[s]), sizes[s] * 512 + s);
      ShortCells(sizes, before, lookUp[..], tree[..], at, s);
    }

    /** The first ten bits of a long code lead from the lookup table to a pair of tree slots. */
    method EnterTree(ghost s: nat, code: nat, next: int) returns (cur: int, next': int)
      requires true == Holds(s) && Coded(sizes, s) && sizes[s] > FAST_BITS && code == StreamCode(sizes, s)
      requires next == Ref(|at|) && Room(sizes, at, 1)
      modifies lookUp, this`at
      ensures true == Holds(s) && next' == Ref(|at|) && |old(at)| <= |at| <= |old(at)| + 1
      ensures true == OnPath(s, FAST_BITS, cur)
    {
      ghost var v := Prefix(Code(sizes, s), sizes[s], FAST_BITS);
      var j := code % FAST_SIZE;
      assert j == Slot(v) && v < FAST_SIZE && Inner(sizes, Node(FAST_BITS, v)) by {
        RootSlot(sizes, s);
      }
      cur, next' := lookUp[j], next;
      RootCell(sizes, lookUp[..], tree[..], at, s, v);
      if cur == 0 {
        ghost var look := lookUp[..][j := next];
        lookUp[j] := next;
        assert lookUp[..] == look;
        at := at[Node(FAST_BITS, v) := |at|];
        cur, next' := next, next - 2;
      }
    }

    /** One more bit of a long code that is not its last. */
    method Descend(ghost s: nat, ghost d: nat, bit: nat, from: int, next: int) returns (cur: int, next': int)
      requires true == Holds(s) && Coded(sizes, s) && FAST_BITS <= d && d + 1 < sizes[s]
      requires bit == Bit(Code(sizes, s), sizes[s], d)
      requires true == OnPath(s, d, from)
      requires next == Ref(|at|) && Room(sizes, at, 1)
      modifies tree, this`at
      ensures true == Holds(s) && next' == Ref(|at|) && |old(at)| <= |at| <= |old(at)| + 1
      ensures true == OnPath(s, d + 1, cur)
    {
      ghost var p := Node(d, Prefix(Code(sizes, s), sizes[s], d));
      ghost var c := Node(d + 1, Prefix(Code(sizes, s), sizes[s], d + 1));
      assert Child(p, bit) == c;
      PrefixIsInner(sizes, s, d + 1);
      NodeCell(sizes, lookUp[..], tree[..], at, s, p, bit);
      var slot := -(from - bit) - 1;
      cur, next' := tree[slot], next;
      if cur == 0 {
        ghost var tree' := tree[..][slot := next];
        tree[slot] := next;
        assert tree[..] == tree';
        at := at[c := |at|];
        cur, next' := next, next - 2;
      }
    }

    method PutLeaf(s: nat, bit: nat, from: int)
      requires true == Holds(s) && Coded(sizes, s) && sizes[s] > FAST_BITS && true == OnPath(s, sizes[s] - 1, from)
      requires bit == Bit(Code(sizes, s), sizes[s], sizes[s] - 1)
      modifies tree
      ensures true == Holds(s + 1)
    {
      assert Prefix(Code(sizes, s), sizes[s], sizes[s] - 1) == Code(sizes, s) / 2;
      LeafCell(sizes, lookUp[..], tree[..], at, s, Node(sizes[s] - 1, Code(sizes, s) / 2));
      var slot := -(from - bit) - 1;
      ghost var tree' := tree[..][slot := s];
      tree[slot] := s;
      assert tree[..] == tree';
    }

    /** `cur` refers to the node of the first d bits of the code of s. */
    ghost predicate OnPath(s: nat, d: nat, cur: int)
      reads this
    {
      Coded(sizes, s) && FAST_BITS <= d < sizes[s]
      && var p := Node(d, Prefix(Code(sizes, s), sizes[s], d));
      p in at && cur == Ref(at[p])
    }

    /** The bits of a long code between the tenth and the last. */
    method WalkDown(s: nat, rev: nat, from: int, next: int) returns (bit: nat, cur: int, next': int)
      requires true == Holds(s) && true == OnPath(s, FAST_BITS, from) && next == Ref(|at|)
      requires rev == ReversedFrom(Code(sizes, s), sizes[s], 9) && Room(sizes, at, sizes[s] - FAST_BITS - 1)
      modifies tree, this`at
      ensures true == Holds(s) && true == OnPath(s, sizes[s] - 1, cur) && next' == Ref(|at|)
      ensures bit == Bit(Code(sizes, s), sizes[s], sizes[s] - 1)
      ensures |at| <= |old(at)| + sizes[s] - FAST_BITS - 1
    {
      cur, next' := from, next;
      var rev', j := rev, sizes[s];
      ghost var c, n := Code(sizes, s), sizes[s];
      while j > FAST_BITS + 1
        invariant FAST_BITS + 1 <= j <= n && sizes == old(sizes) && true == Holds(s) && next' == Ref(|at|)
        invariant rev' == ReversedFrom(c, n, 9 + n - j) && true == OnPath(s, FAST_BITS + n - j, cur)
        invariant |at| <= |old(at)| + n - j
      {
        ReversedHalf(c, n, 9 + n - j);
        ReversedHalf(c, n, FAST_BITS + n - j);
        rev' := rev' / 2;
        cur, next' := Descend(s, FAST_BITS + n - j, rev' % 2, cur, next');
        j := j - 1;
      }
      ReversedHalf(c, n, n - 2);
      ReversedHalf(c, n, n - 1);
      bit := rev' / 2 % 2;
    }

    /** A long code: the path of its bits beyond the tenth, then the symbol. */
    method InsertLong(s: nat, code: nat, next: int) returns (next': int)
      requires true == Holds(s) && Coded(sizes, s) && sizes[s] > FAST_BITS && code == StreamCode(sizes, s)
      requires next == Ref(|at|) && Room(sizes, at, sizes[s] - FAST_BITS)
      modifies lookUp, tree, this`at
      ensures true == Holds(s + 1) && next' == Ref(|at|) && |at| <= |old(at)| + sizes[s] - FAST_BITS
    {
      assert code / 512 == ReversedFrom(Code(sizes, s), sizes[s], 9) by {
        ReversedShift(Code(sizes, s), sizes[s], 9);
        Pow2Values();
      }
      var cur, bit;
      cur, next' := EnterTree(s, code, next);
      bit, cur, next' := WalkDown(s, code / 512, cur, next');
      PutLeaf(s, bit, cur);
    }

    /** Fills both tables from a table of code lengths. */
    method Build(codeSize: seq<nat>) returns (ok: bool)
      requires Allocated() && ValidSizes(codeSize) && |codeSize| <= MAX_SYMBOLS
      modifies this, lookUp, tree
      ensures Allocated() && sizes == codeSize
      ensures ok <==> Accepted(codeSize)
      ensures ok ==> Ready()
    {
      sizes, at := codeSize, map[];
      forall j | 0 <= j < lookUp.Length { lookUp[j] := 0; }
      forall j | 0 <= j < tree.Length { tree[j] := 0; }
      var totals := CountSizes(codeSize);
      var next, used, total := FirstCodes(codeSize, totals);
      Pow2Values();
      if total != 65536 && used > 1 {
        return false;
      }
      ok := true;
      AcceptedFits(codeSize);
      EmptyTables(sizes, lookUp[..], tree[..]);
      assert Numbering(sizes, next[..], 0, MAX_BITS);
      assert Inserting(0, next[..], -1);
      InsertAll(next);
    }

    /** The first s symbols have been inserted; the codes of the others are known. */
    ghost predicate Inserting(s: nat, next: seq<nat>, treeNext: int)
      reads this, lookUp, tree
    {
      && s <= |sizes| && ValidSizes(sizes) && Holds(s) && treeNext == Ref(|at|)
      && Numbering(sizes, next, s, MAX_BITS) && Budget(sizes, at, s)
    }

    method InsertAll(next: array<nat>)
      requires true == Inserting(0, next[..], -1)
      modifies next, lookUp, tree, this`at
      ensures Holds(|sizes|)
    {
      var treeNext := -1;
      var n := |sizes|;
      for s := 0 to n
        invariant n == |sizes| && true == Inserting(s, next[..], treeNext)
      {
        treeNext := InsertNext(s, next, treeNext);
      }
    }

    method InsertNext(s: nat, next: array<nat>, treeNext: int) returns (treeNext': int)
      requires s < |sizes| && true == Inserting(s, next[..], treeNext)
      modifies next, lookUp, tree, this`at
      ensures true == Inserting(s + 1, next[..], treeNext')
    {
      treeNext' := treeNext;
      if sizes[s] == 0 {
        SkipUncoded(sizes, lookUp[..], tree[..], at, s);
        SkipNumber(sizes, next[..], s, MAX_BITS);
      } else {
        BudgetLeft(sizes, at, s);
        ghost var at0 := at;
        var code := TakeCode(sizes, next, s, MAX_BITS);
        treeNext' := Insert(s, code, treeNext);
        BudgetSpent(sizes, at0, at, s);
      }
    }

    method Insert(s: nat, code: nat, next: int) returns (next': int)
      requires true == Holds(s) && Coded(sizes, s) && code == StreamCode(sizes, s)
      requires next == Ref(|at|) && Room(sizes, at, 5)
      modifies lookUp, tree, this`at
      ensures true == Holds(s + 1) && next' == Ref(|at|) && |at| <= |old(at)| + 5
    {
      next' := next;
      if sizes[s] <= FAST_BITS {
        InsertShort(s, code);
      } else {
        next' := InsertLong(s, code, next);
      }
    }
  }

  /** A table that is not complete has one symbol, and that needs at most five inner nodes. */
  ghost predicate Budget(sizes: seq<nat>, at: NodeMap, s: nat)
    requires s <= |sizes|
  {
    Complete(sizes) || (|at| <= 5 * Used(sizes, s) && Used(sizes, |sizes|) <= 1)
  }

  lemma BudgetLeft(sizes: seq<nat>, at: NodeMap, s: nat)
    requires s < |sizes| && sizes[s] != 0 && Budget(sizes, at, s)
    ensures Room(sizes, at, 5)
  {
    if !Complete(sizes) { UsedMonotone(sizes, s + 1, |sizes|); }
  }

  lemma BudgetSpent(sizes: seq<nat>, at: NodeMap, at': NodeMap, s: nat)
    requires s < |sizes| && sizes[s] != 0 && Budget(sizes, at, s) && |at'| <= |at| + 5
    ensures Budget(sizes, at', s + 1)
  {}

  lemma {:induction false} UsedMonotone(sizes: seq<nat>, j: nat, k: nat)
    requires j <= k <= |sizes|
    ensures Used(sizes, j) <= Used(sizes, k)
  {
    if j < k { UsedMonotone(sizes, j, k - 1); }
  }

  lemma SmallMod(x: nat, m: nat)
    requires x < m
    ensures x % m == x
  {}

  lemma RootSlot(sizes: seq<nat>, s: nat)
    requires Fits(sizes) && Coded(sizes, s) && sizes[s] > FAST_BITS
    ensures var v := Prefix(Code(sizes, s), sizes[s], FAST_BITS);
            v < FAST_SIZE && StreamCode(sizes, s) % FAST_SIZE == Slot(v) && Inner(sizes, Node(FAST_BITS, v))
  {
    Pow2Values();
    PrefixIsInner(sizes, s, FAST_BITS);
    ReversedLow(Code(sizes, s), sizes[s], FAST_BITS);
  }
}
