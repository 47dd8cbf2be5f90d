/** What the two decoding tables of the inflator hold while they are being filled: a lookup
    table over the first ten bits, and an overflow tree for the rest of longer codes. A ghost map
    gives each inner node of the code tree at depth ten or more its pair of tree slots. */
module InflateTrie {
  import opened BitArith
  import opened CanonicalCodes

  const FAST_BITS: nat := 10
  const FAST_SIZE: nat := 1024
  const MAX_SYMBOLS: nat := 288
  const TREE_SIZE: nat := 576

  type NodeMap = map<Node, nat>

  /** A negative cell refers to the k-th pair of slots of the tree. */
  function Ref(k: nat): int { -(2 * k + 1) }

  function Child(p: Node, b: nat): Node { Node(p.depth + 1, 2 * p.prefix + b) }

  function Parent(p: Node): Node
    requires p.depth > 0
  {
    Node(p.depth - 1, p.prefix / 2)
  }

  /** Where the lookup table keeps the ten-bit string v. */
  function Slot(v: nat): (j: nat)
    ensures j < FAST_SIZE
  {
    ReversedBound(v, FAST_BITS, 0);
    Pow2Values();
    Reversed(v, FAST_BITS)
  }

  ghost predicate NodesOk(sizes: seq<nat>, at: NodeMap) {
    && (forall p :: p in at ==> FAST_BITS <= p.depth && Inner(sizes, p) && at[p] < |at|)
    && (forall p: Node {:trigger Parent(p)} :: p.depth > FAST_BITS && p in at ==> Parent(p) in at)
    && (forall p, q :: p in at && q in at && at[p] == at[q] ==> p == q)
  }

  /** A cell for the bit string c refers to the node c if there is one; otherwise it is empty (0) or
      holds a symbol, and then c is not an inner node. */
  ghost predicate CellOk(sizes: seq<nat>, at: NodeMap, x: int, c: Node) {
    && (c in at ==> x == Ref(at[c]))
    && (x < 0 ==> c in at)
    && (x > 0 ==> c.prefix < EndCode(sizes, c.depth))
  }

  ghost predicate LookOk(sizes: seq<nat>, look: seq<int>, at: NodeMap) {
    |look| == FAST_SIZE
    && forall v: nat :: v < FAST_SIZE ==> CellOk(sizes, at, look[Slot(v)], Node(FAST_BITS, v))
  }

  ghost predicate TreeOk(sizes: seq<nat>, tree: seq<int>, at: NodeMap) {
    && |tree| == TREE_SIZE && 2 * |at| <= TREE_SIZE
    && (forall p, b: nat {:trigger Child(p, b)} :: p in at && b < 2 ==>
          at[p] < |at| && CellOk(sizes, at, tree[2 * at[p] + b], Child(p, b)))
    && (forall k :: 2 * |at| <= k < TREE_SIZE ==> tree[k] == 0)
  }

  ghost predicate TrieOk(sizes: seq<nat>, look: seq<int>, tree: seq<int>, at: NodeMap) {
    NodesOk(sizes, at) && LookOk(sizes, look, at) && TreeOk(sizes, tree, at)
  }

  ghost predicate ShortDone(sizes: seq<nat>, look: seq<int>, s: nat)
    requires Coded(sizes, s) && |look| == FAST_SIZE
  {
    forall j: nat :: j < FAST_SIZE && StartsWith(sizes, j, s) ==> look[j] == sizes[s] * 512 + s
  }

  ghost predicate LongDone(sizes: seq<nat>, tree: seq<int>, at: NodeMap, s: nat)
    requires Coded(sizes, s) && |tree| == TREE_SIZE
  {
    var p := Node(sizes[s] - 1, Code(sizes, s) / 2);
    p in at && 2 * at[p] + 1 < TREE_SIZE && tree[2 * at[p] + Code(sizes, s) % 2] == s
  }

  /** Symbol s can be found in the tables. */
  ghost predicate Done(sizes: seq<nat>, look: seq<int>, tree: seq<int>, at: NodeMap, s: nat)
    requires |look| == FAST_SIZE && |tree| == TREE_SIZE
  {
    Coded(sizes, s) ==>
      if sizes[s] <= FAST_BITS then ShortDone(sizes, look, s) else LongDone(sizes, tree, at, s)
  }

  ghost predicate AllDone(sizes: seq<nat>, look: seq<int>, tree: seq<int>, at: NodeMap, n: nat)
    requires |look| == FAST_SIZE && |tree| == TREE_SIZE
  {
    forall s: nat :: s < n ==> Done(sizes, look, tree, at, s)
  }

  lemma SlotInjective(v: nat, w: nat)
    requires v < FAST_SIZE && w < FAST_SIZE && v != w
    ensures Slot(v) != Slot(w)
  {
    Pow2Values();
    if Slot(v) == Slot(w) { ReversedInjective(v, w, FAST_BITS); }
  }

  lemma RoomBelow(sizes: seq<nat>, nodes: set<Node>, l: nat)
    requires Complete(sizes) && 1 <= l <= MAX_BITS
    requires forall p :: p in nodes ==> l <= p.depth && Inner(sizes, p)
    ensures |nodes| <= |sizes|
  {
    forall p | p in nodes ensures p in InnerFrom(sizes, l) { InnerFromMember(sizes, l, p); }
    SubsetSize(nodes, InnerFrom(sizes, l));
    InnerNodesBounded(sizes, l);
  }

  /** While the code is complete there is always room for another inner node. */
  lemma RoomForNode(sizes: seq<nat>, at: NodeMap, c: Node)
    requires NodesOk(sizes, at) && Complete(sizes) && |sizes| <= MAX_SYMBOLS
    requires c !in at && FAST_BITS <= c.depth && Inner(sizes, c)
    ensures |at| < MAX_SYMBOLS
  {
    RoomBelow(sizes, at.Keys + {c}, FAST_BITS);
    assert |at.Keys + {c}| == |at| + 1;
  }

  lemma {:induction false} SubsetSize(a: set<Node>, b: set<Node>)
    requires a <= b
    ensures |a| <= |b|
  {
    assert b == a + (b - a);
    assert |b| == |a| + |b - a|;
  }

  lemma NodesExtend(sizes: seq<nat>, at: NodeMap, c: Node)
    requires NodesOk(sizes, at) && c !in at && FAST_BITS <= c.depth && Inner(sizes, c)
    requires c.depth > FAST_BITS ==> Parent(c) in at
    ensures NodesOk(sizes, at[c := |at|]) && |at[c := |at|]| == |at| + 1
  {
    assert at[c := |at|].Keys == at.Keys + {c};
  }

  // ---------------------------------------------------------------- a new node in the lookup table

  lemma AddRoot(sizes: seq<nat>, look: seq<int>, tree: seq<int>, at: NodeMap, v: nat)
    requires TrieOk(sizes, look, tree, at) && v < FAST_SIZE && look[Slot(v)] == 0
    requires Inner(sizes, Node(FAST_BITS, v)) && |at| < MAX_SYMBOLS
    ensures TrieOk(sizes, look[Slot(v) := Ref(|at|)], tree, at[Node(FAST_BITS, v) := |at|])
  {
    var c := Node(FAST_BITS, v);
    assert c !in at;
    NodesExtend(sizes, at, c);
    AddRootLook(sizes, look, at, v);
    AddNodeTree(sizes, tree, at, c);
  }

  lemma AddRootLook(sizes: seq<nat>, look: seq<int>, at: NodeMap, v: nat)
    requires LookOk(sizes, look, at) && v < FAST_SIZE && Node(FAST_BITS, v) !in at
    requires Inner(sizes, Node(FAST_BITS, v))
    ensures LookOk(sizes, look[Slot(v) := Ref(|at|)], at[Node(FAST_BITS, v) := |at|])
  {
    var look' := look[Slot(v) := Ref(|at|)];
    var at' := at[Node(FAST_BITS, v) := |at|];
    forall w: nat | w < FAST_SIZE
      ensures CellOk(sizes, at', look'[Slot(w)], Node(FAST_BITS, w))
    {
      assert CellOk(sizes, at, look[Slot(w)], Node(FAST_BITS, w));
      if w != v { SlotInjective(v, w); }
    }
  }

  /** The tree cells keep their meaning when a node that no tree cell stands for is added. */
  lemma AddNodeTree(sizes: seq<nat>, tree: seq<int>, at: NodeMap, c: Node)
    requires NodesOk(sizes, at) && TreeOk(sizes, tree, at) && c !in at && |at| < MAX_SYMBOLS
    requires c.depth == FAST_BITS && Inner(sizes, c)
    ensures TreeOk(sizes, tree, at[c := |at|])
  {
    var at' := at[c := |at|];
    NodesExtend(sizes, at, c);
    forall p, b: nat | p in at' && b < 2
      ensures at'[p] < |at'| && CellOk(sizes, at', tree[2 * at'[p] + b], Child(p, b))
    {
      if p == c {
        EmptyCell(sizes, at, c, b);
        assert tree[2 * |at| + b] == 0;
      } else {
        assert p in at && p.depth >= FAST_BITS;
        OldCell(sizes, tree, at, c, p, b);
      }
    }
  }

  lemma NoChildYet(sizes: seq<nat>, at: NodeMap, c: Node, b: nat)
    requires NodesOk(sizes, at) && c !in at && FAST_BITS <= c.depth && b < 2
    ensures Child(c, b) !in at
  {
    var d := Child(c, b);
    assert Parent(d) == c;
  }

  lemma EmptyCell(sizes: seq<nat>, at: NodeMap, c: Node, b: nat)
    requires NodesOk(sizes, at) && c !in at && FAST_BITS <= c.depth && b < 2
    ensures CellOk(sizes, at[c := |at|], 0, Child(c, b))
  {
    NoChildYet(sizes, at, c, b);
  }

  lemma OldCell(sizes: seq<nat>, tree: seq<int>, at: NodeMap, c: Node, p: Node, b: nat)
    requires NodesOk(sizes, at) && TreeOk(sizes, tree, at) && p in at && b < 2 && Child(p, b) != c
    ensures CellOk(sizes, at[c := |at|], tree[2 * at[p] + b], Child(p, b))
  {
    assert CellOk(sizes, at, tree[2 * at[p] + b], Child(p, b));
  }

  lemma AddRootDone(sizes: seq<nat>, look: seq<int>, tree: seq<int>, at: NodeMap, v: nat, n: nat)
    requires TrieOk(sizes, look, tree, at) && v < FAST_SIZE && look[Slot(v)] == 0
    requires AllDone(sizes, look, tree, at, n) && Node(FAST_BITS, v) !in at
    ensures AllDone(sizes, look[Slot(v) := Ref(|at|)], tree, at[Node(FAST_BITS, v) := |at|], n)
  {
    var look' := look[Slot(v) := Ref(|at|)];
    var at' := at[Node(FAST_BITS, v) := |at|];
    forall s: nat | s < n ensures Done(sizes, look', tree, at', s) {
      assert Done(sizes, look, tree, at, s);
    }
  }

  // ---------------------------------------------------------------- a new node below another one

  lemma AddNode(sizes: seq<nat>, look: seq<int>, tree: seq<int>, at: NodeMap, p: Node, b: nat)
    requires TrieOk(sizes, look, tree, at) && p in at && b < 2 && tree[2 * at[p] + b] == 0
    requires Inner(sizes, Child(p, b)) && |at| < MAX_SYMBOLS
    ensures TrieOk(sizes, look, tree[2 * at[p] + b := Ref(|at|)], at[Child(p, b) := |at|])
  {
    var c := Child(p, b);
    assert CellOk(sizes, at, tree[2 * at[p] + b], c);
    assert Parent(c) == p;
    NodesExtend(sizes, at, c);
    AddNodeLook(sizes, look, at, c);
    AddNodeCell(sizes, tree, at, p, b);
  }

  lemma AddNodeLook(sizes: seq<nat>, look: seq<int>, at: NodeMap, c: Node)
    requires LookOk(sizes, look, at) && c.depth > FAST_BITS && c !in at
    ensures LookOk(sizes, look, at[c := |at|])
  {
    forall w: nat | w < FAST_SIZE
      ensures CellOk(sizes, at[c := |at|], look[Slot(w)], Node(FAST_BITS, w))
    {
      assert CellOk(sizes, at, look[Slot(w)], Node(FAST_BITS, w));
    }
  }

  lemma CellsApart(at: NodeMap, sizes: seq<nat>, p: Node, b: nat, q: Node, e: nat)
    requires NodesOk(sizes, at) && p in at && q in at && b < 2 && e < 2
    requires 2 * at[p] + b == 2 * at[q] + e
    ensures p == q && b == e
  {
    assert at[p] == at[q];
  }

  lemma AddNodeCell(sizes: seq<nat>, tree: seq<int>, at: NodeMap, p: Node, b: nat)
    requires NodesOk(sizes, at) && TreeOk(sizes, tree, at) && p in at && b < 2
    requires Child(p, b) !in at && Inner(sizes, Child(p, b)) && |at| < MAX_SYMBOLS
    ensures TreeOk(sizes, tree[2 * at[p] + b := Ref(|at|)], at[Child(p, b) := |at|])
  {
    var c := Child(p, b);
    var at' := at[c := |at|];
    var tree' := tree[2 * at[p] + b := Ref(|at|)];
    assert at'.Keys == at.Keys + {c};
    forall q, e: nat | q in at' && e < 2
      ensures at'[q] < |at'| && CellOk(sizes, at', tree'[2 * at'[q] + e], Child(q, e))
    {
      if q == c {
        EmptyCell(sizes, at, c, e);
        assert tree'[2 * at'[q] + e] == 0;
      } else {
        assert CellOk(sizes, at, tree[2 * at[q] + e], Child(q, e));
        if 2 * at[q] + e == 2 * at[p] + b {
          CellsApart(at, sizes, q, e, p, b);
        } else {
          assert Child(q, e) != c || (q == p && e == b);
        }
      }
    }
  }

  lemma AddNodeDone(sizes: seq<nat>, look: seq<int>, tree: seq<int>, at: NodeMap, p: Node, b: nat, n: nat)
    requires TrieOk(sizes, look, tree, at) && p in at && b < 2
    requires Inner(sizes, Child(p, b)) && Child(p, b) !in at
    requires AllDone(sizes, look, tree, at, n)
    ensures AllDone(sizes, look, tree[2 * at[p] + b := Ref(|at|)], at[Child(p, b) := |at|], n)
  {
    var at' := at[Child(p, b) := |at|];
    var tree' := tree[2 * at[p] + b := Ref(|at|)];
    forall s: nat | s < n ensures Done(sizes, look, tree', at', s) {
      assert Done(sizes, look, tree, at, s);
      if Coded(sizes, s) && sizes[s] > FAST_BITS {
        var q, e := Node(sizes[s] - 1, Code(sizes, s) / 2), Code(sizes, s) % 2;
        if 2 * at[q] + e == 2 * at[p] + b {
          CellsApart(at, sizes, q, e, p, b);
          CodeRange(sizes, s);
        }
      }
    }
  }

  // ---------------------------------------------------------------- symbols

  lemma SetLeaf(sizes: seq<nat>, look: seq<int>, tree: seq<int>, at: NodeMap, s: nat)
    requires TrieOk(sizes, look, tree, at) && Coded(sizes, s) && sizes[s] > FAST_BITS
    requires Node(sizes[s] - 1, Code(sizes, s) / 2) in at
    ensures var p := Node(sizes[s] - 1, Code(sizes, s) / 2);
            TrieOk(sizes, look, tree[2 * at[p] + Code(sizes, s) % 2 := s], at)
  {
    var p, b := Node(sizes[s] - 1, Code(sizes, s) / 2), Code(sizes, s) % 2;
    var tree' := tree[2 * at[p] + b := s];
    CodeRange(sizes, s);
    assert Child(p, b) == Node(sizes[s], Code(sizes, s));
    forall q, e: nat | q in at && e < 2
      ensures at[q] < |at| && CellOk(sizes, at, tree'[2 * at[q] + e], Child(q, e))
    {
      assert CellOk(sizes, at, tree[2 * at[q] + e], Child(q, e));
      if 2 * at[q] + e == 2 * at[p] + b { CellsApart(at, sizes, q, e, p, b); }
    }
  }

  lemma SetLeafDone(sizes: seq<nat>, look: seq<int>, tree: seq<int>, at: NodeMap, s: nat)
    requires TrieOk(sizes, look, tree, at) && Coded(sizes, s) && sizes[s] > FAST_BITS
    requires Node(sizes[s] - 1, Code(sizes, s) / 2) in at
    requires AllDone(sizes, look, tree, at, s)
    ensures var p := Node(sizes[s] - 1, Code(sizes, s) / 2);
            AllDone(sizes, look, tree[2 * at[p] + Code(sizes, s) % 2 := s], at, s + 1)
  {
    var p, b := Node(sizes[s] - 1, Code(sizes, s) / 2), Code(sizes, s) % 2;
    var tree' := tree[2 * at[p] + b := s];
    forall t: nat | t < s + 1 ensures Done(sizes, look, tree', at, t) {
      if t < s {
        assert Done(sizes, look, tree, at, t);
        if Coded(sizes, t) && sizes[t] > FAST_BITS {
          var q, e := Node(sizes[t] - 1, Code(sizes, t) / 2), Code(sizes, t) % 2;
          if 2 * at[q] + e == 2 * at[p] + b {
            CellsApart(at, sizes, q, e, p, b);
            CodeDistinct(sizes, s, t);
          }
        }
      }
    }
  }

  /** The ten-bit strings that start with a short code lie below the inner nodes. */
  lemma ShortBelow(sizes: seq<nat>, v: nat, s: nat)
    requires Fits(sizes) && Coded(sizes, s) && sizes[s] <= FAST_BITS && v < FAST_SIZE
    requires StartsWith(sizes, Slot(v), s)
    ensures v < EndCode(sizes, FAST_BITS)
  {
    var l := sizes[s];
    Pow2Values();
    ReversedLow(v, FAST_BITS, l);
    PrefixBound(v, FAST_BITS, l);
    CodeRange(sizes, s);
    ReversedInjective(Prefix(v, FAST_BITS, l), Code(sizes, s), l);
    if v >= EndCode(sizes, FAST_BITS) && l < FAST_BITS { LongPrefix(sizes, v, FAST_BITS, l); }
  }

  lemma SetShort(sizes: seq<nat>, look: seq<int>, look': seq<int>, tree: seq<int>, at: NodeMap, s: nat)
    requires TrieOk(sizes, look, tree, at) && Fits(sizes) && Coded(sizes, s)
    requires sizes[s] <= FAST_BITS && |look'| == FAST_SIZE
    requires forall j: nat :: j < FAST_SIZE ==>
      look'[j] == if StartsWith(sizes, j, s) then sizes[s] * 512 + s else look[j]
    ensures LookOk(sizes, look', at)
  {
    forall v: nat | v < FAST_SIZE ensures CellOk(sizes, at, look'[Slot(v)], Node(FAST_BITS, v)) {
      assert CellOk(sizes, at, look[Slot(v)], Node(FAST_BITS, v));
      if StartsWith(sizes, Slot(v), s) { ShortBelow(sizes, v, s); }
    }
  }

  lemma SetShortDone(sizes: seq<nat>, look: seq<int>, look': seq<int>, tree: seq<int>, at: NodeMap, s: nat)
    requires TrieOk(sizes, look, tree, at) && Fits(sizes) && Coded(sizes, s)
    requires sizes[s] <= FAST_BITS && |look'| == FAST_SIZE
    requires AllDone(sizes, look, tree, at, s)
    requires forall j: nat :: j < FAST_SIZE ==>
      look'[j] == if StartsWith(sizes, j, s) then sizes[s] * 512 + s else look[j]
    ensures AllDone(sizes, look', tree, at, s + 1)
  {
    forall t: nat | t < s + 1 ensures Done(sizes, look', tree, at, t) {
      if t < s {
        assert Done(sizes, look, tree, at, t);
        if Coded(sizes, t) && sizes[t] <= FAST_BITS {
          forall j: nat | j < FAST_SIZE && StartsWith(sizes, j, t)
            ensures look'[j] == sizes[t] * 512 + t
          {
            if StartsWith(sizes, j, s) { StartsWithUnique(sizes, j, s, t); }
          }
        }
      }
    }
  }

  // ---------------------------------------------------------------- the steps of the table builder

  /** The tables hold the first n symbols. */
  ghost predicate TablesHold(sizes: seq<nat>, look: seq<int>, tree: seq<int>, at: NodeMap, n: nat) {
    && |look| == FAST_SIZE && |tree| == TREE_SIZE
    && Fits(sizes) && |sizes| <= MAX_SYMBOLS && n <= |sizes|
    && TrieOk(sizes, look, tree, at) && AllDone(sizes, look, tree, at, n)
  }

  /** Another n inner nodes find free pairs of slots. */
  ghost predicate Room(sizes: seq<nat>, at: NodeMap, n: nat) {
    Complete(sizes) || |at| + n <= MAX_SYMBOLS
  }

  /** The lookup cell for the first ten bits of a long code refers to their node or is free. */
  lemma RootCell(sizes: seq<nat>, look: seq<int>, tree: seq<int>, at: NodeMap, n: nat, v: nat)
    requires TablesHold(sizes, look, tree, at, n) && v < FAST_SIZE && Inner(sizes, Node(FAST_BITS, v))
    ensures look[Slot(v)] != 0 ==> Node(FAST_BITS, v) in at && look[Slot(v)] == Ref(at[Node(FAST_BITS, v)])
    ensures look[Slot(v)] == 0 && Room(sizes, at, 1) ==>
      && |at[Node(FAST_BITS, v) := |at|]| == |at| + 1
      && TablesHold(sizes, look[Slot(v) := Ref(|at|)], tree, at[Node(FAST_BITS, v) := |at|], n)
  {
    var c := Node(FAST_BITS, v);
    assert CellOk(sizes, at, look[Slot(v)], c);
    if look[Slot(v)] == 0 && Room(sizes, at, 1) {
      if Complete(sizes) { RoomForNode(sizes, at, c); }
      NodesExtend(sizes, at, c);
      AddRoot(sizes, look, tree, at, v);
      AddRootDone(sizes, look, tree, at, v, n);
    }
  }

  /** Likewise for the tree cell below a node of a long code. */
  lemma NodeCell(sizes: seq<nat>, look: seq<int>, tree: seq<int>, at: NodeMap, n: nat, p: Node, b: nat)
    requires TablesHold(sizes, look, tree, at, n) && p in at && b < 2 && Inner(sizes, Child(p, b))
    ensures at[p] < |at| && 2 * |at| <= TREE_SIZE
    ensures var x := tree[2 * at[p] + b];
      && (x != 0 ==> Child(p, b) in at && x == Ref(at[Child(p, b)]))
      && (x == 0 && Room(sizes, at, 1) ==>
        && |at[Child(p, b) := |at|]| == |at| + 1
        && TablesHold(sizes, look, tree[2 * at[p] + b := Ref(|at|)], at[Child(p, b) := |at|], n))
  {
    var c := Child(p, b);
    assert CellOk(sizes, at, tree[2 * at[p] + b], c);
    if tree[2 * at[p] + b] == 0 && Room(sizes, at, 1) {
      if Complete(sizes) { RoomForNode(sizes, at, c); }
      assert Parent(c) == p;
      NodesExtend(sizes, at, c);
      AddNode(sizes, look, tree, at, p, b);
      AddNodeDone(sizes, look, tree, at, p, b, n);
    }
  }

  lemma LeafCell(sizes: seq<nat>, look: seq<int>, tree: seq<int>, at: NodeMap, s: nat, p: Node)
    requires TablesHold(sizes, look, tree, at, s) && Coded(sizes, s) && sizes[s] > FAST_BITS
    requires p == Node(sizes[s] - 1, Code(sizes, s) / 2) && p in at
    ensures 2 * at[p] + 1 < TREE_SIZE
    ensures TablesHold(sizes, look, tree[2 * at[p] + Code(sizes, s) % 2 := s], at, s + 1)
  {
    SetLeaf(sizes, look, tree, at, s);
    SetLeafDone(sizes, look, tree, at, s);
  }

  lemma ShortCells(sizes: seq<nat>, look: seq<int>, look': seq<int>, tree: seq<int>, at: NodeMap, s: nat)
    requires TablesHold(sizes, look, tree, at, s) && Coded(sizes, s)
    requires sizes[s] <= FAST_BITS && |look'| == FAST_SIZE
    requires forall j: nat :: j < FAST_SIZE ==>
      look'[j] == if j % Pow2(sizes[s]) == StreamCode(sizes, s) then sizes[s] * 512 + s else look[j]
    ensures TablesHold(sizes, look', tree, at, s + 1)
  {
    SetShort(sizes, look, look', tree, at, s);
    SetShortDone(sizes, look, look', tree, at, s);
  }

  lemma SkipUncoded(sizes: seq<nat>, look: seq<int>, tree: seq<int>, at: NodeMap, s: nat)
    requires TablesHold(sizes, look, tree, at, s) && s < |sizes| && sizes[s] == 0
    ensures TablesHold(sizes, look, tree, at, s + 1)
  {}

  lemma EmptyTables(sizes: seq<nat>, look: seq<int>, tree: seq<int>)
    requires Fits(sizes) && |sizes| <= MAX_SYMBOLS && |look| == FAST_SIZE && |tree| == TREE_SIZE
    requires forall j :: 0 <= j < FAST_SIZE ==> look[j] == 0
    requires forall j :: 0 <= j < TREE_SIZE ==> tree[j] == 0
    ensures TablesHold(sizes, look, tree, map[], 0)
  {}

  // ---------------------------------------------------------------- reading the tables

  /** The ancestors of a stored node are stored. */
  lemma {:induction false} AncestorStored(sizes: seq<nat>, at: NodeMap, v: nat, n: nat, d: nat)
    requires NodesOk(sizes, at) && FAST_BITS <= d <= n && Node(n, v) in at
    ensures Node(d, Prefix(v, n, d)) in at
    decreases n - d
  {
    if d < n {
      AncestorStored(sizes, at, v, n, d + 1);
      assert Parent(Node(d + 1, Prefix(v, n, d + 1))) == Node(d, Prefix(v, n, d));
    }
  }

  lemma LongPath(sizes: seq<nat>, look: seq<int>, tree: seq<int>, at: NodeMap, s: nat, d: nat)
    requires TrieOk(sizes, look, tree, at) && Done(sizes, look, tree, at, s)
    requires Coded(sizes, s) && FAST_BITS <= d < sizes[s]
    ensures Node(d, Prefix(Code(sizes, s), sizes[s], d)) in at
  {
    var c, n := Code(sizes, s), sizes[s];
    assert Prefix(c, n, n - 1) == c / 2;
    AncestorStored(sizes, at, c / 2, n - 1, d);
    PrefixPrefix(c, n, n - 1, d);
  }

  /** Following bit d of a long code from its d-bit prefix reaches the next prefix, or the symbol. */
  lemma LongStep(sizes: seq<nat>, look: seq<int>, tree: seq<int>, at: NodeMap, s: nat, d: nat)
    requires TrieOk(sizes, look, tree, at) && Done(sizes, look, tree, at, s)
    requires Coded(sizes, s) && FAST_BITS <= d < sizes[s]
    ensures Node(d, Prefix(Code(sizes, s), sizes[s], d)) in at
    ensures var x := tree[2 * at[Node(d, Prefix(Code(sizes, s), sizes[s], d))] + Bit(Code(sizes, s), sizes[s], d)];
            if d + 1 == sizes[s] then x == s
            else Node(d + 1, Prefix(Code(sizes, s), sizes[s], d + 1)) in at
                 && x == Ref(at[Node(d + 1, Prefix(Code(sizes, s), sizes[s], d + 1))])
  {
    var c, n := Code(sizes, s), sizes[s];
    LongPath(sizes, look, tree, at, s, d);
    var p, b := Node(d, Prefix(c, n, d)), Bit(c, n, d);
    if d + 1 < n {
      LongPath(sizes, look, tree, at, s, d + 1);
      assert Child(p, b) == Node(d + 1, Prefix(c, n, d + 1));
      assert CellOk(sizes, at, tree[2 * at[p] + b], Child(p, b));
    }
  }
}
