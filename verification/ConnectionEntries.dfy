/** The entries of the half-open connection queue, and what one locked section does to them. */
module ConnectionEntries {

  datatype Time = At(t: int) | Never

  predicate Earlier(a: Time, b: Time) {
    a.At? && (b.Never? || a.t < b.t)
  }

  datatype Entry = Entry(ticket: nat, priority: nat, timeout: int, connecting: bool, expires: Time)

  /** Only connecting entries have a time at which they expire. */
  predicate WellTimed(e: Entry) { e.connecting <==> e.expires.At? }

  predicate AllWellTimed(q: seq<Entry>) { q == [] || (WellTimed(q[0]) && AllWellTimed(q[1..])) }

  function CountConnecting(q: seq<Entry>): nat {
    if q == [] then 0 else (if q[0].connecting then 1 else 0) + CountConnecting(q[1..])
  }

  /** The tickets of all entries, and of those that wait to connect. */
  function Tickets(q: seq<Entry>): multiset<nat> {
    if q == [] then multiset{} else multiset{q[0].ticket} + Tickets(q[1..])
  }

  function Idle(q: seq<Entry>): multiset<nat> {
    if q == [] then multiset{} else (if q[0].connecting then multiset{} else multiset{q[0].ticket}) + Idle(q[1..])
  }

  predicate HasIdle(q: seq<Entry>) { q != [] && (!q[0].connecting || HasIdle(q[1..])) }

  lemma {:induction false} Concat(p: seq<Entry>, q: seq<Entry>)
    ensures CountConnecting(p + q) == CountConnecting(p) + CountConnecting(q)
    ensures Tickets(p + q) == Tickets(p) + Tickets(q) && Idle(p + q) == Idle(p) + Idle(q)
  {
    if p == [] {
      assert p + q == q;
    } else {
      assert (p + q)[1..] == p[1..] + q;
      Concat(p[1..], q);
    }
  }

  lemma {:induction false} ConcatFlags(p: seq<Entry>, q: seq<Entry>)
    ensures AllWellTimed(p + q) <==> AllWellTimed(p) && AllWellTimed(q)
    ensures HasIdle(p + q) <==> HasIdle(p) || HasIdle(q)
  {
    if p == [] {
      assert p + q == q;
    } else {
      assert (p + q)[1..] == p[1..] + q;
      ConcatFlags(p[1..], q);
    }
  }

  lemma One(e: Entry)
    ensures CountConnecting([e]) == (if e.connecting then 1 else 0)
    ensures Tickets([e]) == multiset{e.ticket} && Idle([e]) == if e.connecting then multiset{} else multiset{e.ticket}
  {}

  // ---------------------------------------------------------------- connecting

  function Connect(e: Entry, expire: int): Entry { e.(connecting := true, expires := At(expire)) }

  /** The first `slots` idle entries start to connect; the k-th of them reads the clock as clock(k). */
  function Mark(q: seq<Entry>, slots: nat, clock: nat -> int, k: nat): seq<Entry> {
    if q == [] || slots == 0 then q
    else if q[0].connecting then [q[0]] + Mark(q[1..], slots, clock, k)
    else [Connect(q[0], clock(k) + q[0].timeout)] + Mark(q[1..], slots - 1, clock, k + 1)
  }

  /** The tickets of the entries that start to connect, in order. */
  function Marked(q: seq<Entry>, slots: nat): seq<nat> {
    if q == [] || slots == 0 then []
    else if q[0].connecting then Marked(q[1..], slots)
    else [q[0].ticket] + Marked(q[1..], slots - 1)
  }

  /** Every idle entry starts, or every slot is used; nothing else changes. */
  lemma {:induction false} MarkFills(q: seq<Entry>, slots: nat, clock: nat -> int, k: nat)
    ensures var r := Mark(q, slots, clock, k);
      && CountConnecting(r) == CountConnecting(q) + |Marked(q, slots)| && |Marked(q, slots)| <= slots
      && (HasIdle(r) ==> |Marked(q, slots)| == slots) && |r| == |q|
      && Tickets(r) == Tickets(q) && Idle(q) == Idle(r) + multiset(Marked(q, slots))
      && (AllWellTimed(q) ==> AllWellTimed(r))
  {
    if q != [] && slots > 0 {
      var more := if q[0].connecting then slots else slots - 1;
      var k' := if q[0].connecting then k else k + 1;
      var tail := Mark(q[1..], more, clock, k');
      MarkFills(q[1..], more, clock, k');
      var r := Mark(q, slots, clock, k);
      assert r[1..] == tail;
    }
  }

  /** How many idle entries stand before position i. */
  function IdleBefore(q: seq<Entry>, i: nat): nat
    requires i <= |q|
  {
    if i == 0 then 0 else IdleBefore(q, i - 1) + if q[i - 1].connecting then 0 else 1
  }

  lemma {:induction false} IdleBehind(q: seq<Entry>, i: nat)
    requires 0 < i <= |q|
    ensures IdleBefore(q, i) == (if q[0].connecting then 0 else 1) + IdleBefore(q[1..], i - 1)
  {
    if i > 1 { IdleBehind(q, i - 1); }
  }

  /** The idle entries with fewer than `slots` others before them connect, each with the time it reads and its own
      timeout; their tickets come in this order. All others stay as they are. */
  lemma {:induction false} MarkAt(q: seq<Entry>, slots: nat, clock: nat -> int, k: nat, i: nat)
    requires i < |q|
    ensures |Mark(q, slots, clock, k)| == |q|
    ensures Mark(q, slots, clock, k)[i] ==
      if q[i].connecting || IdleBefore(q, i) >= slots then q[i]
      else Entry(q[i].ticket, q[i].priority, q[i].timeout, true, At(clock(k + IdleBefore(q, i)) + q[i].timeout))
    ensures !q[i].connecting && IdleBefore(q, i) < slots ==>
      IdleBefore(q, i) < |Marked(q, slots)| && Marked(q, slots)[IdleBefore(q, i)] == q[i].ticket
  {
    if slots > 0 {
      var more := if q[0].connecting then slots else slots - 1;
      var k' := if q[0].connecting then k else k + 1;
      if i > 0 {
        IdleBehind(q, i);
        MarkAt(q[1..], more, clock, k', i - 1);
      } else if |q| > 1 {
        MarkAt(q[1..], more, clock, k', 0);
      }
    }
  }

  lemma {:induction false} MarkedCount(q: seq<Entry>, slots: nat)
    ensures |Marked(q, slots)| == if IdleBefore(q, |q|) < slots then IdleBefore(q, |q|) else slots
  {
    if q != [] && slots > 0 {
      IdleBehind(q, |q|);
      MarkedCount(q[1..], if q[0].connecting then slots else slots - 1);
    }
  }

  // ---------------------------------------------------------------- timing out

  predicate TimedOut(e: Entry, now: int) { e.connecting && Earlier(e.expires, At(now)) }

  /** The entries that stay, and the tickets of those that have timed out. */
  function Staying(q: seq<Entry>, now: int): seq<Entry> {
    if q == [] then [] else if TimedOut(q[0], now) then Staying(q[1..], now) else [q[0]] + Staying(q[1..], now)
  }

  function Leaving(q: seq<Entry>, now: int): seq<nat> {
    if q == [] then [] else if TimedOut(q[0], now) then [q[0].ticket] + Leaving(q[1..], now) else Leaving(q[1..], now)
  }

  /** Exactly the connecting entries that expire before `now` leave; those that leave and those that stay are found in
      the queue in this order. */
  lemma {:induction false} SweepExact(q: seq<Entry>, now: int) returns (stay: seq<nat>, leave: seq<nat>)
    ensures |stay| == |Staying(q, now)| && |leave| == |Leaving(q, now)| && |stay| + |leave| == |q|
    ensures Rising(stay, |q|) && Rising(leave, |q|)
    ensures forall i :: 0 <= i < |stay| ==>
      var e := q[stay[i]];
      Staying(q, now)[i] == e && !(e.connecting && e.expires.At? && e.expires.t < now)
    ensures forall i :: 0 <= i < |leave| ==>
      var e := q[leave[i]];
      Leaving(q, now)[i] == e.ticket && e.connecting && e.expires.At? && e.expires.t < now
    decreases |q|
  {
    stay, leave := [], [];
    if q != [] {
      var m, e := q[..|q| - 1], q[|q| - 1];
      SweepLast(q, now);
      stay, leave := SweepExact(m, now);
      if TimedOut(e, now) { leave := leave + [|q| - 1]; } else { stay := stay + [|q| - 1]; }
    }
  }

  lemma SweepFields(q: seq<Entry>, now: int)
    ensures |Leaving(q, now)| + |Staying(q, now)| == |q|
    ensures forall k :: k in Leaving(q, now) ==>
      exists e :: e in q && e.ticket == k && e.connecting && e.expires.At? && e.expires.t < now
    ensures forall e :: e in Staying(q, now) ==> e in q && !(e.connecting && e.expires.At? && e.expires.t < now)
  {
    var stay, leave := SweepExact(q, now);
    forall k | k in Leaving(q, now)
      ensures exists e :: e in q && e.ticket == k && e.connecting && e.expires.At? && e.expires.t < now
    {
      var i :| 0 <= i < |leave| && Leaving(q, now)[i] == k;
      assert q[leave[i]] in q;
    }
  }

  predicate Rising(s: seq<nat>, n: nat) {
    (forall i :: 0 <= i < |s| ==> s[i] < n) && (forall i, j :: 0 <= i < j < |s| ==> s[i] < s[j])
  }

  lemma {:induction false} SweepLast(q: seq<Entry>, now: int)
    requires q != []
    ensures var m, e := q[..|q| - 1], q[|q| - 1];
      && Staying(q, now) == Staying(m, now) + (if TimedOut(e, now) then [] else [e])
      && Leaving(q, now) == Leaving(m, now) + (if TimedOut(e, now) then [e.ticket] else [])
  {
    if |q| > 1 {
      SweepLast(q[1..], now);
      var m := q[..|q| - 1];
      assert m[1..] == q[1..][..|q| - 2] && q[1..][|q| - 2] == q[|q| - 1];
    } else {
      assert q[1..] == [] && q[..0] == [];
    }
  }

  /** The earliest expiry among the entries. */
  function NextExpiry(q: seq<Entry>): Time {
    if q == [] then Never else
    var t := NextExpiry(q[1..]);
    if Earlier(t, q[0].expires) then t else q[0].expires
  }

  /** No entry expires before it, and one expires then. */
  lemma {:induction false} NextExpiryIsLeast(q: seq<Entry>)
    ensures forall i :: 0 <= i < |q| ==> !Earlier(q[i].expires, NextExpiry(q))
    ensures NextExpiry(q).At? ==> exists i :: 0 <= i < |q| && q[i].expires == NextExpiry(q)
  {
    if q != [] {
      NextExpiryIsLeast(q[1..]);
      var t := NextExpiry(q[1..]);
      forall i | 0 <= i < |q| ensures !Earlier(q[i].expires, NextExpiry(q)) {
        if i > 0 { assert q[i] == q[1..][i - 1]; }
      }
      if Earlier(t, q[0].expires) {
        var i :| 0 <= i < |q[1..]| && q[1..][i].expires == t;
        assert q[i + 1].expires == NextExpiry(q);
      }
    }
  }

  /** Timing out splits the entries. */
  lemma {:induction false} SweepSplits(q: seq<Entry>, now: int)
    ensures var r := Staying(q, now);
      && CountConnecting(q) == CountConnecting(r) + |Leaving(q, now)|
      && Tickets(q) == Tickets(r) + multiset(Leaving(q, now)) && Idle(q) == Idle(r)
  {
    if q != [] {
      SweepSplits(q[1..], now);
      var tail := Staying(q[1..], now);
      var r := Staying(q, now);
      if !TimedOut(q[0], now) { assert r[1..] == tail; }
    }
  }

  /** If an entry that connects stays, there is a next expiry. */
  lemma {:induction false} SweepFlags(q: seq<Entry>, now: int)
    ensures var r := Staying(q, now);
      && (HasIdle(r) ==> HasIdle(q))
      && (AllWellTimed(q) ==> AllWellTimed(r) && (CountConnecting(r) > 0 ==> NextExpiry(r).At?))
  {
    if q != [] {
      SweepFlags(q[1..], now);
      var tail := Staying(q[1..], now);
      var r := Staying(q, now);
      if !TimedOut(q[0], now) { assert r[1..] == tail; }
    }
  }

  // ---------------------------------------------------------------- removing

  /** The position of a ticket, or the end. */
  function IndexOf(q: seq<Entry>, ticket: nat): (i: nat)
    ensures i <= |q| && (i < |q| ==> q[i].ticket == ticket) && forall j :: 0 <= j < i ==> q[j].ticket != ticket
  {
    if q == [] || q[0].ticket == ticket then 0 else 1 + IndexOf(q[1..], ticket)
  }

  /** The end means that the ticket is not in the queue. */
  lemma {:induction false} IndexOfFinds(q: seq<Entry>, ticket: nat)
    ensures IndexOf(q, ticket) == |q| <==> ticket !in Tickets(q)
  {
    if q != [] { IndexOfFinds(q[1..], ticket); }
  }

  function Without(q: seq<Entry>, i: nat): seq<Entry>
    requires i < |q|
  {
    q[..i] + q[i + 1..]
  }

  lemma Around(q: seq<Entry>, i: nat)
    requires i < |q|
    ensures q == q[..i] + ([q[i]] + q[i + 1..])
  {}

  lemma WithoutParts(q: seq<Entry>, i: nat)
    requires i < |q|
    ensures var r := Without(q, i);
      && CountConnecting(q) == CountConnecting(r) + (if q[i].connecting then 1 else 0)
      && Tickets(q) == Tickets(r) + multiset{q[i].ticket}
      && Idle(q) == Idle(r) + (if q[i].connecting then multiset{} else multiset{q[i].ticket})
  {
    Around(q, i);
    TakenOut(q[..i], q[i], q[i + 1..]);
  }

  lemma TakenOut(a: seq<Entry>, e: Entry, b: seq<Entry>)
    ensures CountConnecting(a + ([e] + b)) == CountConnecting(a + b) + (if e.connecting then 1 else 0)
    ensures Tickets(a + ([e] + b)) == Tickets(a + b) + multiset{e.ticket}
    ensures Idle(a + ([e] + b)) == Idle(a + b) + (if e.connecting then multiset{} else multiset{e.ticket})
  {
    Concat(a, [e] + b);
    Concat([e], b);
    Concat(a, b);
    One(e);
    Reorder(Tickets(a), Tickets([e]), Tickets(b));
    Reorder(Idle(a), Idle([e]), Idle(b));
  }

  lemma Reorder(a: multiset<nat>, x: multiset<nat>, b: multiset<nat>)
    ensures a + (x + b) == a + b + x
  {}

  lemma WithoutFlags(q: seq<Entry>, i: nat)
    requires i < |q|
    ensures var r := Without(q, i); (AllWellTimed(q) ==> AllWellTimed(r)) && (HasIdle(r) ==> HasIdle(q))
  {
    Around(q, i);
    FlagsLeft(q[..i], q[i], q[i + 1..]);
  }

  lemma FlagsLeft(a: seq<Entry>, e: Entry, b: seq<Entry>)
    ensures AllWellTimed(a + ([e] + b)) ==> true == AllWellTimed(a + b)
    ensures HasIdle(a + b) ==> true == HasIdle(a + ([e] + b))
  {
    ConcatFlags(a, [e] + b);
    ConcatFlags([e], b);
    ConcatFlags(a, b);
  }
}
