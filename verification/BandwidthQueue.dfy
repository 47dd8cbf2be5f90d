/** What a tick does to the queue of bandwidth requests, as functions of the queue. */
module BandwidthQueue {
  import opened BandwidthShares

  // ---------------------------------------------------------------- peers that left

  /** The requests of the peers that are still there, and those of the peers that are gone. */
  function Kept(q: seq<Request>, gone: set<nat>): seq<Request> {
    if q == [] then [] else
    var r := q[|q| - 1];
    if r.peer in gone then Kept(q[..|q| - 1], gone) else Kept(q[..|q| - 1], gone) + [r]
  }

  function Dropped(q: seq<Request>, gone: set<nat>): seq<Request> {
    if q == [] then [] else
    var r := q[|q| - 1];
    if r.peer in gone then Dropped(q[..|q| - 1], gone) + [r] else Dropped(q[..|q| - 1], gone)
  }

  // ---------------------------------------------------------------- granting shares

  function Grant(t: Round, r: Request): Request { r.(got := r.got + Share(t, r), ttl := r.ttl - 1) }

  /** A request leaves the queue when it has all it wants, or when it is overdue and has something. */
  predicate Complete(r: Request) { r.got == r.size || (r.ttl <= 0 && r.got > 0) }

  function Served(t: Round, q: seq<Request>): seq<Request> {
    if q == [] then [] else
    var r := Grant(t, q[|q| - 1]);
    if Complete(r) then Served(t, q[..|q| - 1]) + [r] else Served(t, q[..|q| - 1])
  }

  function Left(t: Round, q: seq<Request>): seq<Request> {
    if q == [] then [] else
    var r := Grant(t, q[|q| - 1]);
    if Complete(r) then Left(t, q[..|q| - 1]) else Left(t, q[..|q| - 1]) + [r]
  }

  // ---------------------------------------------------------------- what is conserved

  function CountPeer(q: seq<Request>, peer: nat): nat {
    if q == [] then 0 else CountPeer(q[..|q| - 1], peer) + if q[|q| - 1].peer == peer then 1 else 0
  }

  lemma Last(q: seq<Request>, r: Request)
    ensures (q + [r])[..|q|] == q && (q + [r])[|q|] == r && |q + [r]| == |q| + 1
  {}

  /** Adding a request at the end. */
  lemma Append(q: seq<Request>, r: Request, c: Channel, f: Request -> int, peer: nat)
    ensures Total(q + [r], c, f) == Total(q, c, f) + Paid(r.channels, c, f(r))
    ensures Outstanding(q + [r]) == Outstanding(q) + r.size - r.got
    ensures CountPeer(q + [r], peer) == CountPeer(q, peer) + if r.peer == peer then 1 else 0
    ensures AllWaiting(q + [r]) <==> AllWaiting(q) && Waiting(r)
    ensures Uses(q + [r], c) <==> Uses(q, c) || c in r.channels
  {
    Last(q, r);
  }

  /** A new request waits, like those before it. */
  lemma Joined(q: seq<Request>, q': seq<Request>, r: Request)
    requires AllWaiting(q) && Waiting(r) && q' == q + [r]
    ensures true == AllWaiting(q') && Outstanding(q') == Outstanding(q) + r.size - r.got
  {
    Last(q, r);
  }

  /** Dropping the requests of some peers splits the queue. */
  lemma {:induction false} DropSplits(q: seq<Request>, gone: set<nat>, c: Channel, f: Request -> int, peer: nat)
    ensures Total(q, c, f) == Total(Kept(q, gone), c, f) + Total(Dropped(q, gone), c, f)
    ensures Outstanding(q) == Outstanding(Kept(q, gone)) + Outstanding(Dropped(q, gone))
    ensures CountPeer(q, peer) == CountPeer(Kept(q, gone), peer) + CountPeer(Dropped(q, gone), peer)
    ensures AllWaiting(q) ==> AllWaiting(Kept(q, gone))
    ensures if peer in gone then CountPeer(Kept(q, gone), peer) == 0 else CountPeer(Dropped(q, gone), peer) == 0
  {
    if q != [] {
      var m, r := q[..|q| - 1], q[|q| - 1];
      DropSplits(m, gone, c, f, peer);
      if r.peer in gone { Append(Dropped(m, gone), r, c, f, peer); } else { Append(Kept(m, gone), r, c, f, peer); }
    }
  }

  /** A grant leaves a waiting request waiting, or completes it with something it asked for. */
  lemma GrantKeeps(t: Round, r: Request)
    requires Waiting(r)
    ensures var g := Grant(t, r);
      0 <= Share(t, r) && g.got <= g.size && (if Complete(g) then 0 < g.got else Waiting(g))
  {
    LeastIsLeast(t, r.channels, r.priority, r.size - r.got);
  }

  /** Granting moves requests out of the queue; what they hold grows by what they are given. */
  lemma GrantSplits(t: Round, q: seq<Request>, c: Channel, peer: nat)
    requires AllWaiting(q)
    ensures Total(q, c, Got) + Total(q, c, Shares(t)) == Total(Left(t, q), c, Got) + Total(Served(t, q), c, Got)
    ensures CountPeer(q, peer) == CountPeer(Left(t, q), peer) + CountPeer(Served(t, q), peer)
    ensures AllWaiting(Left(t, q))
  {
    GrantTotals(t, q, c);
    GrantCounts(t, q, peer);
    GrantWaits(t, q);
  }

  lemma {:induction false} GrantTotals(t: Round, q: seq<Request>, c: Channel)
    ensures Total(q, c, Got) + Total(q, c, Shares(t)) == Total(Left(t, q), c, Got) + Total(Served(t, q), c, Got)
  {
    if q != [] {
      var m, r := q[..|q| - 1], q[|q| - 1];
      GrantTotals(t, m, c);
      GrantPaid(t, r, c);
      if Complete(Grant(t, r)) { Append(Served(t, m), Grant(t, r), c, Got, 0); }
      else { Append(Left(t, m), Grant(t, r), c, Got, 0); }
    }
  }

  lemma GrantPaid(t: Round, r: Request, c: Channel)
    ensures Paid(r.channels, c, Got(r)) + Paid(r.channels, c, Shares(t)(r))
      == Paid(Grant(t, r).channels, c, Got(Grant(t, r)))
  {
    PaidAdds(r.channels, c, r.got, Share(t, r));
  }

  lemma {:induction false} GrantCounts(t: Round, q: seq<Request>, peer: nat)
    ensures CountPeer(q, peer) == CountPeer(Left(t, q), peer) + CountPeer(Served(t, q), peer)
  {
    if q != [] {
      var m, g := q[..|q| - 1], Grant(t, q[|q| - 1]);
      GrantCounts(t, m, peer);
      if Complete(g) { Last(Served(t, m), g); } else { Last(Left(t, m), g); }
    }
  }

  lemma {:induction false} GrantWaits(t: Round, q: seq<Request>)
    requires AllWaiting(q)
    ensures AllWaiting(Left(t, q))
  {
    if q != [] {
      var m, r := q[..|q| - 1], q[|q| - 1];
      GrantWaits(t, m);
      GrantKeeps(t, r);
      Last(Left(t, m), Grant(t, r));
    }
  }

  /** Every request that is served gets something, and no more than it asked for. */
  lemma {:induction false} ServedRight(t: Round, q: seq<Request>, i: nat)
    requires AllWaiting(q) && i < |Served(t, q)|
    ensures 0 < Served(t, q)[i].got <= Served(t, q)[i].size
  {
    var m, r := q[..|q| - 1], q[|q| - 1];
    GrantKeeps(t, r);
    if i < |Served(t, m)| { ServedRight(t, m, i); }
  }

  // ---------------------------------------------------------------- which requests, and in which order

  /** Positions below n, in order. */
  predicate Rising(s: seq<nat>, n: nat) {
    (forall i :: 0 <= i < |s| ==> s[i] < n) && (forall i, j :: 0 <= i < j < |s| ==> s[i] < s[j])
  }

  /** The requests r stand at these positions of q. */
  predicate Picked(q: seq<Request>, r: seq<Request>, at: seq<nat>) {
    |at| == |r| && Rising(at, |q|) && forall i :: 0 <= i < |r| ==> r[i] == q[at[i]]
  }

  lemma PickedMore(q: seq<Request>, r: seq<Request>, at: seq<nat>, last: Request)
    requires Picked(q, r, at)
    ensures true == Picked(q + [last], r, at) && true == Picked(q + [last], r + [last], at + [|q|])
  {}

  /** Exactly the requests of peers that are gone are dropped; the others stay as they are and in their order. */
  lemma {:induction false} KeptExact(q: seq<Request>, gone: set<nat>) returns (kept: seq<nat>, dropped: seq<nat>)
    ensures |kept| + |dropped| == |q|
    ensures true == Picked(q, Kept(q, gone), kept) && true == Picked(q, Dropped(q, gone), dropped)
    ensures forall r :: r in Kept(q, gone) ==> r.peer !in gone
    ensures forall r :: r in Dropped(q, gone) ==> r.peer in gone
  {
    kept, dropped := [], [];
    if q != [] {
      var m, r := q[..|q| - 1], q[|q| - 1];
      kept, dropped := KeptExact(m, gone);
      PickedMore(m, Kept(m, gone), kept, r);
      PickedMore(m, Dropped(m, gone), dropped, r);
      assert q == m + [r];
      if r.peer in gone { dropped := dropped + [|m|]; } else { kept := kept + [|m|]; }
    }
  }

  /** Each request gets its share and has a tick less to wait. Exactly those that then have all they want, or have
      something and no tick left, are served; the others stay in their order. */
  lemma {:induction false} RoundExact(t: Round, q: seq<Request>) returns (left: seq<nat>, served: seq<nat>)
    ensures |left| == |Left(t, q)| && |served| == |Served(t, q)| && |left| + |served| == |q|
    ensures Rising(left, |q|) && Rising(served, |q|)
    ensures forall i :: 0 <= i < |left| ==>
      var r, g := q[left[i]], Left(t, q)[i];
      && g == Request(r.peer, r.priority, r.got + Share(t, r), r.size, r.ttl - 1, r.channels)
      && g.got != g.size && (g.ttl > 0 || g.got <= 0)
    ensures forall i :: 0 <= i < |served| ==>
      var r, g := q[served[i]], Served(t, q)[i];
      && g == Request(r.peer, r.priority, r.got + Share(t, r), r.size, r.ttl - 1, r.channels)
      && (g.got == g.size || (g.ttl <= 0 && g.got > 0))
  {
    left, served := [], [];
    if q != [] {
      left, served := RoundExact(t, q[..|q| - 1]);
      if Complete(Grant(t, q[|q| - 1])) { served := served + [|q| - 1]; } else { left := left + [|q| - 1]; }
    }
  }
}
