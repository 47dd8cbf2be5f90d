/** The bandwidth manager: a queue of requests that share channels, and the tick that serves them. */
module BandwidthManager {
  import opened BandwidthShares
  import opened BandwidthQueue

  /** What a limited channel notices of an amount. */
  function Limited(limit: nat, amount: int): int { if limit == 0 then 0 else amount }

  /** All channels that the requests name are among cs. */
  predicate Within(q: seq<Request>, cs: set<Channel>) {
    forall i :: 0 <= i < |q| ==> Names(q[i], cs)
  }

  predicate Names(r: Request, cs: set<Channel>) { forall c :: c in r.channels ==> c in cs }

  /** The channels of a connection that have a limit. */
  function Throttled(chs: seq<Channel?>): (r: seq<Channel>)
    reads set c | c in chs
    ensures forall i :: 0 <= i < |r| ==> r[i] in chs && r[i].limit > 0
    ensures forall i :: 0 <= i < |chs| && chs[i] != null && chs[i].limit > 0 ==> chs[i] in r
  {
    if chs == [] then [] else
    var rest, c := Throttled(chs[..|chs| - 1]), chs[|chs| - 1];
    if c != null && c.limit > 0 then rest + [c] else rest
  }

  method FindThrottled(chs: seq<Channel?>) returns (throttled: seq<Channel>)
    ensures throttled == Throttled(chs)
  {
    throttled := [];
    for i := 0 to |chs|
      invariant throttled == Throttled(chs[..i])
    {
      assert chs[..i + 1][..i] == chs[..i];
      var c := chs[i];
      if c != null && c.limit > 0 { throttled := throttled + [c]; }
    }
    assert chs[..|chs|] == chs;
  }

  lemma Extend(chs: seq<Channel>, j: nat, c: Channel, amount: int)
    requires j < |chs|
    ensures chs[..j + 1] == chs[..j] + [chs[j]]
    ensures Paid(chs[..j + 1], c, amount) == Paid(chs[..j], c, amount) + if chs[j] == c then amount else 0
    ensures c in chs[..j + 1] <==> c in chs[..j] || c == chs[j]
  {
    assert chs[..j + 1][..j] == chs[..j] && chs[..j + 1][j] == chs[j];
  }

  // ---------------------------------------------------------------- loops over the channels of a request

  /** Gives back what a request holds to all its channels. */
  method ReturnAll(r: Request, ghost cs: set<Channel>)
    requires Names(r, cs) && r.got >= 0
    modifies cs`quotaLeft
    ensures forall c :: c in cs ==> c.quotaLeft == old(c.quotaLeft) + Limited(c.limit, Paid(r.channels, c, r.got))
  {
    for j := 0 to |r.channels|
      invariant forall c ::
        c in cs ==> c.quotaLeft == old(c.quotaLeft) + Limited(c.limit, Paid(r.channels[..j], c, r.got))
    {
      forall c | c in cs
        ensures Paid(r.channels[..j + 1], c, r.got)
          == Paid(r.channels[..j], c, r.got) + if r.channels[j] == c then r.got else 0
      {
        Extend(r.channels, j, c, r.got);
      }
      r.channels[j].ReturnQuota(r.got);
    }
    assert r.channels[..|r.channels|] == r.channels;
  }

  /** Charges an amount to all channels of a request. */
  method UseAll(chs: seq<Channel>, amount: nat, ghost cs: set<Channel>)
    requires forall c :: c in chs ==> c in cs
    modifies cs`quotaLeft
    ensures forall c :: c in cs ==> c.quotaLeft == old(c.quotaLeft) - Limited(c.limit, Paid(chs, c, amount))
  {
    for j := 0 to |chs|
      invariant forall c :: c in cs ==> c.quotaLeft == old(c.quotaLeft) - Limited(c.limit, Paid(chs[..j], c, amount))
    {
      forall c | c in cs
        ensures Paid(chs[..j + 1], c, amount) == Paid(chs[..j], c, amount) + if chs[j] == c then amount else 0
      {
        Extend(chs, j, c, amount);
      }
      chs[j].UseQuota(amount);
    }
    assert chs[..|chs|] == chs;
  }

  method ClearWeights(chs: seq<Channel>, ghost cs: set<Channel>)
    requires forall c :: c in chs ==> c in cs
    modifies cs`tmp
    ensures forall c :: c in cs ==> c.tmp == if c in chs then 0 else old(c.tmp)
  {
    for j := 0 to |chs|
      invariant forall c :: c in cs ==> c.tmp == if c in chs[..j] then 0 else old(c.tmp)
    {
      forall c | c in cs ensures c in chs[..j + 1] <==> c in chs[..j] || c == chs[j] { Extend(chs, j, c, 0); }
      chs[j].tmp := 0;
    }
    assert chs[..|chs|] == chs;
  }

  /** Adds a priority to the weights of some channels, and lists those that had none. */
  method AddWeights(chs: seq<Channel>, priority: nat, listed: seq<Channel>, ghost cs: set<Channel>)
    returns (list: seq<Channel>)
    requires priority > 0 && (forall c :: c in chs ==> c in cs) && (forall c :: c in listed ==> c in cs)
    requires Distinct(listed) && forall c :: c in cs && (c in chs || c in listed) ==> (c.tmp > 0 <==> c in listed)
    modifies cs`tmp
    ensures forall c :: c in cs ==> c.tmp == old(c.tmp) + Paid(chs, c, priority)
    ensures Distinct(list) && forall c :: c in list <==> c in listed || c in chs
  {
    list := listed;
    for j := 0 to |chs|
      invariant Distinct(list) && forall c :: c in list <==> c in listed || c in chs[..j]
      invariant forall c :: c in cs ==> c.tmp == old(c.tmp) + Paid(chs[..j], c, priority)
      invariant forall c :: c in cs && (c in chs || c in list) ==> (c.tmp > 0 <==> c in list)
    {
      forall c | c in cs
        ensures Paid(chs[..j + 1], c, priority) == Paid(chs[..j], c, priority) + if chs[j] == c then priority else 0
      {
        Extend(chs, j, c, priority);
      }
      assert forall c :: c in chs[..j + 1] <==> c in chs[..j] || c == chs[j] by { Extend(chs, j, chs[j], 0); }
      var c := chs[j];
      if c.tmp == 0 { list := list + [c]; }
      c.tmp := c.tmp + priority;
    }
    assert chs[..|chs|] == chs;
  }

  predicate Distinct(list: seq<Channel>) { forall i, j :: 0 <= i < j < |list| ==> list[i] != list[j] }

  /** The share of a request, from the channels' current weights and quotas. */
  method LeastShare(ghost t: Round, r: Request, ghost cs: set<Channel>) returns (quota: int)
    requires Names(r, cs) && Waiting(r)
    requires forall c :: c in cs ==> c.limit == t.limit(c) && c.tmp == t.weight(c) && c.distribute == t.quota(c)
    ensures quota == Share(t, r)
  {
    quota := r.size - r.got;
    for j := 0 to |r.channels|
      invariant quota == Least(t, r.channels[..j], r.priority, r.size - r.got)
    {
      assert r.channels[..j + 1][..j] == r.channels[..j];
      var c := r.channels[j];
      if c.limit != 0 && c.tmp != 0 {
        var portion := c.distribute * r.priority / c.tmp;
        if portion < quota { quota := portion; }
      }
    }
    assert r.channels[..|r.channels|] == r.channels;
  }

  // ---------------------------------------------------------------- the queue

  /** The next request of a queue that is being worked off. */
  lemma Next(q: seq<Request>, n: nat)
    requires n < |q|
    ensures q[..n + 1][..n] == q[..n] && q[..n + 1][n] == q[n] && q[n..] == [q[n]] + q[n + 1..]
  {}

  /** The quota of a channel after the requests of peers that are gone have given back what they held. */
  function AfterReturn(quota: int, limit: nat, q: seq<Request>, gone: set<nat>, c: Channel): int {
    quota + Limited(limit, Total(Dropped(q, gone), c, Got))
  }

  /** Its quota after the refill, which only channels in use get. */
  function AfterRefill(quota: int, limit: nat, q: seq<Request>, gone: set<nat>, c: Channel, dt: nat): int {
    var x := AfterReturn(quota, limit, q, gone, c);
    if Uses(Kept(q, gone), c) then Refilled(x, limit, dt) else x
  }

  const MAX_STEP := 3000

  class Manager {
    var queue: seq<Request>
    var queuedBytes: int
    var aborted: bool

    constructor ()
      ensures queue == [] && queuedBytes == 0 && !aborted && Valid()
    {
      queue, queuedBytes, aborted := [], 0, false;
    }

    predicate Valid()
      reads this
    {
      AllWaiting(queue) && queuedBytes == Outstanding(queue)
    }

    /** Grants a request at once if none of its channels is limited, and queues it otherwise. */
    method RequestBandwidth(peer: nat, blk: nat, priority: nat, chs: seq<Channel?>) returns (granted: nat)
      requires Valid() && blk > 0 && priority > 0 && |chs| <= 5
      modifies this
      ensures true == Valid() && aborted == old(aborted)
      ensures granted == if !aborted && old(Throttled(chs)) == [] then blk else 0
      ensures queue == if aborted || granted > 0 then old(queue)
                       else old(queue) + [Request(peer, priority, 0, blk, TTL, old(Throttled(chs)))]
    {
      if aborted { return 0; }
      var throttled := FindThrottled(chs);
      if throttled == [] { return blk; }
      var r := Request(peer, priority, 0, blk, TTL, throttled);
      Joined(queue, queue + [r], r);
      queuedBytes := queuedBytes + blk;
      queue := queue + [r];
      granted := 0;
    }

    /** Removes the requests of peers that are gone, and clears the weights of the others' channels. */
    method DropGone(gone: set<nat>, ghost cs: set<Channel>, ghost before: map<Channel, int>)
      requires Valid() && Within(queue, cs) && forall c :: c in cs ==> c in before && c.quotaLeft == before[c]
      modifies this`queue, this`queuedBytes, cs`quotaLeft, cs`tmp
      ensures Valid() && queue == Kept(old(queue), gone) && Within(queue, cs)
      ensures AfterDrop(old(queue), gone, cs, before)
    {
      ghost var q0, n := queue, 0;
      var i: nat := 0;
      assert q0[..0] == [] && q0[0..] == q0;
      while i < |queue|
        invariant Partway(q0, n, queue, i, gone)
        invariant Valid() && Within(queue, cs) && AfterDrop(q0[..n], gone, cs, before)
        decreases |q0| - n
      {
        i := DropNext(i, gone, cs, before, q0, n);
        n := n + 1;
      }
      PartwayEnd(q0, n, queue, i, gone);
    }

    /** Looks at the next request, and erases it or goes on to the one after. */
    method DropNext(i: nat, gone: set<nat>, ghost cs: set<Channel>, ghost before: map<Channel, int>,
      ghost q0: seq<Request>, ghost n: nat)
      returns (i': nat)
      requires i < |queue| && Partway(q0, n, queue, i, gone) && Valid() && Within(queue, cs)
        && AfterDrop(q0[..n], gone, cs, before)
      modifies this`queue, this`queuedBytes, cs`quotaLeft, cs`tmp
      ensures Partway(q0, n + 1, queue, i', gone) && Valid() && Within(queue, cs)
        && AfterDrop(q0[..n + 1], gone, cs, before)
    {
      PartwayStep(q0, n, queue, i, gone);
      var r := queue[i];
      assert Names(r, cs);
      i' := i;
      if r.peer in gone {
        Erased(queue, i, cs);
        ReturnDropped(r, cs, q0[..n], gone, before);
        assert AfterDrop(q0[..n + 1], gone, cs, before);
        queuedBytes := queuedBytes - (r.size - r.got);
        queue := queue[..i] + queue[i + 1..];
      } else {
        ClearKept(r, cs, q0[..n], gone, before);
        i' := i' + 1;
      }
    }

    /** Sums up the priorities of the requests of each channel; lists each channel in use once. */
    method Weigh(ghost cs: set<Channel>) returns (list: seq<Channel>)
      requires AllWaiting(queue) && Within(queue, cs) && forall c :: c in cs && Uses(queue, c) ==> c.tmp == 0
      modifies cs`tmp
      ensures Distinct(list) && (forall c :: c in list ==> c in cs) && Weighed(queue, queue, list, cs)
    {
      list := [];
      for n := 0 to |queue|
        invariant Distinct(list) && (forall c :: c in list ==> c in cs) && Weighed(queue[..n], queue, list, cs)
      {
        assert Names(queue[n], cs) && Waiting(queue[n]);
        list := WeighOne(queue[n], queue[..n], queue, list, cs);
        assert queue[..n + 1] == queue[..n] + [queue[n]];
      }
      assert queue[..|queue|] == queue;
    }

    /** Gives each request its share; those that are complete leave the queue. */
    method GrantAll(ghost t: Round, ghost cs: set<Channel>) returns (done: seq<Request>)
      requires Valid() && Within(queue, cs) && Shows(t, cs)
      modifies this`queue, this`queuedBytes, cs`quotaLeft
      ensures Valid() && queue == Left(t, old(queue)) && done == Served(t, old(queue)) && Within(queue, cs)
      ensures forall c ::
        c in cs ==> c.quotaLeft == old(c.quotaLeft) - Limited(c.limit, Total(old(queue), c, Shares(t)))
    {
      ghost var q0, n := queue, 0;
      ghost var before := map c | c in cs :: c.quotaLeft;
      var i: nat := 0;
      done := [];
      assert q0[..0] == [] && q0[0..] == q0;
      while i < |queue|
        invariant Granting(t, q0, n, queue, i, done)
        invariant Valid() && Within(queue, cs) && Charged(t, q0[..n], cs, before)
        decreases |q0| - n
      {
        i, done := GrantNext(i, done, t, cs, before, q0, n);
        n := n + 1;
      }
      GrantingEnd(t, q0, n, queue, i, done);
    }

    method GrantNext(i: nat, done: seq<Request>, ghost t: Round, ghost cs: set<Channel>,
      ghost before: map<Channel, int>, ghost q0: seq<Request>, ghost n: nat)
      returns (i': nat, done': seq<Request>)
      requires i < |queue| && Granting(t, q0, n, queue, i, done) && Valid() && Within(queue, cs)
      requires Shows(t, cs) && Charged(t, q0[..n], cs, before)
      modifies this`queue, this`queuedBytes, cs`quotaLeft
      ensures Granting(t, q0, n + 1, queue, i', done') && Valid() && Within(queue, cs)
        && Charged(t, q0[..n + 1], cs, before)
    {
      GrantingStep(t, q0, n, queue, i, done);
      assert Names(queue[i], cs) && Waiting(queue[i]);
      GrantKeeps(t, queue[i]);
      Replaced(queue, i, Grant(t, queue[i]), cs);
      var r, a := AssignBandwidth(queue[i], t, cs, before, q0[..n]);
      i', done' := i, done;
      queue := queue[i := r];
      if r.got == r.size || (r.ttl <= 0 && r.got > 0) {
        a := a + r.size - r.got;
        done' := done' + [r];
        queue := queue[..i] + queue[i + 1..];
      } else {
        i' := i' + 1;
      }
      queuedBytes := queuedBytes - a;
    }

    /** A tick: drops the requests of peers that are gone, refills the channels in use, and shares out their
        quotas by priority. Returns the requests that are served, in the order in which their peers are told. */
    method UpdateQuotas(dt: nat, gone: set<nat>, ghost cs: set<Channel>)
      returns (delivered: seq<Request>, ghost t: Round)
      requires Valid() && Within(queue, cs)
      modifies this`queue, this`queuedBytes, cs`quotaLeft, cs`tmp, cs`distribute
      ensures Valid() && Within(queue, cs)
      ensures aborted || old(queue) == [] ==>
        queue == old(queue) && delivered == [] && Quotas(cs) == old(Quotas(cs))
      ensures !aborted && old(queue) != [] ==>
        && queue == Left(t, Kept(old(queue), gone)) && delivered == Backwards(Served(t, Kept(old(queue), gone)))
        && Settled(t, old(queue), gone, Cap(dt), cs, old(Quotas(cs)))
        && NotOverdrawn(old(queue), gone, Cap(dt), cs, old(Quotas(cs)))
    {
      delivered, t := [], Round(c => 0, c => 0, c => 0);
      if aborted || queue == [] { return; }
      ghost var q0, before := queue, Quotas(cs);
      Prepare(Cap(dt), gone, cs, before);
      delivered, t := Serve(Cap(dt), gone, cs, before, q0);
    }

    /** The rest of the tick. */
    method Serve(ghost dt: nat, ghost gone: set<nat>, ghost cs: set<Channel>, ghost before: map<Channel, int>,
      ghost q0: seq<Request>)
      returns (delivered: seq<Request>, ghost t: Round)
      requires Valid() && Within(queue, cs) && queue == Kept(q0, gone) && Prepared(q0, gone, dt, cs, before)
      modifies this`queue, this`queuedBytes, cs`quotaLeft
      ensures Valid() && Within(queue, cs)
      ensures queue == Left(t, Kept(q0, gone)) && delivered == Backwards(Served(t, Kept(q0, gone)))
      ensures Settled(t, q0, gone, dt, cs, before) && NotOverdrawn(q0, gone, dt, cs, before)
    {
      t := Seen(cs);
      assert forall c ::
        c in cs ==> RoundOf(t, c, c.limit, Kept(q0, gone), AfterRefill(before[c], c.limit, q0, gone, c, dt));
      assert AllWaiting(Kept(q0, gone));
      var done := GrantAll(t, cs);
      delivered := Deliver(done);
      SettledFloor(t, q0, gone, dt, cs, before);
    }

    /** The tick up to the point where shares are given. */
    method Prepare(dt: nat, gone: set<nat>, ghost cs: set<Channel>, ghost before: map<Channel, int>)
      requires Valid() && Within(queue, cs) && before == Quotas(cs)
      modifies this`queue, this`queuedBytes, cs`quotaLeft, cs`tmp, cs`distribute
      ensures Valid() && Within(queue, cs) && queue == Kept(old(queue), gone)
      ensures Prepared(old(queue), gone, dt, cs, before)
    {
      DropGone(gone, cs, before);
      var list := Weigh(cs);
      Refill(list, dt, cs);
    }
  }

  ghost function Quotas(cs: set<Channel>): map<Channel, int>
    reads cs
  {
    map c | c in cs :: c.quotaLeft
  }

  /** Quotas are returned and refilled, and channels in use know their weight and what they give out. */
  ghost predicate Prepared(q: seq<Request>, gone: set<nat>, dt: nat, cs: set<Channel>, before: map<Channel, int>)
    reads cs
  {
    forall c :: c in cs ==>
      && c in before && c.quotaLeft == AfterRefill(before[c], c.limit, q, gone, c, dt)
      && (Uses(Kept(q, gone), c) ==>
        c.tmp == Total(Kept(q, gone), c, Priority) && (c.limit > 0 ==> c.distribute == Positive(c.quotaLeft)))
  }

  /** The state of the channels after a tick with round t. */
  ghost predicate Settled(t: Round, q: seq<Request>, gone: set<nat>, dt: nat, cs: set<Channel>,
    before: map<Channel, int>)
    reads cs
  {
    forall c :: c in cs ==>
      && c in before
      && SettledAt(t, c, c.limit, Kept(q, gone), AfterRefill(before[c], c.limit, q, gone, c, dt), c.quotaLeft)
  }

  /** The round is right for the channel, and the shares of its requests have been taken from its quota. */
  ghost predicate SettledAt(t: Round, c: Channel, limit: nat, kept: seq<Request>, refilled: int, quota: int) {
    RoundOf(t, c, limit, kept, refilled) && quota == refilled - Limited(limit, Total(kept, c, Shares(t)))
  }

  /** Time steps are capped. */
  function Cap(dt: nat): (r: nat)
    ensures r <= dt && r <= 3000 && (r == dt || r == 3000)
  {
    if dt > MAX_STEP then MAX_STEP else dt
  }

  function Backwards(q: seq<Request>): (r: seq<Request>)
    ensures |r| == |q| && forall i :: 0 <= i < |q| ==> r[i] == q[|q| - 1 - i]
  {
    if q == [] then [] else [q[|q| - 1]] + Backwards(q[..|q| - 1])
  }

  /** What a round must be for channel c: its weight is that of the requests, and what it gives out is what it has. */
  ghost predicate RoundOf(t: Round, c: Channel, limit: nat, q: seq<Request>, quota: int) {
    && t.limit(c) == limit
    && (Uses(q, c) ==> t.weight(c) == Total(q, c, Priority) && (limit > 0 ==> t.quota(c) == Positive(quota)))
  }

  /** The round that the channels show. */
  ghost function Seen(cs: set<Channel>): (t: Round)
    reads cs
    ensures Shows(t, cs)
  {
    var quotas := map c | c in cs :: c.distribute;
    var weights := map c | c in cs :: c.tmp;
    var limits := map c | c in cs :: c.limit;
    Round(c => if c in quotas then quotas[c] else 0, c => if c in weights then weights[c] else 0,
          c => if c in limits then limits[c] else 0)
  }

  /** Tells the peers, the last one first. */
  method Deliver(done: seq<Request>) returns (told: seq<Request>)
    ensures told == Backwards(done)
  {
    told := [];
    var rest := done;
    while rest != []
      invariant Backwards(done) == told + Backwards(rest)
      decreases |rest|
    {
      told := told + [rest[|rest| - 1]];
      rest := rest[..|rest| - 1];
    }
  }

  /** No limited channel is below zero, unless it was so after the refill. */
  ghost predicate NotOverdrawn(q: seq<Request>, gone: set<nat>, dt: nat, cs: set<Channel>, before: map<Channel, int>)
    reads cs
  {
    forall c :: c in cs && c.limit > 0 ==>
      && c in before
      && var refilled := AfterRefill(before[c], c.limit, q, gone, c, dt);
         c.quotaLeft >= if refilled < 0 then refilled else 0
  }

  lemma SettledFloor(t: Round, q: seq<Request>, gone: set<nat>, dt: nat, cs: set<Channel>, before: map<Channel, int>)
    requires AllWaiting(Kept(q, gone)) && Settled(t, q, gone, dt, cs, before)
    ensures NotOverdrawn(q, gone, dt, cs, before)
  {
    forall c | c in cs && c.limit > 0
      ensures var refilled := AfterRefill(before[c], c.limit, q, gone, c, dt);
        c.quotaLeft >= if refilled < 0 then refilled else 0
    {
      var refilled := AfterRefill(before[c], c.limit, q, gone, c, dt);
      assert SettledAt(t, c, c.limit, Kept(q, gone), refilled, c.quotaLeft);
      QuotaFloor(t, c, c.limit, Kept(q, gone), refilled);
    }
  }

  /** After a tick no limited channel in use is below zero, unless it was so after the refill. */
  lemma QuotaFloor(t: Round, c: Channel, limit: nat, q: seq<Request>, quota: int)
    requires AllWaiting(q) && limit > 0 && RoundOf(t, c, limit, q, quota)
    ensures quota - Total(q, c, Shares(t)) >= if quota < 0 then quota else 0
  {
    if Uses(q, c) {
      NoOverdraft(t, q, c);
    } else {
      TotalNothing(q, c, Shares(t));
    }
  }

  /** The first n requests of q have been looked at; i of them have been kept. */
  ghost predicate Partway(q: seq<Request>, n: nat, queue: seq<Request>, i: nat, gone: set<nat>) {
    n <= |q| && queue == Kept(q[..n], gone) + q[n..] && i == |Kept(q[..n], gone)|
  }

  lemma PartwayStep(q: seq<Request>, n: nat, queue: seq<Request>, i: nat, gone: set<nat>)
    requires Partway(q, n, queue, i, gone) && i < |queue|
    ensures n < |q| && queue[i] == q[n] && q[..n + 1] == q[..n] + [q[n]]
    ensures if q[n].peer in gone then Partway(q, n + 1, queue[..i] + queue[i + 1..], i, gone)
            else Partway(q, n + 1, queue, i + 1, gone)
  {
    Next(q, n);
    var kept := Kept(q[..n], gone);
    if q[n].peer in gone {
      assert queue[..i] + queue[i + 1..] == kept + q[n + 1..];
    } else {
      assert queue == (kept + [q[n]]) + q[n + 1..];
    }
  }

  lemma PartwayEnd(q: seq<Request>, n: nat, queue: seq<Request>, i: nat, gone: set<nat>)
    requires Partway(q, n, queue, i, gone) && i >= |queue|
    ensures q[..n] == q && queue == Kept(q, gone)
  {}

  /** The requests q have been looked at: those of peers that are gone have given back what they held. */
  ghost predicate AfterDrop(q: seq<Request>, gone: set<nat>, cs: set<Channel>, before: map<Channel, int>)
    reads cs
  {
    forall c :: c in cs ==>
      c in before && c.quotaLeft == AfterReturn(before[c], c.limit, q, gone, c)
        && (Uses(Kept(q, gone), c) ==> c.tmp == 0)
  }

  method ReturnDropped(r: Request, ghost cs: set<Channel>, ghost q: seq<Request>, ghost gone: set<nat>,
    ghost before: map<Channel, int>)
    requires Names(r, cs) && r.got >= 0 && r.peer in gone && AfterDrop(q, gone, cs, before)
    modifies cs`quotaLeft
    ensures AfterDrop(q + [r], gone, cs, before)
  {
    ReturnAll(r, cs);
    Last(q, r);
    ghost var dropped := Dropped(q, gone);
    forall c | c in cs ensures Total(dropped + [r], c, Got) == Total(dropped, c, Got) + Paid(r.channels, c, r.got) {
      Append(dropped, r, c, Got, 0);
    }
  }

  method ClearKept(r: Request, ghost cs: set<Channel>, ghost q: seq<Request>, ghost gone: set<nat>,
    ghost before: map<Channel, int>)
    requires Names(r, cs) && r.peer !in gone && AfterDrop(q, gone, cs, before)
    modifies cs`tmp
    ensures AfterDrop(q + [r], gone, cs, before)
  {
    ClearWeights(r.channels, cs);
    Last(q, r);
    ghost var kept := Kept(q, gone);
    forall c | c in cs ensures Uses(kept + [r], c) <==> Uses(kept, c) || c in r.channels { Append(kept, r, c, Got, 0); }
  }

  lemma {:induction false} Erased(q: seq<Request>, i: nat, cs: set<Channel>)
    requires i < |q|
    ensures var e := q[..i] + q[i + 1..];
      && Outstanding(e) == Outstanding(q) - (q[i].size - q[i].got) && (AllWaiting(q) ==> AllWaiting(e))
        && (Within(q, cs) ==> Within(e, cs))
    decreases |q|
  {
    var m := q[..|q| - 1];
    var e := q[..i] + q[i + 1..];
    if i == |q| - 1 {
      assert e == m;
    } else {
      Erased(m, i, cs);
      assert e[..|e| - 1] == m[..i] + m[i + 1..] && e[|e| - 1] == q[|q| - 1];
    }
  }

  // ---------------------------------------------------------------- weights

  /** The priorities of the requests q have been added up, for the channels that the whole queue uses. */
  ghost predicate Weighed(q: seq<Request>, all: seq<Request>, list: seq<Channel>, cs: set<Channel>)
    reads cs
  {
    forall c :: c in cs ==> (c in list <==> Uses(q, c)) && (Uses(all, c) ==> c.tmp == Total(q, c, Priority))
  }

  lemma {:induction false} UsesPart(q: seq<Request>, n: nat, c: Channel)
    requires n <= |q| && (Uses(q[..n], c) || (n < |q| && c in q[n].channels))
    ensures Uses(q, c)
    decreases |q| - n
  {
    if n == |q| {
      assert q[..n] == q;
    } else {
      assert q[..n + 1][..n] == q[..n] && q[..n + 1][n] == q[n];
      UsesPart(q, n + 1, c);
    }
  }

  method WeighOne(r: Request, ghost q: seq<Request>, ghost all: seq<Request>, listed: seq<Channel>,
    ghost cs: set<Channel>)
    returns (list: seq<Channel>)
    requires |q| < |all| && q == all[..|q|] && r == all[|q|] && AllWaiting(all) && Names(r, cs)
    requires Distinct(listed) && (forall c :: c in listed ==> c in cs) && Weighed(q, all, listed, cs)
    modifies cs`tmp
    ensures Distinct(list) && (forall c :: c in list ==> c in cs) && Weighed(q + [r], all, list, cs)
  {
    assert Waiting(r) by { assert Waiting(all[|q|]); }
    forall c | c in cs
      ensures (c in r.channels || c in listed ==> (c.tmp > 0 <==> c in listed))
      ensures (c in r.channels || c in listed ==> Uses(all, c)) && (Uses(q + [r], c) <==> Uses(q, c) || c in r.channels)
      ensures Total(q + [r], c, Priority) == Total(q, c, Priority) + Paid(r.channels, c, r.priority)
    {
      if c in r.channels || c in listed { UsesPart(all, |q|, c); }
      WeightPositive(q, c);
      if !Uses(q, c) { TotalNothing(q, c, Priority); }
      Append(q, r, c, Priority, 0);
    }
    list := AddWeights(r.channels, r.priority, listed, cs);
  }

  /** Refills the listed channels, each once. */
  method Refill(list: seq<Channel>, dt: nat, ghost cs: set<Channel>)
    requires Distinct(list) && forall c :: c in list ==> c in cs
    modifies cs`quotaLeft, cs`distribute
    ensures forall c :: c in cs ==> c.quotaLeft == if c in list then Refilled(old(c.quotaLeft), c.limit, dt)
      else old(c.quotaLeft)
    ensures forall c :: c in cs ==>
      c.distribute == if c in list && c.limit > 0 then Positive(c.quotaLeft) else old(c.distribute)
  {
    for i := 0 to |list|
      invariant forall c :: c in cs ==> c.quotaLeft == if c in list[..i] then Refilled(old(c.quotaLeft), c.limit, dt)
        else old(c.quotaLeft)
      invariant forall c :: c in cs ==>
        c.distribute == if c in list[..i] && c.limit > 0 then Positive(c.quotaLeft) else old(c.distribute)
    {
      assert list[i] !in list[..i];
      assert list[..i + 1] == list[..i] + [list[i]];
      list[i].UpdateQuota(dt);
    }
    assert list[..|list|] == list;
  }

  // ---------------------------------------------------------------- grants

  /** The channels show the limits, weights and quotas of the round. */
  ghost predicate Shows(t: Round, cs: set<Channel>)
    reads cs
  {
    forall c :: c in cs ==> c.limit == t.limit(c) && c.tmp == t.weight(c) && c.distribute == t.quota(c)
  }

  /** The shares of the requests q have been charged. */
  ghost predicate Charged(t: Round, q: seq<Request>, cs: set<Channel>, before: map<Channel, int>)
    reads cs
  {
    forall c :: c in cs ==> c in before && c.quotaLeft == before[c] - Limited(c.limit, Total(q, c, Shares(t)))
  }

  /** Gives a request its share and charges it to all its channels. */
  method AssignBandwidth(r: Request, ghost t: Round, ghost cs: set<Channel>, ghost before: map<Channel, int>,
    ghost q: seq<Request>)
    returns (r': Request, quota: int)
    requires Names(r, cs) && Waiting(r) && Shows(t, cs) && Charged(t, q, cs, before)
    modifies cs`quotaLeft
    ensures r' == Grant(t, r) && quota == Share(t, r) && Charged(t, q + [r], cs, before)
  {
    GrantKeeps(t, r);
    quota := LeastShare(t, r, cs);
    r' := r.(got := r.got + quota, ttl := r.ttl - 1);
    UseAll(r.channels, quota, cs);
    forall c | c in cs ensures Total(q + [r], c, Shares(t)) == Total(q, c, Shares(t)) + Paid(r.channels, c, quota) {
      Append(q, r, c, Shares(t), 0);
    }
  }

  /** The first n requests of q have got their shares; i of them are still in the queue. */
  ghost predicate Granting(t: Round, q: seq<Request>, n: nat, queue: seq<Request>, i: nat, done: seq<Request>) {
    n <= |q| && queue == Left(t, q[..n]) + q[n..] && i == |Left(t, q[..n])| && done == Served(t, q[..n])
  }

  lemma GrantingStep(t: Round, q: seq<Request>, n: nat, queue: seq<Request>, i: nat, done: seq<Request>)
    requires Granting(t, q, n, queue, i, done) && i < |queue|
    ensures n < |q| && queue[i] == q[n] && q[..n + 1] == q[..n] + [q[n]]
    ensures var r := Grant(t, q[n]);
      if Complete(r) then Granting(t, q, n + 1, queue[i := r][..i] + queue[i := r][i + 1..], i, done + [r])
      else Granting(t, q, n + 1, queue[i := r], i + 1, done)
  {
    Next(q, n);
    var left, r := Left(t, q[..n]), Grant(t, q[n]);
    assert queue[i := r] == (left + [r]) + q[n + 1..];
    assert queue[i := r][..i] + queue[i := r][i + 1..] == left + q[n + 1..];
  }

  lemma GrantingEnd(t: Round, q: seq<Request>, n: nat, queue: seq<Request>, i: nat, done: seq<Request>)
    requires Granting(t, q, n, queue, i, done) && i >= |queue|
    ensures q[..n] == q && queue == Left(t, q) && done == Served(t, q)
  {}

  /** Replacing a request, and erasing the replacement. */
  lemma Replaced(q: seq<Request>, i: nat, r: Request, cs: set<Channel>)
    requires i < |q| && AllWaiting(q) && Within(q, cs) && r.channels == q[i].channels && r.size == q[i].size
    ensures var p := q[i := r];
      && Outstanding(p) == Outstanding(q) - (r.got - q[i].got) && (Waiting(r) ==> AllWaiting(p)) && Within(p, cs)
      && var e := p[..i] + p[i + 1..];
         Outstanding(e) == Outstanding(q) - (q[i].size - q[i].got) && AllWaiting(e) && Within(e, cs)
  {
    var p := q[i := r];
    Erased(q, i, cs);
    Erased(p, i, cs);
    assert p[..i] + p[i + 1..] == q[..i] + q[i + 1..];
    assert Names(q[i], cs);
  }
}
