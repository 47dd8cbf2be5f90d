/** Bandwidth channels, requests, and how a tick shares a channel's quota among the requests. Requests may
    share channels, and may name one channel several times. */
module BandwidthShares {

  /** A token bucket. A limit of zero means no limit. */
  class Channel {
    var tmp: nat
    var distribute: nat
    var quotaLeft: int
    var limit: nat

    constructor (limit: nat)
      ensures tmp == 0 && distribute == 0 && quotaLeft == 0 && this.limit == limit
    {
      tmp, distribute, quotaLeft, this.limit := 0, 0, 0, limit;
    }

    method UpdateQuota(dt: nat)
      modifies this`quotaLeft, this`distribute
      ensures quotaLeft == Refilled(old(quotaLeft), limit, dt)
      ensures limit == 0 ==> quotaLeft == old(quotaLeft)
      ensures limit > 0 ==>
        var rate := (limit * dt + 500) / 1000;
        quotaLeft == if old(quotaLeft) + rate <= 3 * limit then old(quotaLeft) + rate else 3 * limit
      ensures distribute == if limit == 0 then old(distribute) else Positive(quotaLeft)
    {
      if limit == 0 { return; }
      quotaLeft := quotaLeft + (limit * dt + 500) / 1000;
      if quotaLeft > limit * 3 { quotaLeft := limit * 3; }
      distribute := if quotaLeft > 0 then quotaLeft else 0;
    }

    method ReturnQuota(amount: nat)
      modifies this`quotaLeft
      ensures quotaLeft == if limit == 0 then old(quotaLeft) else old(quotaLeft) + amount
    {
      if limit == 0 { return; }
      quotaLeft := quotaLeft + amount;
    }

    method UseQuota(amount: nat)
      modifies this`quotaLeft
      ensures quotaLeft == if limit == 0 then old(quotaLeft) else old(quotaLeft) - amount
    {
      if limit == 0 { return; }
      quotaLeft := quotaLeft - amount;
    }
  }

  function Positive(x: int): nat { if x > 0 then x else 0 }

  function Refilled(quota: int, limit: nat, dt: nat): int {
    if limit == 0 then quota else
    var q := quota + (limit * dt + 500) / 1000;
    if q > limit * 3 then limit * 3 else q
  }

  /** A number of ticks after which a request gets what it has. */
  const TTL := 20

  datatype Request = Request(peer: nat, priority: nat, got: int, size: int, ttl: int, channels: seq<Channel>)

  /** A request in the queue is not yet satisfied; an overdue one has got nothing so far. */
  predicate Waiting(r: Request) {
    r.priority > 0 && 0 <= r.got < r.size && (r.ttl <= 0 ==> r.got == 0)
  }

  predicate AllWaiting(q: seq<Request>) { forall i :: 0 <= i < |q| ==> Waiting(q[i]) }

  // ---------------------------------------------------------------- sums

  /** What channel c gets if each channel of the list gets the amount. */
  function Paid(chs: seq<Channel>, c: Channel, amount: int): int {
    if chs == [] then 0
    else Paid(chs[..|chs| - 1], c, amount) + if chs[|chs| - 1] == c then amount else 0
  }

  /** What channel c gets if the channels of each request r get f(r). */
  function Total(q: seq<Request>, c: Channel, f: Request -> int): int {
    if q == [] then 0
    else Total(q[..|q| - 1], c, f) + Paid(q[|q| - 1].channels, c, f(q[|q| - 1]))
  }

  function Priority(r: Request): int { r.priority }
  function Got(r: Request): int { r.got }

  /** The bytes that requests still want. */
  function Outstanding(q: seq<Request>): int {
    if q == [] then 0 else Outstanding(q[..|q| - 1]) + q[|q| - 1].size - q[|q| - 1].got
  }

  /** Some request of the queue names channel c. */
  predicate Uses(q: seq<Request>, c: Channel) {
    q != [] && (Uses(q[..|q| - 1], c) || c in q[|q| - 1].channels)
  }

  lemma {:induction false} PaidNonNegative(chs: seq<Channel>, c: Channel, amount: int)
    requires amount >= 0
    ensures Paid(chs, c, amount) >= 0 && (c in chs ==> Paid(chs, c, amount) >= amount)
      && (c !in chs ==> Paid(chs, c, amount) == 0)
  {
    if chs != [] { PaidNonNegative(chs[..|chs| - 1], c, amount); }
  }

  lemma {:induction false} PaidAdds(chs: seq<Channel>, c: Channel, a: int, b: int)
    ensures Paid(chs, c, a + b) == Paid(chs, c, a) + Paid(chs, c, b)
  {
    if chs != [] { PaidAdds(chs[..|chs| - 1], c, a, b); }
  }

  // ---------------------------------------------------------------- shares

  /** How much of each channel is there to distribute, by what weights it is shared, and its limit. */
  datatype Round = Round(quota: Channel -> nat, weight: Channel -> nat, limit: Channel -> nat)

  /** The part of channel c that falls to a priority, rounded down. */
  function Portion(t: Round, c: Channel, priority: nat): (p: int)
    requires t.weight(c) > 0
    ensures p * t.weight(c) <= t.quota(c) * priority < (p + 1) * t.weight(c)
  {
    DivDown(t.quota(c) * priority, t.weight(c));
    t.quota(c) * priority / t.weight(c)
  }

  predicate Binding(t: Round, c: Channel) { t.limit(c) > 0 && t.weight(c) > 0 }

  /** The least of what is wanted and what the channels give. */
  function Least(t: Round, chs: seq<Channel>, priority: nat, wanted: int): int {
    if chs == [] then wanted else
    var least := Least(t, chs[..|chs| - 1], priority, wanted);
    var c := chs[|chs| - 1];
    if Binding(t, c) && Portion(t, c, priority) < least then Portion(t, c, priority) else least
  }

  /** What a request is given. */
  function Share(t: Round, r: Request): int { Least(t, r.channels, r.priority, r.size - r.got) }

  function Shares(t: Round): Request -> int { r => Share(t, r) }

  /** No more than wanted nor than any channel gives, and not less than needed for that. */
  lemma {:induction false} LeastIsLeast(t: Round, chs: seq<Channel>, priority: nat, wanted: int)
    requires wanted >= 0
    ensures 0 <= Least(t, chs, priority, wanted) <= wanted
    ensures forall c :: c in chs && Binding(t, c) ==> Least(t, chs, priority, wanted) <= Portion(t, c, priority)
    ensures Least(t, chs, priority, wanted) == wanted
      || exists c :: c in chs && Binding(t, c) && Least(t, chs, priority, wanted) == Portion(t, c, priority)
  {
    if chs != [] {
      LeastIsLeast(t, chs[..|chs| - 1], priority, wanted);
      assert chs == chs[..|chs| - 1] + [chs[|chs| - 1]];
      PortionPositive(t, chs[|chs| - 1], priority);
    }
  }

  lemma PortionPositive(t: Round, c: Channel, priority: nat)
    ensures t.weight(c) > 0 ==> Portion(t, c, priority) >= 0
  {
    MulSign(t.quota(c), priority);
  }

  lemma MulSign(a: int, b: int)
    requires a >= 0 && b >= 0
    ensures a * b >= 0
  {}

  lemma DivDown(a: int, b: int)
    requires b > 0
    ensures a / b * b <= a < (a / b + 1) * b
  {}

  lemma MulUp(a: int, b: int, c: int)
    requires a <= b && c >= 0
    ensures a * c <= b * c
  {}

  /** Equal payments scale. */
  lemma {:induction false} PaidScales(chs: seq<Channel>, c: Channel, a: int, w: int, d: int, p: int)
    requires a * w <= d * p
    ensures Paid(chs, c, a) * w <= d * Paid(chs, c, p)
  {
    if chs != [] {
      var m := chs[..|chs| - 1];
      PaidScales(m, c, a, w, d, p);
      if chs[|chs| - 1] == c {
        Spread(Paid(m, c, a), a, w);
        Spread(Paid(m, c, p), p, d);
      }
    }
  }

  lemma Spread(a: int, b: int, k: int)
    ensures (a + b) * k == a * k + b * k && k * (a + b) == k * a + k * b
  {}

  /** What the requests take from a channel is in proportion to their weight. */
  lemma {:induction false} SharesInProportion(t: Round, q: seq<Request>, c: Channel)
    requires Binding(t, c) && AllWaiting(q)
    ensures Total(q, c, Shares(t)) * t.weight(c) <= t.quota(c) * Total(q, c, Priority)
  {
    if q != [] {
      var m, r := q[..|q| - 1], q[|q| - 1];
      SharesInProportion(t, m, c);
      OneInProportion(t, r, c);
      Spread(Total(m, c, Shares(t)), Paid(r.channels, c, Share(t, r)), t.weight(c));
      Spread(Total(m, c, Priority), Paid(r.channels, c, r.priority), t.quota(c));
    }
  }

  lemma OneInProportion(t: Round, r: Request, c: Channel)
    requires Binding(t, c) && Waiting(r)
    ensures Paid(r.channels, c, Share(t, r)) * t.weight(c) <= t.quota(c) * Paid(r.channels, c, r.priority)
  {
    if c in r.channels {
      LeastIsLeast(t, r.channels, r.priority, r.size - r.got);
      DivDown(t.quota(c) * r.priority, t.weight(c));
      MulUp(Share(t, r), Portion(t, c, r.priority), t.weight(c));
      PaidScales(r.channels, c, Share(t, r), t.weight(c), t.quota(c), r.priority);
    } else {
      PaidNothing(r.channels, c, Share(t, r));
      PaidNothing(r.channels, c, r.priority);
    }
  }

  lemma {:induction false} PaidNothing(chs: seq<Channel>, c: Channel, amount: int)
    requires c !in chs
    ensures Paid(chs, c, amount) == 0
  {
    if chs != [] { PaidNothing(chs[..|chs| - 1], c, amount); }
  }

  lemma {:induction false} TotalNothing(q: seq<Request>, c: Channel, f: Request -> int)
    requires !Uses(q, c)
    ensures Total(q, c, f) == 0
  {
    if q != [] {
      TotalNothing(q[..|q| - 1], c, f);
      PaidNothing(q[|q| - 1].channels, c, f(q[|q| - 1]));
    }
  }

  lemma {:induction false} WeightPositive(q: seq<Request>, c: Channel)
    requires AllWaiting(q)
    ensures Total(q, c, Priority) >= 0 && (Uses(q, c) ==> Total(q, c, Priority) > 0)
  {
    if q != [] {
      WeightPositive(q[..|q| - 1], c);
      PaidNonNegative(q[|q| - 1].channels, c, q[|q| - 1].priority);
    }
  }

  /** However requests share or repeat channels, a limited channel never gives out more than it has. */
  lemma NoOverdraft(t: Round, q: seq<Request>, c: Channel)
    requires AllWaiting(q) && t.limit(c) > 0
    requires Uses(q, c) ==> t.weight(c) == Total(q, c, Priority)
    ensures Total(q, c, Shares(t)) <= t.quota(c)
  {
    if Uses(q, c) {
      WeightPositive(q, c);
      SharesInProportion(t, q, c);
      Cancel(Total(q, c, Shares(t)), t.quota(c), t.weight(c));
    } else {
      TotalNothing(q, c, Shares(t));
    }
  }

  lemma Cancel(a: int, b: int, k: int)
    requires k > 0 && a * k <= b * k
    ensures a <= b
  {}
}
