/** Shifts, masks and bit reversal, stated over unbounded naturals.
    `x >> k` is `x / Pow2(k)` and `x & (2^k - 1)` is `x % Pow2(k)`. */
module BitArith {

  function Pow2(n: nat): (r: nat)
    ensures r > 0
  {
    if n == 0 then 1 else 2 * Pow2(n - 1)
  }

  lemma {:induction false} Pow2Add(a: nat, b: nat)
    ensures Pow2(a + b) == Pow2(a) * Pow2(b)
  {
    if b != 0 {
      Pow2Add(a, b - 1);
      assert Pow2(a) * (2 * Pow2(b - 1)) == 2 * (Pow2(a) * Pow2(b - 1));
    }
  }

  lemma {:induction false} Pow2Monotone(a: nat, b: nat)
    requires a <= b
    ensures Pow2(a) <= Pow2(b)
  {
    if a < b { Pow2Monotone(a, b - 1); }
  }

  lemma Pow2Values()
    ensures Pow2(0) == 1 && Pow2(1) == 2 && Pow2(2) == 4 && Pow2(3) == 8 && Pow2(4) == 16
    ensures Pow2(5) == 32 && Pow2(6) == 64 && Pow2(7) == 128 && Pow2(8) == 256 && Pow2(9) == 512
    ensures Pow2(10) == 1024 && Pow2(15) == 32768 && Pow2(16) == 65536
  {
    assert Pow2(4) == 16;
    Pow2Add(4, 4); Pow2Add(8, 8);
    assert Pow2(10) == 2 * Pow2(9) == 4 * Pow2(8);
    assert Pow2(15) * 2 == Pow2(16);
    assert Pow2(5) == 2 * Pow2(4);
    assert Pow2(6) == 2 * Pow2(5);
    assert Pow2(7) == 2 * Pow2(6);
  }

  lemma MulMonotone(a: int, b: int, m: nat)
    requires a <= b
    ensures a * m <= b * m
  {
    assert (b - a) * m >= 0;
  }

  lemma DivUnique(x: int, m: int, q: int, r: int)
    requires m > 0 && 0 <= r < m && x == q * m + r
    ensures x / m == q && x % m == r
  {
    var a := x / m;
    assert x == a * m + x % m;
    assert (q + 1) * m == q * m + m && (a + 1) * m == a * m + m;
    if a > q { MulMonotone(q + 1, a, m); }
    if a < q { MulMonotone(a + 1, q, m); }
  }

  lemma DivNonNegative(x: nat, m: nat)
    requires m > 0
    ensures x / m >= 0
  {}

  function Shr(x: nat, k: nat): nat {
    DivNonNegative(x, Pow2(k));
    x / Pow2(k)
  }

  lemma HalfQuotient(x: nat, m: nat, h: nat, b: nat, r: nat)
    requires x == (2 * h + b) * m + r && b < 2 && r < m
    ensures x == h * (2 * m) + (m * b + r) && 0 <= m * b + r < 2 * m
  {
    assert (2 * h + b) * m == h * (2 * m) + m * b;
    assert m * b == if b == 0 then 0 else m;
  }

  /** Shifting by k and then by one is shifting by k + 1; the bit shifted out is the k-th. */
  lemma DivPow2Step(x: nat, k: nat)
    ensures x / Pow2(k + 1) == x / Pow2(k) / 2
    ensures x % Pow2(k + 1) == x % Pow2(k) + Pow2(k) * (x / Pow2(k) % 2)
  {
    var m := Pow2(k);
    var q, r := x / m, x % m;
    var h, b := q / 2, q % 2;
    assert x == q * m + r;
    assert q == 2 * h + b;
    HalfQuotient(x, m, h, b, r);
    DivUnique(x, 2 * m, h, m * b + r);
  }

  lemma MulAssoc(a: int, b: int, c: int)
    ensures a * (b * c) == (a * c) * b
  {}

  lemma ModMul(x: nat, a: nat, b: nat)
    requires a > 0 && a * b > 0
    ensures x % (a * b) % a == x % a
  {
    var m := a * b;
    var q, r := x / m, x % m;
    MulAssoc(q, a, b);
    assert (q * b + r / a) * a == (q * b) * a + r / a * a;
    DivUnique(x, a, q * b + r / a, r % a);
  }

  lemma ModPow2Mod(x: nat, k: nat, n: nat)
    requires k <= n
    ensures x % Pow2(n) % Pow2(k) == x % Pow2(k)
  {
    Pow2Add(k, n - k);
    ModMul(x, Pow2(k), Pow2(n - k));
  }

  /** The d most significant bits of the n-bit number v. */
  function Prefix(v: nat, n: nat, d: nat): nat
    requires d <= n
    decreases n - d
  {
    if d == n then v else Prefix(v, n, d + 1) / 2
  }

  /** Bit d of the n-bit number v, counted from its most significant end. */
  function Bit(v: nat, n: nat, d: nat): (b: nat)
    requires d < n
    ensures b < 2
  {
    Prefix(v, n, d + 1) % 2
  }

  /** Bits d .. n-1 of v with bit d as the least significant one: `Reversed(v, n) >> d`. */
  function ReversedFrom(v: nat, n: nat, d: nat): nat
    requires d <= n
    decreases n - d
  {
    if d == n then 0 else Bit(v, n, d) + 2 * ReversedFrom(v, n, d + 1)
  }

  function Reversed(v: nat, n: nat): nat { ReversedFrom(v, n, 0) }

  lemma {:induction false} PrefixBound(v: nat, n: nat, d: nat)
    requires d <= n && v < Pow2(n)
    ensures Prefix(v, n, d) < Pow2(d)
    decreases n - d
  {
    if d < n { PrefixBound(v, n, d + 1); }
  }

  lemma {:induction false} PrefixZero(v: nat, n: nat)
    requires v < Pow2(n)
    ensures Prefix(v, n, 0) == 0
  {
    PrefixBound(v, n, 0);
  }

  /** Shortening in two steps. */
  lemma {:induction false} PrefixPrefix(v: nat, n: nat, k: nat, d: nat)
    requires d <= k <= n
    ensures Prefix(v, n, d) == Prefix(Prefix(v, n, k), k, d)
    decreases k - d
  {
    if d < k { PrefixPrefix(v, n, k, d + 1); }
  }

  lemma {:induction false} ReversedBound(v: nat, n: nat, d: nat)
    requires d <= n
    ensures ReversedFrom(v, n, d) < Pow2(n - d)
    decreases n - d
  {
    if d < n {
      ReversedBound(v, n, d + 1);
      assert Pow2(n - d) == 2 * Pow2(n - (d + 1));
    }
  }

  lemma ReversedHalf(v: nat, n: nat, d: nat)
    requires d < n
    ensures ReversedFrom(v, n, d) / 2 == ReversedFrom(v, n, d + 1)
    ensures ReversedFrom(v, n, d) % 2 == Bit(v, n, d)
  {}

  lemma {:induction false} ReversedShift(v: nat, n: nat, d: nat)
    requires d <= n
    ensures Reversed(v, n) / Pow2(d) == ReversedFrom(v, n, d)
  {
    if d > 0 {
      ReversedShift(v, n, d - 1);
      DivPow2Step(Reversed(v, n), d - 1);
    }
  }

  lemma Distribute(p: nat, r: nat)
    ensures 2 * (p * r) == (2 * p) * r
  {}

  /** The low k bits of the reversal are the reversal of the top k bits. */
  lemma {:induction false} ReversedSplit(v: nat, n: nat, k: nat, d: nat)
    requires d <= k <= n
    ensures ReversedFrom(v, n, d)
         == ReversedFrom(Prefix(v, n, k), k, d) + Pow2(k - d) * ReversedFrom(v, n, k)
    decreases k - d
  {
    if d < k {
      ReversedSplit(v, n, k, d + 1);
      PrefixPrefix(v, n, k, d + 1);
      assert Bit(v, n, d) == Bit(Prefix(v, n, k), k, d);
      Distribute(Pow2(k - (d + 1)), ReversedFrom(v, n, k));
    }
  }

  lemma ModOfSum(x: int, m: int, q: int, r: int)
    requires m > 0 && 0 <= r < m && x == r + m * q
    ensures x / m == q && x % m == r
  {
    DivUnique(x, m, q, r);
  }

  lemma ReversedLow(v: nat, n: nat, k: nat)
    requires k <= n
    ensures Reversed(v, n) % Pow2(k) == Reversed(Prefix(v, n, k), k)
  {
    ReversedSplit(v, n, k, 0);
    ReversedBound(Prefix(v, n, k), k, 0);
    ModOfSum(Reversed(v, n), Pow2(k), ReversedFrom(v, n, k), Reversed(Prefix(v, n, k), k));
  }

  lemma {:induction false} ReversedInjectiveFrom(v: nat, w: nat, n: nat, d: nat, k: nat)
    requires d <= k <= n && ReversedFrom(v, n, d) == ReversedFrom(w, n, d)
    requires Prefix(v, n, d) == Prefix(w, n, d)
    ensures Prefix(v, n, k) == Prefix(w, n, k)
    decreases k - d
  {
    if d < k {
      assert Bit(v, n, d) == Bit(w, n, d);
      assert Prefix(v, n, d + 1) == 2 * Prefix(v, n, d) + Bit(v, n, d);
      assert Prefix(w, n, d + 1) == 2 * Prefix(w, n, d) + Bit(w, n, d);
      ReversedInjectiveFrom(v, w, n, d + 1, k);
    }
  }

  /** Bit reversal is injective on n-bit numbers. */
  lemma ReversedInjective(v: nat, w: nat, n: nat)
    requires v < Pow2(n) && w < Pow2(n) && Reversed(v, n) == Reversed(w, n)
    ensures v == w
  {
    PrefixZero(v, n);
    PrefixZero(w, n);
    ReversedInjectiveFrom(v, w, n, 0, n);
  }

  /** The first d bits of a least-significant-first buffer, read as a most-significant-first number. */
  function Forward(buf: nat, d: nat): nat
  {
    if d == 0 then 0 else 2 * Forward(buf, d - 1) + buf / Pow2(d - 1) % 2
  }

  lemma {:induction false} ForwardPrefix(buf: nat, n: nat, d: nat)
    requires d <= n
    ensures Prefix(Forward(buf, n), n, d) == Forward(buf, d)
    decreases n - d
  {
    if d < n { ForwardPrefix(buf, n, d + 1); }
  }

  lemma {:induction false} ForwardReversed(buf: nat, n: nat)
    ensures Reversed(Forward(buf, n), n) == buf % Pow2(n)
    ensures Forward(buf, n) < Pow2(n)
  {
    if n > 0 {
      ForwardReversed(buf, n - 1);
      var v := Forward(buf, n);
      ForwardPrefix(buf, n, n - 1);
      ReversedSplit(v, n, n - 1, 0);
      assert ReversedFrom(v, n, n - 1) == Bit(v, n, n - 1) == buf / Pow2(n - 1) % 2;
      DivPow2Step(buf, n - 1);
    }
  }
}
