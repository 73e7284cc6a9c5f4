/**
  Shard selection: the shard count is a power of two, a key's hash and the
  eviction cursor are reduced to a shard number with a bit mask.
 */
module Masking {
  import opened Prelude

  function Pow2(k: nat): (r: nat)
    ensures r > 0
  {
    if k == 0 then 1 else 2 * Pow2(k - 1)
  }

  /** Bitwise conjunction of two unsigned words. */
  function And(a: nat, b: nat): nat {
    if a == 0 || b == 0 then 0 else (a % 2) * (b % 2) + 2 * And(a / 2, b / 2)
  }

  // ---------- Division ----------

  lemma ProductAtLeast(n: int, k: int)
    requires n > 0 && k >= 1
    ensures n * k >= n
  {}

  lemma SmallMultiple(n: int, k: int)
    requires n > 0 && -n < n * k < n
    ensures k == 0
  {
    if k >= 1 {
      ProductAtLeast(n, k);
    }
    if k <= -1 {
      ProductAtLeast(n, -k);
    }
  }

  lemma Divide(x: nat, n: nat)
    requires n > 0
    ensures x == n * (x / n) + x % n && 0 <= x % n < n && x / n >= 0
  {}

  lemma DivideUnique(x: nat, n: nat, q: nat, r: nat)
    requires n > 0 && x == n * q + r && r < n
    ensures x % n == r && x / n == q
  {
    Divide(x, n);
    var q', r' := x / n, x % n;
    assert n * (q' - q) == n * q' - n * q;
    SmallMultiple(n, q' - q);
  }

  lemma Distribute(n: int, a: int, b: int)
    ensures n * (a + b) == n * a + n * b
  {}

  /** The quotient and remainder of a sum of two divided numbers. */
  lemma DivideSum(n: nat, q: nat, r: nat, a: nat, b: nat)
    requires r < n && b < n
    ensures r + b < n ==> (n * q + r + (n * a + b)) / n == q + a && (n * q + r + (n * a + b)) % n == r + b
    ensures r + b >= n ==> (n * q + r + (n * a + b)) / n == q + a + 1 && (n * q + r + (n * a + b)) % n == r + b - n
  {
    Distribute(n, q, a);
    Distribute(n, q + a, 1);
    if r + b < n {
      DivideUnique(n * q + r + (n * a + b), n, q + a, r + b);
    } else {
      DivideUnique(n * q + r + (n * a + b), n, q + a + 1, r + b - n);
    }
  }

  lemma HalveModulo(x: nat, m: nat)
    requires m > 0
    ensures x % (2 * m) == x % 2 + 2 * ((x / 2) % m)
  {
    Divide(x / 2, m);
    var q, r := (x / 2) / m, (x / 2) % m;
    assert (2 * m) * q == 2 * (m * q);
    DivideUnique(x, 2 * m, q, 2 * r + x % 2);
  }

  /** Masking with a power of two less one is reduction modulo that power. */
  lemma {:induction false} MaskIsModulo(x: nat, k: nat)
    ensures And(x, Pow2(k) - 1) == x % Pow2(k)
    decreases k
  {
    if k > 0 {
      var m := Pow2(k - 1);
      HalveModulo(x, m);
      MaskIsModulo(x / 2, k - 1);
      assert (2 * m - 1) % 2 == 1 && (2 * m - 1) / 2 == m - 1;
      if x > 0 {
        assert And(x, 2 * m - 1) == x % 2 + 2 * And(x / 2, m - 1);
      }
    }
  }

  lemma {:induction false} Pow2Splits(j: nat, k: nat)
    requires j <= k
    ensures Pow2(k) == Pow2(k - j) * Pow2(j)
    decreases k - j
  {
    if j < k {
      Pow2Splits(j, k - 1);
      assert Pow2(k) == 2 * (Pow2(k - 1 - j) * Pow2(j)) == (2 * Pow2(k - 1 - j)) * Pow2(j);
    }
  }

  lemma {:induction false} Pow2Monotone(j: nat, k: nat)
    requires j <= k
    ensures Pow2(j) <= Pow2(k)
    decreases k - j
  {
    if j < k {
      Pow2Monotone(j, k - 1);
    }
  }

  lemma Pow2Of64()
    ensures Pow2(64) == TWO_64
  {
    assert Pow2(4) == 16;
    Pow2Splits(4, 8);
    Pow2Splits(8, 16);
    Pow2Splits(16, 32);
    Pow2Splits(32, 64);
  }

  lemma ModOfMultiple(x: nat, n: nat, q: nat)
    requires n > 0 && q > 0
    ensures q * n > 0 && (x % (q * n)) % n == x % n
  {
    ProductAtLeast(n, q);
    var big := q * n;
    Divide(x, big);
    var a, rest := x / big, x % big;
    Divide(rest, n);
    var b := rest / n;
    assert big * a == n * (q * a);
    Distribute(n, q * a, b);
    DivideUnique(x, n, q * a + b, rest % n);
  }

  /** Incrementing a wrapped counter. */
  lemma WrappedIncrement(x: nat, m: nat)
    requires m > 1
    ensures (x % m + 1) % m == (x + 1) % m
  {
    Divide(x, m);
    DivideSum(m, x / m, x % m, 0, 1);
    DivideSum(m, 0, x % m, 0, 1);
  }

  /** The cursor, although wrapped at 2^64, counts rounds modulo the shard count. */
  lemma CursorModulo(rounds: nat, bits: nat)
    requires bits <= 64
    ensures (rounds % TWO_64) % Pow2(bits) == rounds % Pow2(bits)
  {
    Pow2Of64();
    Pow2Splits(bits, 64);
    ModOfMultiple(rounds, Pow2(bits), Pow2(64 - bits));
  }

  /** The shard the eviction scan looks at: machine addition wraps at 2^64. */
  function ScanIndex(start: nat, offset: nat, mask: nat): nat {
    And((start + offset) % TWO_64, mask)
  }

  /** The shard `offset` places after `start`, counting round. */
  function RoundRobin(start: nat, offset: nat, n: nat): (s: nat)
    requires n > 0
    ensures s < n
  {
    (start + offset) % n
  }

  /** Wrap-around is harmless: the scan position is the sum modulo the shard count. */
  lemma ScanIndexIsModulo(start: nat, offset: nat, bits: nat)
    requires bits <= 64
    ensures ScanIndex(start, offset, Pow2(bits) - 1) == RoundRobin(start, offset, Pow2(bits))
  {
    Pow2Of64();
    Pow2Splits(bits, 64);
    MaskIsModulo((start + offset) % TWO_64, bits);
    ModOfMultiple(start + offset, Pow2(bits), Pow2(64 - bits));
  }

  /** The one offset at which a scan from `start` reaches shard `s`. */
  function OffsetOf(start: nat, n: nat, s: nat): (offset: nat)
    requires s < n
    ensures offset < n && (offset == 0 <==> s == start % n)
  {
    if s >= start % n then s - start % n else s + n - start % n
  }

  /** Counting round from `start`, each shard is reached at exactly one offset. */
  lemma RoundRobinReaches(start: nat, n: nat, s: nat, offset: nat)
    requires s < n && offset < n
    ensures RoundRobin(start, offset, n) == s <==> offset == OffsetOf(start, n, s)
  {
    Divide(start, n);
    DivideSum(n, start / n, start % n, 0, offset);
  }

  /**
    From any cursor, including one that wraps, a full scan visits every shard
    exactly once.
   */
  lemma ScanVisitsOnce(start: nat, bits: nat, s: nat, offset: nat)
    requires bits <= 64 && s < Pow2(bits) && offset < Pow2(bits)
    ensures ScanIndex(start, offset, Pow2(bits) - 1) == s <==> offset == OffsetOf(start, Pow2(bits), s)
  {
    ScanIndexIsModulo(start, offset, bits);
    RoundRobinReaches(start, Pow2(bits), s, offset);
    hide ScanIndex;
  }

  /** `normalize_shard_count`: the least power of two that is at least `max(count, 1)`. */
  function NormalizeShardCount(count: nat): (bits: nat)
    ensures Pow2(bits) >= Max(count, 1)
    ensures forall k: nat :: Pow2(k) >= Max(count, 1) ==> Pow2(bits) <= Pow2(k)
  {
    NextPowerOfTwo(Max(count, 1), 0)
  }

  function NextPowerOfTwo(count: nat, k: nat): (bits: nat)
    requires count >= 1
    requires k == 0 || Pow2(k - 1) < count
    ensures Pow2(bits) >= count
    ensures forall j: nat :: Pow2(j) >= count ==> Pow2(bits) <= Pow2(j)
    decreases if Pow2(k) >= count then 0 else count - Pow2(k)
  {
    if Pow2(k) >= count then
      LeastPower(count, k);
      k
    else NextPowerOfTwo(count, k + 1)
  }

  lemma LeastPower(count: nat, k: nat)
    requires count >= 1 && Pow2(k) >= count
    requires k == 0 || Pow2(k - 1) < count
    ensures forall j: nat :: Pow2(j) >= count ==> Pow2(k) <= Pow2(j)
  {
    forall j: nat | Pow2(j) >= count
      ensures Pow2(k) <= Pow2(j)
    {
      if j >= k {
        Pow2Monotone(k, j);
      } else {
        Pow2Monotone(j, k - 1);
      }
    }
  }

  /** No power of two overflows `usize` when the requested count is at most 2^63. */
  lemma NormalizedBits(count: nat)
    requires count <= 0x8000_0000_0000_0000
    ensures NormalizeShardCount(count) <= 63
  {
    var bits, top := NormalizeShardCount(count), 63;
    Pow2Of64();
    assert Pow2(top + 1) == 2 * Pow2(top);
    if bits > top {
      Pow2Monotone(top + 1, bits);
    }
  }

  // ---------- Fairness of round-robin eviction ----------

  /** How often shard `s` occurs among the rounds `from .. from + k` of an eviction log. */
  ghost function Hits(victims: seq<nat>, from: nat, k: nat, s: nat): nat
    requires from + k <= |victims|
  {
    if k == 0 then 0
    else Hits(victims, from, k - 1, s) + (if victims[from + k - 1] == s then 1 else 0)
  }

  /** Later rounds do not change what was counted before. */
  lemma {:induction false} HitsAppend(victims: seq<nat>, from: nat, k: nat, s: nat, v: nat)
    requires from + k <= |victims|
    ensures Hits(victims + [v], from, k, s) == Hits(victims, from, k, s)
  {
    if k > 0 {
      HitsAppend(victims, from, k - 1, s, v);
    }
  }

  /** Rounds below `x` whose number is `s` modulo `n`. */
  function RoundsBelow(x: nat, n: nat, s: nat): nat
    requires s < n
  {
    (x + (n - 1 - s)) / n
  }

  lemma RoundsStep(x: nat, n: nat, s: nat)
    requires s < n
    ensures RoundsBelow(x + 1, n, s) == RoundsBelow(x, n, s) + (if x % n == s then 1 else 0)
  {
    var c := n - 1 - s;
    Divide(x, n);
    DivideSum(n, x / n, x % n, 0, c);
    if c + 1 < n {
      DivideSum(n, x / n, x % n, 0, c + 1);
    } else {
      DivideSum(n, x / n, x % n, 1, 0);
    }
  }

  lemma {:induction false} HitsCounted(victims: seq<nat>, from: nat, k: nat, n: nat, s: nat)
    requires s < n && from + k <= |victims|
    requires forall j :: from <= j < from + k ==> victims[j] == j % n
    ensures Hits(victims, from, k, s) == RoundsBelow(from + k, n, s) - RoundsBelow(from, n, s)
  {
    if k > 0 {
      HitsCounted(victims, from, k - 1, n, s);
      RoundsStep(from + k - 1, n, s);
    }
  }

  lemma FloorDifference(y: nat, k: nat, n: nat)
    requires n > 0
    ensures k / n <= (y + k) / n - y / n <= (k + n - 1) / n
  {
    Divide(y, n);
    Divide(k, n);
    DivideSum(n, y / n, y % n, k / n, k % n);
    DivideSum(n, k / n, k % n, 0, n - 1);
  }

  /**
    While every round takes its own shard, any window of `k` consecutive
    evictions hits each of the `n` shards floor(k/n) or ceil(k/n) times.
   */
  lemma RoundRobinIsFair(victims: seq<nat>, from: nat, k: nat, n: nat, s: nat)
    requires s < n && from + k <= |victims|
    requires forall j :: from <= j < from + k ==> victims[j] == j % n
    ensures k / n <= Hits(victims, from, k, s) <= (k + n - 1) / n
  {
    HitsCounted(victims, from, k, n, s);
    FloorDifference(from + (n - 1 - s), k, n);
  }
}
