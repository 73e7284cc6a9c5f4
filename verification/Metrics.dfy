/** The latency histogram and its percentile scan. */
module Metrics {
  import opened Prelude

  ghost predicate Ascending(bounds: seq<nat>) {
    forall i, j :: 0 <= i < j < |bounds| ==> bounds[i] <= bounds[j]
  }

  /** The first bucket whose bound is not exceeded; the last bucket is the overflow. */
  function BucketFrom(bounds: seq<nat>, x: nat, i: nat): (b: nat)
    requires i <= |bounds|
    ensures i <= b <= |bounds|
    ensures forall j :: i <= j < b ==> x > bounds[j]
    ensures b < |bounds| ==> x <= bounds[b]
    decreases |bounds| - i
  {
    if i == |bounds| then i else if x <= bounds[i] then i else BucketFrom(bounds, x, i + 1)
  }

  function BucketOf(bounds: seq<nat>, x: nat): nat {
    BucketFrom(bounds, x, 0)
  }

  function Maximum(xs: seq<nat>): nat {
    if xs == [] then 0 else Max(Maximum(xs[..|xs| - 1]), xs[|xs| - 1])
  }

  /** The bucket counts a list of samples gives. */
  function Counts(bounds: seq<nat>, xs: seq<nat>): (c: seq<nat>)
    ensures |c| == |bounds| + 1
  {
    if xs == [] then seq(|bounds| + 1, i => 0)
    else
      var before := Counts(bounds, xs[..|xs| - 1]);
      var b := BucketFrom(bounds, xs[|xs| - 1], 0);
      before[b := before[b] + 1]
  }

  class LatencyHistogram {
    const boundsUs: seq<nat>
    var buckets: seq<nat>
    var sumUs: nat
    var samples: nat
    var maxUs: nat
    /** Every measurement recorded so far, in microseconds. */
    ghost var recorded: seq<nat>

    ghost predicate Valid()
      reads this
    {
      && buckets == Counts(boundsUs, recorded)
      && samples == |recorded|
      && sumUs == Sum(recorded) % TWO_64
      && maxUs == Maximum(recorded)
    }

    constructor (bounds: seq<nat>)
      ensures Valid() && boundsUs == bounds && recorded == []
    {
      boundsUs, buckets := bounds, seq(|bounds| + 1, i => 0);
      sumUs, samples, maxUs, recorded := 0, 0, 0, [];
    }

    /** `update_max`, with no other thread interfering. */
    method UpdateMax(value: nat)
      modifies `maxUs
      ensures maxUs == Max(old(maxUs), value)
    {
      var current := maxUs;
      if value > current {
        maxUs := value;
      }
    }

    /** Records a latency; the cast to u64 and the sum wrap at 2^64. */
    method Record(latencyMicros: nat)
      requires Valid()
      modifies this
      ensures Valid() && recorded == old(recorded) + [latencyMicros % TWO_64]
    {
      var micros := latencyMicros % TWO_64;
      samples := samples + 1;
      WrappedSum(recorded, micros);
      sumUs := (sumUs + micros) % TWO_64;
      UpdateMax(micros);
      var bucket := |boundsUs|;
      for i := 0 to |boundsUs|
        invariant bucket == |boundsUs|
        invariant BucketFrom(boundsUs, micros, 0) == BucketFrom(boundsUs, micros, i)
      {
        if micros <= boundsUs[i] {
          bucket := i;
          break;
        }
      }
      assert bucket == BucketFrom(boundsUs, micros, 0);
      buckets := buckets[bucket := buckets[bucket] + 1];
      recorded := recorded + [micros];
      assert recorded[..|recorded| - 1] == old(recorded);
    }
  }

  /** The percentile of a histogram at rest: for every rank within the sample count it is exact. */
  method PercentileOf(h: LatencyHistogram, rank: nat) returns (r: Option<nat>)
    requires h.Valid() && Ascending(h.boundsUs) && rank <= USIZE_MAX
    ensures r == None <==> h.recorded == []
    ensures 1 <= rank <= |h.recorded| ==> Reported(h.boundsUs, h.recorded, rank, r.value)
    ensures rank > |h.recorded| > 0 ==> r == Some(Maximum(h.recorded))
  {
    ghost var fallback: bool;
    r, fallback := PercentileUs(h.boundsUs, h.buckets, h.samples, h.maxUs, rank);
    if 1 <= rank <= |h.recorded| {
      PercentileMeaning(h.boundsUs, h.recorded, rank);
    } else if rank > |h.recorded| > 0 {
      CountsSum(h.boundsUs, h.recorded);
      ScanRunsOff(h.buckets, rank);
    }
  }

  lemma ScanRunsOff(buckets: seq<nat>, rank: nat)
    requires Sum(buckets) < rank
    ensures ScanFrom(buckets, rank, 0) == |buckets|
  {
    var b := ScanFrom(buckets, rank, 0);
    if b < |buckets| {
      CumulativeStep(buckets, b);
    }
  }

  lemma WrappedSum(xs: seq<nat>, x: nat)
    ensures (Sum(xs) % TWO_64 + x) % TWO_64 == Sum(xs + [x]) % TWO_64
  {
    SumAppend(xs, [x]);
  }

  // ---------- Percentiles ----------

  /** Samples in the first `k` buckets. */
  function Cumulative(buckets: seq<nat>, k: nat): nat
    requires k <= |buckets|
  {
    Sum(buckets[..k])
  }

  /** The bucket at which the running total first reaches `target`, or one past the last. */
  function ScanFrom(buckets: seq<nat>, target: nat, i: nat): (b: nat)
    requires i <= |buckets|
    ensures i <= b <= |buckets|
    ensures forall j :: i < j <= b ==> Cumulative(buckets, j) < target
    ensures b < |buckets| ==> Cumulative(buckets, b + 1) >= target
    decreases |buckets| - i
  {
    if i == |buckets| then i
    else if Cumulative(buckets, i + 1) >= target then i
    else ScanFrom(buckets, target, i + 1)
  }

  /** The value reported for a bucket: its bound, or the maximum. */
  function Report(bounds: seq<nat>, buckets: seq<nat>, maxUs: nat, b: nat): nat {
    if b < |buckets| && b < |bounds| then bounds[b] else maxUs
  }

  /** What the scan reports for a rank. */
  function Percentile(bounds: seq<nat>, buckets: seq<nat>, maxUs: nat, rank: nat): nat {
    Report(bounds, buckets, maxUs, ScanFrom(buckets, Max(rank, 1), 0))
  }

  /** `percentile_us`, from the rank on; `fallback` tells whether the loop ran off the end. */
  method PercentileUs(bounds: seq<nat>, buckets: seq<nat>, samples: nat, maxUs: nat, rank: nat)
    returns (r: Option<nat>, ghost fallback: bool)
    requires rank <= USIZE_MAX
    ensures r == if samples == 0 then None else Some(Percentile(bounds, buckets, maxUs, rank))
    ensures samples > 0 ==> (fallback <==> Sum(buckets) < Max(rank, 1))
  {
    fallback := false;
    if samples == 0 {
      return None, false;
    }
    var target: nat := if rank >= 1 then rank else 1;
    var cumulative: nat := 0;
    for idx := 0 to |buckets|
      invariant cumulative == Min(Cumulative(buckets, idx), USIZE_MAX)
      invariant Cumulative(buckets, idx) < target
      invariant ScanFrom(buckets, target, 0) == ScanFrom(buckets, target, idx)
    {
      CumulativeStep(buckets, idx);
      cumulative := Min(cumulative + buckets[idx], USIZE_MAX);
      if cumulative < target {
        continue;
      }
      return Some(if idx < |bounds| then bounds[idx] else maxUs), false;
    }
    assert buckets[..|buckets|] == buckets;
    return Some(maxUs), true;
  }

  lemma CumulativeStep(buckets: seq<nat>, k: nat)
    requires k < |buckets|
    ensures Cumulative(buckets, k + 1) == Cumulative(buckets, k) + buckets[k]
    ensures Cumulative(buckets, k + 1) <= Sum(buckets)
  {
    SumAppend(buckets[..k], [buckets[k]]);
    SumSingle(buckets[k]);
    assert buckets[..k + 1] == buckets[..k] + [buckets[k]];
    SumAppend(buckets[..k + 1], buckets[k + 1..]);
    assert buckets == buckets[..k + 1] + buckets[k + 1..];
  }

  lemma SumSingle(x: nat)
    ensures Sum([x]) == x
  {
    assert [x][1..] == [];
  }

  // ---------- What the scan means for the recorded samples ----------

  function CountAtMost(xs: seq<nat>, v: int): nat {
    if xs == [] then 0 else CountAtMost(xs[..|xs| - 1], v) + (if xs[|xs| - 1] <= v then 1 else 0)
  }

  /** Samples that landed in the first `k` buckets. */
  function CountInFirst(bounds: seq<nat>, xs: seq<nat>, k: nat): nat {
    if xs == [] then 0
    else CountInFirst(bounds, xs[..|xs| - 1], k) + (if BucketOf(bounds, xs[|xs| - 1]) < k then 1 else 0)
  }

  lemma CumulativeBump(c: seq<nat>, b: nat, k: nat)
    requires b < |c| && k <= |c|
    ensures Cumulative(c[b := c[b] + 1], k) == Cumulative(c, k) + if b < k then 1 else 0
  {
    if b < k {
      assert c[b := c[b] + 1][..k] == c[..k][b := c[b] + 1];
      SumUpdate(c[..k], b, c[b] + 1);
    } else {
      assert c[b := c[b] + 1][..k] == c[..k];
    }
  }

  lemma {:induction false} CumulativeCounts(bounds: seq<nat>, xs: seq<nat>, k: nat)
    requires k <= |bounds| + 1
    ensures Cumulative(Counts(bounds, xs), k) == CountInFirst(bounds, xs, k)
  {
    if xs == [] {
      SumZero(Counts(bounds, xs)[..k]);
    } else {
      var before := xs[..|xs| - 1];
      CumulativeCounts(bounds, before, k);
      CumulativeBump(Counts(bounds, before), BucketOf(bounds, xs[|xs| - 1]), k);
    }
  }

  /** With ascending bounds, the first `k` buckets hold the samples up to bound `k - 1`. */
  lemma {:induction false} FirstBuckets(bounds: seq<nat>, xs: seq<nat>, k: nat)
    requires Ascending(bounds) && 0 < k <= |bounds|
    ensures CountInFirst(bounds, xs, k) == CountAtMost(xs, bounds[k - 1])
  {
    if xs != [] {
      FirstBuckets(bounds, xs[..|xs| - 1], k);
      var x := xs[|xs| - 1];
      assert BucketOf(bounds, x) < k <==> x <= bounds[k - 1];
    }
  }

  lemma {:induction false} AllBuckets(bounds: seq<nat>, xs: seq<nat>)
    ensures CountInFirst(bounds, xs, |bounds| + 1) == |xs|
  {
    if xs != [] {
      AllBuckets(bounds, xs[..|xs| - 1]);
    }
  }

  /** Bucket counts add up to the number of samples, so no rank within it runs off the end. */
  lemma CountsSum(bounds: seq<nat>, xs: seq<nat>)
    ensures Sum(Counts(bounds, xs)) == |xs|
  {
    var c := Counts(bounds, xs);
    assert c[..|bounds| + 1] == c;
    CumulativeCounts(bounds, xs, |bounds| + 1);
    AllBuckets(bounds, xs);
  }

  /**
    What a percentile means, without reference to buckets: the smallest bound
    with at least `rank` samples at or below it, or the true maximum if there
    is none.
   */
  ghost predicate Reported(bounds: seq<nat>, xs: seq<nat>, rank: nat, p: nat) {
    || (exists i :: 0 <= i < |bounds| && p == bounds[i] && FirstReaching(bounds, xs, rank, i))
    || (p == Maximum(xs) && BelowUpTo(bounds, xs, rank, |bounds|))
  }

  ghost predicate FirstReaching(bounds: seq<nat>, xs: seq<nat>, rank: nat, i: nat)
    requires i < |bounds|
  {
    CountAtMost(xs, bounds[i]) >= rank && BelowUpTo(bounds, xs, rank, i)
  }

  ghost predicate BelowUpTo(bounds: seq<nat>, xs: seq<nat>, rank: nat, i: nat)
    requires i <= |bounds|
  {
    forall j :: 0 <= j < i ==> CountAtMost(xs, bounds[j]) < rank
  }

  lemma CumulativeIsCount(bounds: seq<nat>, xs: seq<nat>, j: nat)
    requires Ascending(bounds) && j < |bounds|
    ensures Cumulative(Counts(bounds, xs), j + 1) == CountAtMost(xs, bounds[j])
  {
    CumulativeCounts(bounds, xs, j + 1);
    FirstBuckets(bounds, xs, j + 1);
  }

  lemma ScanEndsInside(bounds: seq<nat>, xs: seq<nat>, rank: nat)
    requires 1 <= rank <= |xs|
    ensures ScanFrom(Counts(bounds, xs), rank, 0) <= |bounds|
  {
    hide Counts;
    var c := Counts(bounds, xs);
    CountsSum(bounds, xs);
    assert c[..|c|] == c;
    assert ScanFrom(c, rank, 0) == |c| ==> Cumulative(c, |c|) < rank;
  }

  lemma PercentileMeaning(bounds: seq<nat>, xs: seq<nat>, rank: nat)
    requires Ascending(bounds) && 1 <= rank <= |xs|
    ensures Reported(bounds, xs, rank, Percentile(bounds, Counts(bounds, xs), Maximum(xs), rank))
  {
    hide Counts, CountAtMost, Cumulative, Sum, Maximum, ScanFrom, Ascending;
    var c := Counts(bounds, xs);
    var b := ScanFrom(c, rank, 0);
    ScanEndsInside(bounds, xs, rank);
    forall j | 0 <= j < |bounds|
      ensures Cumulative(c, j + 1) == CountAtMost(xs, bounds[j])
    {
      CumulativeIsCount(bounds, xs, j);
    }
    assert BelowUpTo(bounds, xs, rank, b) by {
      forall j | 0 <= j < b
        ensures CountAtMost(xs, bounds[j]) < rank
      {
        assert Cumulative(c, j + 1) < rank;
      }
    }
    assert b < |bounds| ==> FirstReaching(bounds, xs, rank, b);
  }

  lemma {:induction false} CountMonotone(xs: seq<nat>, v: int, w: int)
    requires v <= w
    ensures CountAtMost(xs, v) <= CountAtMost(xs, w)
  {
    if xs != [] {
      CountMonotone(xs[..|xs| - 1], v, w);
    }
  }

  lemma {:induction false} CountUpToMaximum(xs: seq<nat>, v: nat)
    requires Maximum(xs) <= v
    ensures CountAtMost(xs, v) == |xs|
  {
    if xs != [] {
      CountUpToMaximum(xs[..|xs| - 1], v);
    }
  }

  lemma {:induction false} MaximumIsLargest(xs: seq<nat>, v: nat)
    requires v in xs
    ensures v <= Maximum(xs)
  {
    if v != xs[|xs| - 1] {
      MaximumIsLargest(xs[..|xs| - 1], v);
    }
  }

  /** `v` is the `rank`-th smallest sample. */
  ghost predicate IsRankth(xs: seq<nat>, v: nat, rank: nat) {
    v in xs && CountAtMost(xs, v - 1) < rank <= CountAtMost(xs, v)
  }

  /** A bound with fewer than `rank` samples up to it lies below the `rank`-th sample; the others do not. */
  lemma RankthAgainstBound(xs: seq<nat>, v: nat, rank: nat, b: nat)
    requires IsRankth(xs, v, rank)
    ensures b < v <==> CountAtMost(xs, b) < rank
  {
    if b < v {
      CountMonotone(xs, b, v - 1);
    } else {
      CountMonotone(xs, v, b);
    }
  }

  /**
    The report is never below the `rank`-th smallest sample, and that sample
    exceeds every bound smaller than the report.
   */
  lemma ReportCoversRankth(bounds: seq<nat>, xs: seq<nat>, rank: nat, v: nat)
    requires Ascending(bounds) && 1 <= rank <= |xs| && IsRankth(xs, v, rank)
    ensures var p := Percentile(bounds, Counts(bounds, xs), Maximum(xs), rank);
      v <= p && forall j :: 0 <= j < |bounds| && bounds[j] < p ==> bounds[j] < v
  {
    hide Percentile, CountAtMost, Counts, Maximum, IsRankth;
    PercentileMeaning(bounds, xs, rank);
    var p := Percentile(bounds, Counts(bounds, xs), Maximum(xs), rank);
    forall j | 0 <= j < |bounds|
      ensures bounds[j] < v <==> CountAtMost(xs, bounds[j]) < rank
    {
      RankthAgainstBound(xs, v, rank, bounds[j]);
    }
    RankthIsSample(xs, v, rank);
  }

  lemma RankthIsSample(xs: seq<nat>, v: nat, rank: nat)
    requires IsRankth(xs, v, rank)
    ensures v <= Maximum(xs)
  {
    MaximumIsLargest(xs, v);
  }

  lemma OverflowExceedsBounds(bounds: seq<nat>, xs: seq<nat>, rank: nat, i: nat)
    requires rank <= |xs| && i < |bounds| && BelowUpTo(bounds, xs, rank, |bounds|)
    ensures bounds[i] < Maximum(xs)
  {
    if Maximum(xs) <= bounds[i] {
      CountUpToMaximum(xs, bounds[i]);
    }
  }

  /** A higher rank never reports a lower value. */
  lemma PercentileMonotone(bounds: seq<nat>, xs: seq<nat>, rank: nat, rank': nat)
    requires Ascending(bounds) && 1 <= rank <= rank' <= |xs|
    ensures Percentile(bounds, Counts(bounds, xs), Maximum(xs), rank)
         <= Percentile(bounds, Counts(bounds, xs), Maximum(xs), rank')
  {
    hide Percentile, CountAtMost, Counts;
    var c, m := Counts(bounds, xs), Maximum(xs);
    var p, p' := Percentile(bounds, c, m, rank), Percentile(bounds, c, m, rank');
    PercentileMeaning(bounds, xs, rank);
    PercentileMeaning(bounds, xs, rank');
    if exists i :: 0 <= i < |bounds| && p == bounds[i] && FirstReaching(bounds, xs, rank, i) {
      var i :| 0 <= i < |bounds| && p == bounds[i] && FirstReaching(bounds, xs, rank, i);
      if p' == m && BelowUpTo(bounds, xs, rank', |bounds|) {
        OverflowExceedsBounds(bounds, xs, rank', i);
      } else {
        var i' :| 0 <= i' < |bounds| && p' == bounds[i'] && FirstReaching(bounds, xs, rank', i');
        assert i <= i';
      }
    }
  }

  // ---------- The maximum under concurrency ----------

  /** A thread inside `update_max`: its value and the maximum it last saw. */
  datatype Updater = Pending(value: nat) | Looping(value: nat, seen: nat) | Finished(value: nat)

  datatype MaxState = MaxState(max: nat, updaters: seq<Updater>)

  /** One atomic action of thread `t`: the first load, or a compare-exchange. */
  function MaxStep(st: MaxState, t: nat): MaxState
    requires t < |st.updaters|
  {
    match st.updaters[t]
    case Pending(v) => st.(updaters := st.updaters[t := Enter(v, st.max)])
    case Looping(v, seen) =>
      if st.max == seen then MaxState(v, st.updaters[t := Finished(v)])
      else st.(updaters := st.updaters[t := Enter(v, st.max)])
    case Finished(_) => st
  }

  /** The loop condition: done as soon as the value is not above what was seen. */
  function Enter(value: nat, seen: nat): Updater {
    if value > seen then Looping(value, seen) else Finished(value)
  }

  function MaxRun(st: MaxState, schedule: seq<nat>): MaxState
    requires forall i :: 0 <= i < |schedule| ==> schedule[i] < |st.updaters|
    decreases |schedule|
  {
    if schedule == [] then st else MaxRun(MaxStep(st, schedule[0]), schedule[1..])
  }

  /** The maximum is one of the values, or the initial one, and covers every finished thread. */
  ghost predicate MaxInv(st: MaxState, initial: nat, values: seq<nat>) {
    && |values| == |st.updaters|
    && initial <= st.max
    && (st.max == initial || st.max in values)
    && forall t :: 0 <= t < |values| ==>
         && st.updaters[t].value == values[t]
         && (st.updaters[t].Finished? ==> values[t] <= st.max)
         && (st.updaters[t].Looping? ==> st.updaters[t].seen <= st.max && st.updaters[t].seen < values[t])
  }

  lemma MaxStepKeeps(st: MaxState, t: nat, initial: nat, values: seq<nat>)
    requires MaxInv(st, initial, values) && t < |st.updaters|
    ensures MaxInv(MaxStep(st, t), initial, values)
  {
    assert st.updaters[t].value == values[t] && values[t] in values;
  }

  /**
    Under every schedule of loads and compare-exchanges, once all threads are
    done the shared maximum is the largest of the initial value and all theirs.
   */
  lemma {:induction false} MaxIsExact(st: MaxState, schedule: seq<nat>, initial: nat, values: seq<nat>)
    requires MaxInv(st, initial, values)
    requires forall i :: 0 <= i < |schedule| ==> schedule[i] < |st.updaters|
    ensures var end := MaxRun(st, schedule);
      && MaxInv(end, initial, values)
      && ((forall t :: 0 <= t < |end.updaters| ==> end.updaters[t].Finished?) ==> end.max == Max(initial, Maximum(values)))
    decreases |schedule|
  {
    if schedule == [] {
      if forall t :: 0 <= t < |st.updaters| ==> st.updaters[t].Finished? {
        MaximumBounded(values, st.max);
        if st.max != initial {
          MaximumIsLargest(values, st.max);
        }
      }
    } else {
      MaxStepKeeps(st, schedule[0], initial, values);
      MaxIsExact(MaxStep(st, schedule[0]), schedule[1..], initial, values);
    }
  }

  lemma {:induction false} MaximumBounded(xs: seq<nat>, m: nat)
    requires forall i :: 0 <= i < |xs| ==> xs[i] <= m
    ensures Maximum(xs) <= m
  {
    if xs != [] {
      MaximumBounded(xs[..|xs| - 1], m);
    }
  }
}
