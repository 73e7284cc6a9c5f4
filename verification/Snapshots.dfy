/**
  A snapshot of the latency histogram taken while samples are being recorded.
  A recorder bumps the sample count first and its bucket later; the reader
  loads the buckets one by one and the sample count last. Each step is one
  atomic operation, in any order.
 */
module Snapshots {
  import opened Prelude
  import opened Metrics

  /** A thread inside `record`; `seen` says whether the reader had yet to load its bucket. */
  datatype Recorder = Waiting(bucket: nat) | Counted(bucket: nat) | Binned(bucket: nat, seen: bool)

  /** What a finished snapshot holds, and how many of its samples are in no bucket it loaded. */
  datatype Snapshot = Snapshot(samples: nat, missed: nat)

  /** The live histogram, the recorders, and what the reader has loaded so far. */
  datatype Race = Race(buckets: seq<nat>, samples: nat, recorders: seq<Recorder>, read: seq<nat>, taken: Option<Snapshot>)

  datatype Step = Count(t: nat) | Bin(t: nat) | LoadBucket | LoadSamples

  predicate Enabled(r: Race, step: Step) {
    match step
    case Count(t) => t < |r.recorders| && r.recorders[t].Waiting?
    case Bin(t) => t < |r.recorders| && r.recorders[t].Counted? && r.recorders[t].bucket < |r.buckets|
    case LoadBucket => |r.read| < |r.buckets|
    case LoadSamples => |r.read| == |r.buckets| && r.taken.None?
  }

  function Apply(r: Race, step: Step): Race
    requires Enabled(r, step)
  {
    match step
    case Count(t) =>
      r.(samples := r.samples + 1, recorders := r.recorders[t := Counted(r.recorders[t].bucket)])
    case Bin(t) =>
      var b := r.recorders[t].bucket;
      r.(buckets := r.buckets[b := r.buckets[b] + 1], recorders := r.recorders[t := Binned(b, |r.read| <= b)])
    case LoadBucket => r.(read := r.read + [r.buckets[|r.read|]])
    case LoadSamples => r.(taken := Some(Snapshot(r.samples, Total(r.recorders, true) - Total(r.recorders, false))))
  }

  /** 1 for a recorder that has counted its sample; without `unseen`, only if its bucket will be loaded with it. */
  function Weight(w: Recorder, unseen: bool): nat {
    match w
    case Waiting(_) => 0
    case Counted(_) => if unseen then 1 else 0
    case Binned(_, seen) => if unseen || seen then 1 else 0
  }

  function Weights(recorders: seq<Recorder>, unseen: bool): seq<nat> {
    seq(|recorders|, i requires 0 <= i < |recorders| => Weight(recorders[i], unseen))
  }

  function Total(recorders: seq<Recorder>, unseen: bool): (n: nat)
    ensures n <= Sum(Weights(recorders, true))
  {
    WeightsOrdered(recorders);
    Sum(Weights(recorders, unseen))
  }

  lemma {:induction false} WeightsOrdered(recorders: seq<Recorder>)
    ensures Sum(Weights(recorders, false)) <= Sum(Weights(recorders, true))
    decreases |recorders|
  {
    if recorders != [] {
      WeightsOrdered(recorders[1..]);
      assert Weights(recorders, false)[1..] == Weights(recorders[1..], false);
      assert Weights(recorders, true)[1..] == Weights(recorders[1..], true);
    }
  }

  lemma TotalUpdate(recorders: seq<Recorder>, t: nat, w: Recorder, unseen: bool)
    requires t < |recorders|
    ensures Total(recorders[t := w], unseen) + Weight(recorders[t], unseen) == Total(recorders, unseen) + Weight(w, unseen)
  {
    SumUpdate(Weights(recorders, unseen), t, Weight(w, unseen));
    assert Weights(recorders[t := w], unseen) == Weights(recorders, unseen)[t := Weight(w, unseen)];
  }

  /**
    With `base` samples recorded beforehand: the sample count is those plus the
    recorders that have counted; what was loaded, plus what the remaining
    buckets hold, is those plus the recorders the reader does not miss.
   */
  ghost predicate Inv(r: Race, base: nat) {
    && |r.read| <= |r.buckets|
    && r.samples == base + Total(r.recorders, true)
    && Sum(r.read) + Sum(r.buckets[|r.read|..]) == base + Total(r.recorders, false)
    && (r.taken.Some? ==> |r.read| == |r.buckets| && r.taken.value.samples == Sum(r.read) + r.taken.value.missed)
  }

  lemma BinKeeps(r: Race, t: nat, base: nat)
    requires Inv(r, base) && Enabled(r, Bin(t))
    ensures Inv(Apply(r, Bin(t)), base)
  {
    var b, k := r.recorders[t].bucket, |r.read|;
    var r' := Apply(r, Bin(t));
    TotalUpdate(r.recorders, t, r'.recorders[t], true);
    TotalUpdate(r.recorders, t, r'.recorders[t], false);
    if k <= b {
      assert r'.buckets[k..] == r.buckets[k..][b - k := r.buckets[b] + 1];
      SumUpdate(r.buckets[k..], b - k, r.buckets[b] + 1);
    } else {
      assert r'.buckets[k..] == r.buckets[k..];
    }
  }

  lemma StepKeeps(r: Race, step: Step, base: nat)
    requires Inv(r, base) && Enabled(r, step)
    ensures Inv(Apply(r, step), base)
  {
    hide Sum, Total, Weights;
    match step {
      case Count(t) =>
        TotalUpdate(r.recorders, t, Counted(r.recorders[t].bucket), true);
        TotalUpdate(r.recorders, t, Counted(r.recorders[t].bucket), false);
      case Bin(t) => BinKeeps(r, t, base);
      case LoadBucket =>
        var k := |r.read|;
        SumAppend(r.read, [r.buckets[k]]);
        SumSingle(r.buckets[k]);
        SumAppend([r.buckets[k]], r.buckets[k + 1..]);
        assert r.buckets[k..] == [r.buckets[k]] + r.buckets[k + 1..];
      case LoadSamples =>
        assert Sum(r.buckets[|r.read|..]) == 0 by {
          SumZero(r.buckets[|r.read|..]);
        }
    }
  }

  ghost predicate Possible(r: Race, steps: seq<Step>)
    decreases |steps|
  {
    steps == [] || (Enabled(r, steps[0]) && Possible(Apply(r, steps[0]), steps[1..]))
  }

  ghost function Execute(r: Race, steps: seq<Step>): Race
    requires Possible(r, steps)
    decreases |steps|
  {
    if steps == [] then r else Execute(Apply(r, steps[0]), steps[1..])
  }

  lemma {:induction false} RunKeeps(r: Race, steps: seq<Step>, base: nat)
    requires Inv(r, base) && Possible(r, steps)
    ensures Inv(Execute(r, steps), base) && |Execute(r, steps).buckets| == |r.buckets|
    decreases |steps|
  {
    hide Inv;
    if steps != [] {
      StepKeeps(r, steps[0], base);
      RunKeeps(Apply(r, steps[0]), steps[1..], base);
    }
  }

  /** A histogram at rest, a reader that has not begun, recorders that have not either. */
  ghost predicate Init(r: Race) {
    && r.buckets != [] && r.samples == Sum(r.buckets) && r.read == [] && r.taken.None?
    && forall t :: 0 <= t < |r.recorders| ==> r.recorders[t].Waiting?
  }

  /**
    Under every schedule, a finished snapshot counts as many samples more than
    its buckets hold as it missed, and the percentile scan runs off the end of
    the buckets for exactly the `missed` highest ranks.
   */
  lemma FallbackIffMissed(r: Race, steps: seq<Step>, rank: nat)
    requires Init(r) && Possible(r, steps) && Execute(r, steps).taken.Some?
    requires 1 <= rank <= Execute(r, steps).taken.value.samples
    ensures var end := Execute(r, steps);
      var Snapshot(samples, missed) := end.taken.value;
      && samples == Sum(end.read) + missed
      && (ScanFrom(end.read, rank, 0) == |end.read| <==> rank > samples - missed)
  {
    SumZero(Weights(r.recorders, true));
    SumZero(Weights(r.recorders, false));
    assert r.buckets[0..] == r.buckets;
    RunKeeps(r, steps, r.samples);
    var read := Execute(r, steps).read;
    assert read[..|read|] == read && Cumulative(read, |read|) == Sum(read);
    if Sum(read) < rank {
      ScanRunsOff(read, rank);
    }
  }

  /** One recorder and one bucket. */
  function OneRecorder(samples: nat, w: Recorder, read: seq<nat>, taken: Option<Snapshot>): Race {
    Race([0], samples, [w], read, taken)
  }

  /** The fallback does happen: one sample is counted, and not yet binned when its bucket is loaded. */
  lemma FallbackHappens()
    ensures var r, steps := OneRecorder(0, Waiting(0), [], None), [Count(0), LoadBucket, LoadSamples];
      && Init(r) && Possible(r, steps)
      && Execute(r, steps).taken == Some(Snapshot(1, 1))
      && ScanFrom(Execute(r, steps).read, 1, 0) == |Execute(r, steps).read|
  {
    hide Possible, Execute, ScanFrom, Total;
    var r, counted := OneRecorder(0, Waiting(0), [], None), OneRecorder(1, Counted(0), [], None);
    var loaded, end := OneRecorder(1, Counted(0), [0], None), OneRecorder(1, Counted(0), [0], Some(Snapshot(1, 1)));
    assert Apply(r, Count(0)).recorders == counted.recorders;
    assert Apply(counted, LoadBucket).read == loaded.read;
    OneMissed();
    NoSteps(end);
    Chain(loaded, LoadSamples, []);
    Chain(counted, LoadBucket, [LoadSamples] + []);
    Chain(r, Count(0), [LoadBucket] + ([LoadSamples] + []));
    assert [Count(0)] + ([LoadBucket] + ([LoadSamples] + [])) == [Count(0), LoadBucket, LoadSamples];
    SumSingle(0);
    ScanRunsOff(end.read, 1);
  }

  lemma OneMissed()
    ensures Total([Counted(0)], true) == 1 && Total([Counted(0)], false) == 0
  {
    SumSingle(1);
    SumSingle(0);
    assert Weights([Counted(0)], true) == [1] && Weights([Counted(0)], false) == [0];
  }

  lemma NoSteps(r: Race)
    ensures Possible(r, []) && Execute(r, []) == r
  {}

  lemma Chain(r: Race, step: Step, later: seq<Step>)
    requires Enabled(r, step) && Possible(Apply(r, step), later)
    ensures Possible(r, [step] + later) && Execute(r, [step] + later) == Execute(Apply(r, step), later)
  {
    assert ([step] + later)[1..] == later;
  }
}
