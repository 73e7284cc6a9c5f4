/** Whole runs of the engine against the LRU cache and the reference map. */
module EngineRuns {
  import opened Prelude
  import opened Store
  import opened EngineState
  import opened LruList
  import opened LruCache
  import opened Engine

  /** `small` shows what `big` shows, except for keys that are `gone`. */
  ghost predicate Sees(small: Store, big: Store, now: nat, gone: set<Key>) {
    forall k :: SeesKey(small, big, now, gone, k)
  }

  predicate SeesKey(small: Store, big: Store, now: nat, gone: set<Key>, k: Key) {
    Visible(small, k, now) == Visible(big, k, now) || (k in gone && Visible(small, k, now).None?)
  }

  /** The answer or, for a key that is gone, the answer the operation gives on an empty map. */
  predicate AnswerOrMiss(op: Op, r: Outcome, expected: Outcome, gone: set<Key>)
    requires !op.Purge?
  {
    r == expected || (op.key in gone && r == Answer(map[], op, 0))
  }

  lemma AnswerBelow(m: Store, p: Store, op: Op, now: nat, gone: set<Key>)
    requires Sees(m, p, now, gone) && !op.Purge?
    ensures AnswerOrMiss(op, Answer(m, op, now), Answer(p, op, now), gone)
  {
    assert SeesKey(m, p, now, gone, op.key);
  }

  lemma StepBelow(m: Store, p: Store, op: Op, now: nat, gone: set<Key>)
    requires Sees(m, p, now, gone)
    ensures Sees(Step(m, op, now), PlainStep(p, op, now), now, gone)
  {
    hide Effect, Sweep, Visible;
    forall k
      ensures SeesKey(Step(m, op, now), PlainStep(p, op, now), now, gone, k)
    {
      assert SeesKey(m, p, now, gone, k);
      SweepVisible(m, op, now, k);
      EffectVisible(Sweep(m, op, now), op, now, k);
      EffectVisible(p, op, now, k);
    }
  }

  /** The same when both maps sweep. */
  lemma SweptStepBelow(m: Store, p: Store, op: Op, now: nat, gone: set<Key>)
    requires Sees(m, p, now, gone)
    ensures Sees(Step(m, op, now), Step(p, op, now), now, gone)
  {
    hide Effect, Sweep, Visible;
    forall k
      ensures SeesKey(Step(m, op, now), Step(p, op, now), now, gone, k)
    {
      assert SeesKey(m, p, now, gone, k);
      SweepVisible(m, op, now, k);
      SweepVisible(p, op, now, k);
      EffectVisible(Sweep(m, op, now), op, now, k);
      EffectVisible(Sweep(p, op, now), op, now, k);
    }
  }

  /** Losing more keys, and letting time pass. */
  lemma LossSees(m: Store, p: Store, now: nat, later: nat, gone: set<Key>, lost: set<Key>)
    requires Sees(m, p, now, gone) && now <= later
    ensures Sees(m - lost, p, later, gone + lost)
  {
    forall k
      ensures SeesKey(m - lost, p, later, gone + lost, k)
    {
      assert SeesKey(m, p, now, gone, k);
    }
  }

  /** One call of the engine interface: it answers and changes as the cache does. */
  method Apply(e: MemoryEngine, op: Op, now: nat) returns (r: Outcome)
    requires e.Valid()
    modifies e, e.shards
    ensures e.Performed(op, now)
    ensures r == Answer(old(e.store), op, now)
    ensures !op.Purge? ==> r == CacheAnswer(e.AsLayout(), old(e.AsCache()), op, now)
  {
    hide MemoryEngine.Valid, MemoryEngine.Lists, WithoutExpired, Find, RemoveKey, ReplaceKey, DistinctKeys, ListStep, Held;
    hide Step, Evict, KeysLost;
    e.LayoutSpreads();
    if !op.Purge? {
      e.Lookup(op.key);
      HeldAnswers(e.Lists()[e.ShardIndex(op.key)], e.store, op, now);
      if !Writes(op) {
        ListStepIs(e.Lists()[e.ShardIndex(op.key)], e.store, op, now);
      }
    }
    match op {
      case Get(key) =>
        var v := e.Get(key, now);
        r := Found(v);
      case Set(key, value) =>
        e.Set(key, value, now);
        r := Stored;
      case SetWithTtl(key, value, ttl) =>
        e.SetWithTtl(key, value, ttl, now);
        r := Stored;
      case Delete(key) =>
        var removed := e.Delete(key, now);
        r := Deleted(removed);
      case Expire(key, ttl) =>
        if Visible(e.store, key, now).Some? {
          DeadlineSet(e.store, key, ttl, now);
        }
        var applied := e.Expire(key, ttl, now);
        r := Rescheduled(applied);
      case Ttl(key) =>
        var status := e.Ttl(key, now);
        assert old(e.Lists())[e.ShardIndex(key) := old(e.Lists())[e.ShardIndex(key)]] == old(e.Lists());
        r := Status(status);
      case Purge =>
        var count := e.PurgeExpired(now);
        assert e.Lists() == AllUnexpired(old(e.Lists()), now);
        r := Purged(count);
    }
    if !Writes(op) {
      QuietStep(e.AsLayout(), old(e.AsCache()), op, now, e.Lists(), e.store);
    }
  }

  /**
    A run with a non-decreasing clock. The engine ends as the LRU cache does,
    evictions included, and answers as the cache does. An answer differs from
    the plain map's only if the key was evicted earlier in the run, and then it
    is that of a missing key: no stale, deleted or expired value is ever
    returned. With unlimited capacity, or if the bytes would never exceed the
    budget, every answer is that of the reference map. Evictions are spread
    evenly over the shards, across calls, as long as no shard is found dry on
    its turn.
   */
  method Run(e: MemoryEngine, ops: seq<Op>, times: seq<nat>) returns (rs: seq<Outcome>)
    requires e.Valid() && |times| == |ops| && NonDecreasing(times)
    modifies e, e.shards
    ensures e.Valid() && |rs| == |ops|
    ensures Spreads(e.AsLayout(), old(e.AsCache())) && |e.shards| > 0
    ensures e.AsCache() == CacheAt(e.AsLayout(), old(e.AsCache()), ops, times, |ops|)
    ensures forall i :: 0 <= i < |ops| && !ops[i].Purge? ==>
      var before := CacheAt(e.AsLayout(), old(e.AsCache()), ops, times, i);
      && rs[i] == CacheAnswer(e.AsLayout(), before, ops[i], times[i])
      && AnswerOrMiss(ops[i], rs[i], PlainAnswers(old(e.store), ops, times)[i], KeysLost(before.log, |old(e.victims)|))
    ensures e.maxBytes == USIZE_MAX || WithinBudget(e.AsLayout(), old(e.AsCache()), ops, times) ==>
      && rs == Answers(old(e.store), ops, times)
      && forall i :: 0 <= i < |ops| && !ops[i].Purge? ==> rs[i] == PlainAnswers(old(e.store), ops, times)[i]
    ensures Fair(e.victims, |e.shards|)
  {
    hide MemoryEngine.Lists, Fair, Tracks, Answer, Step, PlainStep, PlainAnswers, CacheAt, CacheStep, CacheAnswer, KeysLost;
    e.LayoutSpreads();
    ghost var layout, c, m0 := e.AsLayout(), e.AsCache(), e.store;
    CacheAtStart(layout, c, ops, times);
    TracksStart(layout, c, m0, ops, times);
    ghost var plain := e.store;
    rs := [];
    for i := 0 to |ops|
      invariant e.Valid() && |rs| == i
      invariant e.AsCache() == CacheAt(layout, c, ops, times, i)
      invariant Tracks(layout, c, m0, ops, times, i, rs, e.store, plain)
    {
      ghost var m := e.store;
      var r := Apply(e, ops[i], times[i]);
      CacheAtNext(layout, c, ops, times, i);
      TracksStep(layout, c, m0, ops, times, i, rs, m, plain, r, e.store);
      rs, plain := rs + [r], PlainStep(plain, ops[i], times[i]);
    }
    TurnsAreFair(e.victims, |e.shards|);
    TracksEnd(layout, c, m0, ops, times, rs, e.store, plain);
    if e.maxBytes == USIZE_MAX || WithinBudget(layout, c, ops, times) {
      WithinBudgetEvictsNothing(layout, c, ops, times);
    }
  }

  /** `r` is a correct answer to call `j` of a run. */
  ghost predicate AnswersRight(layout: Layout, c: Cache, m0: Store, ops: seq<Op>, times: seq<nat>, j: nat, r: Outcome)
    requires Spreads(layout, c) && |times| == |ops| && j < |ops| && !ops[j].Purge?
  {
    var before := CacheAt(layout, c, ops, times, j);
    && r == CacheAnswer(layout, before, ops[j], times[j])
    && AnswerOrMiss(ops[j], r, PlainAnswers(m0, ops, times)[j], KeysLost(before.log, |c.log|))
  }

  /**
    After `i` calls from cache `c` and map `m0` with results `rs`: `m` is the
    engine's map and `plain` the map that never sweeps nor evicts.
   */
  ghost predicate Tracks(layout: Layout, c: Cache, m0: Store, ops: seq<Op>, times: seq<nat>, i: nat, rs: seq<Outcome>,
                         m: Store, plain: Store)
    requires Spreads(layout, c) && |times| == |ops| && i <= |ops|
  {
    && |rs| == i
    && (i < |ops| ==> Sees(m, plain, times[i], KeysLost(CacheAt(layout, c, ops, times, i).log, |c.log|)))
    && (NeverEvicts(layout, c, ops, times) ==> rs + Answers(m, ops[i..], times[i..]) == Answers(m0, ops, times))
    && PlainAnswers(plain, ops[i..], times[i..]) == PlainAnswers(m0, ops, times)[i..]
    && forall j :: 0 <= j < i && !ops[j].Purge? ==> AnswersRight(layout, c, m0, ops, times, j, rs[j])
  }

  lemma CacheAtStart(layout: Layout, c: Cache, ops: seq<Op>, times: seq<nat>)
    requires Spreads(layout, c) && |times| == |ops|
    ensures CacheAt(layout, c, ops, times, 0) == c
  {}

  lemma CacheAtNext(layout: Layout, c: Cache, ops: seq<Op>, times: seq<nat>, i: nat)
    requires Spreads(layout, c) && |times| == |ops| && i < |ops|
    ensures CacheAt(layout, c, ops, times, i + 1) == CacheStep(layout, CacheAt(layout, c, ops, times, i), ops[i], times[i])
    ensures CacheAt(layout, c, ops, times, i).log <= CacheAt(layout, c, ops, times, i + 1).log
  {
    hide CacheStep;
    CacheStepSpreads(layout, CacheAt(layout, c, ops, times, i), ops[i], times[i]);
  }

  lemma TracksStart(layout: Layout, c: Cache, m0: Store, ops: seq<Op>, times: seq<nat>)
    requires Spreads(layout, c) && |times| == |ops|
    ensures Tracks(layout, c, m0, ops, times, 0, [], m0, m0)
  {
    assert ops[0..] == ops && times[0..] == times;
  }

  lemma KeysLostSplit(log: seq<Eviction>, log': seq<Eviction>, from: nat)
    requires from <= |log| && log <= log'
    ensures KeysLost(log', from) == KeysLost(log, from) + KeysLost(log', |log|)
  {
    forall k | k in KeysLost(log', from)
      ensures k in KeysLost(log, from) + KeysLost(log', |log|)
    {
      var i :| from <= i < |log'| && log'[i].key == k;
      if i < |log| {
        assert log[i].key == k;
      }
    }
    forall k | k in KeysLost(log, from)
      ensures k in KeysLost(log', from)
    {
      var i :| from <= i < |log| && log[i].key == k;
      assert log'[i].key == k;
    }
  }

  lemma TracksStep(layout: Layout, c: Cache, m0: Store, ops: seq<Op>, times: seq<nat>, i: nat, rs: seq<Outcome>,
                   m: Store, plain: Store, r: Outcome, m': Store)
    requires Spreads(layout, c) && |times| == |ops| && NonDecreasing(times) && i < |ops|
    requires Tracks(layout, c, m0, ops, times, i, rs, m, plain)
    requires r == Answer(m, ops[i], times[i])
    requires !ops[i].Purge? ==> r == CacheAnswer(layout, CacheAt(layout, c, ops, times, i), ops[i], times[i])
    requires var log, log' := CacheAt(layout, c, ops, times, i).log, CacheAt(layout, c, ops, times, i + 1).log;
      log <= log' && m' == Step(m, ops[i], times[i]) - KeysLost(log', |log|)
    ensures Tracks(layout, c, m0, ops, times, i + 1, rs + [r], m', PlainStep(plain, ops[i], times[i]))
  {
    hide Step, PlainStep, Answer, Answers, PlainAnswers, Sees, AnswerOrMiss, CacheAt, CacheAnswer, KeysLost;
    var op, now := ops[i], times[i];
    var log, log' := CacheAt(layout, c, ops, times, i).log, CacheAt(layout, c, ops, times, i + 1).log;
    var gone := KeysLost(log, |c.log|);
    AnswersGrow(rs, m, ops, times, i);
    PlainAnswersGrow(plain, ops, times, i);
    var expected := PlainAnswers(m0, ops, times);
    assert expected[i..][0] == expected[i] && expected[i..][1..] == expected[i + 1..];
    if !op.Purge? {
      AnswerBelow(m, plain, op, now, gone);
      assert AnswersRight(layout, c, m0, ops, times, i, r);
    }
    StepBelow(m, plain, op, now, gone);
    KeysLostSplit(log, log', |c.log|);
    if i + 1 < |ops| {
      LossSees(Step(m, op, now), PlainStep(plain, op, now), now, times[i + 1], gone, KeysLost(log', |log|));
    }
    if NeverEvicts(layout, c, ops, times) {
      assert log == log' == c.log;
      NothingLost(log, Step(m, op, now));
    }
  }

  lemma TracksEnd(layout: Layout, c: Cache, m0: Store, ops: seq<Op>, times: seq<nat>, rs: seq<Outcome>, m: Store, plain: Store)
    requires Spreads(layout, c) && |times| == |ops| && NonDecreasing(times)
    requires Tracks(layout, c, m0, ops, times, |ops|, rs, m, plain)
    ensures |rs| == |ops|
    ensures forall j :: 0 <= j < |ops| && !ops[j].Purge? ==> AnswersRight(layout, c, m0, ops, times, j, rs[j])
    ensures NeverEvicts(layout, c, ops, times) ==>
      && rs == Answers(m0, ops, times)
      && forall j :: 0 <= j < |ops| && !ops[j].Purge? ==> rs[j] == PlainAnswers(m0, ops, times)[j]
  {
    hide AnswerOrMiss, CacheAt, CacheAnswer, KeysLost;
    assert ops[|ops|..] == [] && times[|ops|..] == [];
    SweepingIsUnobservable(m0, m0, ops, times);
  }

  lemma AnswersGrow(done: seq<Outcome>, m: Store, ops: seq<Op>, times: seq<nat>, i: nat)
    requires |times| == |ops| && i < |ops|
    ensures done + Answers(m, ops[i..], times[i..])
         == (done + [Answer(m, ops[i], times[i])]) + Answers(Step(m, ops[i], times[i]), ops[i + 1..], times[i + 1..])
  {
    hide Step, Answer;
    assert ops[i..][1..] == ops[i + 1..] && times[i..][1..] == times[i + 1..];
  }

  lemma PlainAnswersGrow(m: Store, ops: seq<Op>, times: seq<nat>, i: nat)
    requires |times| == |ops| && i < |ops|
    ensures PlainAnswers(m, ops[i..], times[i..])
         == [Answer(m, ops[i], times[i])] + PlainAnswers(PlainStep(m, ops[i], times[i]), ops[i + 1..], times[i + 1..])
  {
    hide PlainStep, Answer;
    assert ops[i..][1..] == ops[i + 1..] && times[i..][1..] == times[i + 1..];
  }
}
