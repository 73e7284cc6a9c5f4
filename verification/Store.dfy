/**
  The reference semantics of the storage engine: a plain map from key to a
  value with an optional absolute deadline, and the operations of `KVEngine`
  on it. Time is a natural number of clock ticks.
 */
module Store {
  import opened Prelude

  type Key = Bytes

  type Value = Bytes

  /** An entry expires when the clock reaches its deadline. */
  datatype Entry = Entry(value: Value, deadline: Option<nat>) {
    predicate Expired(now: nat) {
      deadline.Some? && now >= deadline.value
    }
  }

  type Store = map<Key, Entry>

  datatype TtlStatus = Missing | NoExpiry | ExpiresIn(remaining: nat)

  datatype Op =
    | Get(key: Key)
    | Set(key: Key, value: Value)
    | SetWithTtl(key: Key, value: Value, ttl: nat)
    | Delete(key: Key)
    | Expire(key: Key, ttl: nat)
    | Ttl(key: Key)
    | Purge

  datatype Outcome =
    | Found(value: Option<Value>)
    | Stored
    | Deleted(removed: bool)
    | Rescheduled(applied: bool)
    | Status(status: TtlStatus)
    | Purged(count: nat)

  /** The entry a reader sees: expired entries are hidden. */
  function Visible(m: Store, key: Key, now: nat): Option<Entry> {
    if key in m && !m[key].Expired(now) then Some(m[key]) else None
  }

  function StatusOf(entry: Option<Entry>, now: nat): TtlStatus
    requires entry.Some? ==> !entry.value.Expired(now)
  {
    match entry
    case None => Missing
    case Some(e) => if e.deadline.None? then NoExpiry else ExpiresIn(e.deadline.value - now)
  }

  /** What an operation answers, as a function of what is visible. */
  function Answer(m: Store, op: Op, now: nat): Outcome {
    match op
    case Get(key) =>
      var e := Visible(m, key, now);
      Found(if e.Some? then Some(e.value.value) else None)
    case Set(_, _) => Stored
    case SetWithTtl(_, _, _) => Stored
    case Delete(key) => Deleted(Visible(m, key, now).Some?)
    case Expire(key, _) => Rescheduled(Visible(m, key, now).Some?)
    case Ttl(key) => Status(StatusOf(Visible(m, key, now), now))
    case Purge => Purged(|m| - |WithoutExpired(m, now)|)
  }

  function WithoutExpired(m: Store, now: nat): (r: Store)
    ensures |r| <= |m|
  {
    var r := map k | k in m && !m[k].Expired(now) :: m[k];
    SubmapSize(r, m);
    r
  }

  lemma {:induction false} SubmapSize(r: Store, m: Store)
    requires forall k :: k in r ==> k in m
    ensures |r| <= |m|
    decreases r
  {
    if r != map[] {
      var k :| k in r;
      SubmapSize(r - {k}, m - {k});
      assert (r - {k}).Keys == r.Keys - {k};
      assert (m - {k}).Keys == m.Keys - {k};
      assert |r - {k}| == |(r - {k}).Keys| && |m - {k}| == |(m - {k}).Keys|;
      assert |r| == |r.Keys| && |m| == |m.Keys|;
    }
  }

  /** The map after a write or a deletion; reads change nothing. */
  function Effect(m: Store, op: Op, now: nat): Store {
    match op
    case Set(key, value) => m[key := Entry(value, None)]
    case SetWithTtl(key, value, ttl) => m[key := Entry(value, Some(now + ttl))]
    case Delete(key) => m - {key}
    case Expire(key, ttl) =>
      if Visible(m, key, now).Some? then m[key := Entry(m[key].value, Some(now + ttl))] else m
    case Get(_) => m
    case Ttl(_) => m
    case Purge => WithoutExpired(m, now)
  }

  /** An expired entry is dropped when its key is accessed. */
  function Sweep(m: Store, op: Op, now: nat): Store {
    if op.Purge? || op.key !in m || !m[op.key].Expired(now) then m else m - {op.key}
  }

  /** The map that, like the engine, forgets an expired entry on access. */
  function Step(m: Store, op: Op, now: nat): Store {
    Effect(Sweep(m, op, now), op, now)
  }

  /** The answers of the sweeping map along a run. */
  function Answers(m: Store, ops: seq<Op>, times: seq<nat>): (rs: seq<Outcome>)
    requires |times| == |ops|
    ensures |rs| == |ops|
    decreases |ops|
  {
    if ops == [] then []
    else [Answer(m, ops[0], times[0])] + Answers(Step(m, ops[0], times[0]), ops[1..], times[1..])
  }

  /** The map that keeps expired entries for ever and merely hides them. */
  function PlainStep(m: Store, op: Op, now: nat): Store {
    if op.Purge? then m else Effect(m, op, now)
  }

  /** The answers of the plain map, which only ever hides expired entries. */
  function PlainAnswers(m: Store, ops: seq<Op>, times: seq<nat>): (rs: seq<Outcome>)
    requires |times| == |ops|
    ensures |rs| == |ops|
    decreases |ops|
  {
    if ops == [] then []
    else [Answer(m, ops[0], times[0])] + PlainAnswers(PlainStep(m, ops[0], times[0]), ops[1..], times[1..])
  }

  ghost predicate NonDecreasing(times: seq<nat>) {
    forall i, j :: 0 <= i < j < |times| ==> times[i] <= times[j]
  }

  /** Two maps no reader can tell apart at `now` or later. */
  ghost predicate SameVisible(m: Store, m': Store, now: nat) {
    forall k :: Visible(m, k, now) == Visible(m', k, now)
  }

  lemma StaySame(m: Store, m': Store, now: nat, later: nat)
    requires SameVisible(m, m', now) && now <= later
    ensures SameVisible(m, m', later)
  {
    forall k
      ensures Visible(m, k, later) == Visible(m', k, later)
    {
      assert Visible(m, k, now) == Visible(m', k, now);
    }
  }

  /** What is visible at `k` after an operation, given what was visible before. */
  function VisibleAfter(seen: Option<Entry>, op: Op, k: Key, now: nat): Option<Entry> {
    if op.Purge? || op.key != k then seen
    else
      match op
      case Set(_, value) => Some(Entry(value, None))
      case SetWithTtl(_, value, ttl) => if ttl == 0 then None else Some(Entry(value, Some(now + ttl)))
      case Delete(_) => None
      case Expire(_, ttl) => if seen.None? || ttl == 0 then None else Some(Entry(seen.value.value, Some(now + ttl)))
      case _ => seen
  }

  lemma EffectVisible(m: Store, op: Op, now: nat, k: Key)
    ensures Visible(Effect(m, op, now), k, now) == VisibleAfter(Visible(m, k, now), op, k, now)
  {}

  lemma SweepVisible(m: Store, op: Op, now: nat, k: Key)
    ensures Visible(Sweep(m, op, now), k, now) == Visible(m, k, now)
  {}

  lemma StepKeepsVisible(m: Store, m': Store, op: Op, now: nat)
    requires SameVisible(m, m', now)
    ensures SameVisible(Step(m, op, now), PlainStep(m', op, now), now)
  {
    hide Effect, Sweep, Visible, VisibleAfter;
    forall k
      ensures Visible(Step(m, op, now), k, now) == Visible(PlainStep(m', op, now), k, now)
    {
      SweepVisible(m, op, now, k);
      EffectVisible(Sweep(m, op, now), op, now, k);
      EffectVisible(m', op, now, k);
      assert op.Purge? ==> VisibleAfter(Visible(m', k, now), op, k, now) == Visible(m', k, now) by {
        PurgeVisible(m', now, k);
      }
    }
  }

  lemma PurgeVisible(m: Store, now: nat, k: Key)
    ensures VisibleAfter(Visible(m, k, now), Purge, k, now) == Visible(m, k, now)
  {}

  lemma AnswerSame(m: Store, m': Store, op: Op, now: nat)
    requires SameVisible(m, m', now) && !op.Purge?
    ensures Answer(m, op, now) == Answer(m', op, now)
  {
    assert Visible(m, op.key, now) == Visible(m', op.key, now);
  }

  /**
    Forgetting expired entries early is unobservable: along a run with a
    non-decreasing clock, every answer but a purge count is that of the plain
    map that hides entries once their deadline is reached.
   */
  lemma {:induction false} SweepingIsUnobservable(m: Store, m': Store, ops: seq<Op>, times: seq<nat>)
    requires |times| == |ops| && NonDecreasing(times)
    requires ops != [] ==> SameVisible(m, m', times[0])
    ensures forall i :: 0 <= i < |ops| && !ops[i].Purge? ==>
      Answers(m, ops, times)[i] == PlainAnswers(m', ops, times)[i]
    decreases |ops|
  {
    hide Step, PlainStep, Answer;
    if ops != [] {
      var s, s' := Step(m, ops[0], times[0]), PlainStep(m', ops[0], times[0]);
      StepKeepsVisible(m, m', ops[0], times[0]);
      if |ops| > 1 {
        StaySame(s, s', times[0], times[1]);
      }
      SweepingIsUnobservable(s, s', ops[1..], times[1..]);
      if !ops[0].Purge? {
        AnswerSame(m, m', ops[0], times[0]);
      }
      forall i | 0 < i < |ops| && !ops[i].Purge?
        ensures Answers(m, ops, times)[i] == PlainAnswers(m', ops, times)[i]
      {
        assert ops[1..][i - 1] == ops[i];
      }
    }
  }

  // ---------- What callers may rely on ----------

  /** What a reader of `key` sees at `now`: the value, and how long it will last. */
  ghost predicate Shows(m: Store, key: Key, value: Value, now: nat, status: TtlStatus) {
    Answer(m, Get(key), now) == Found(Some(value)) && Answer(m, Ttl(key), now) == Status(status)
  }

  ghost predicate ShowsNothing(m: Store, key: Key, now: nat) {
    && Answer(m, Get(key), now) == Found(None)
    && Answer(m, Ttl(key), now) == Status(Missing)
    && Answer(m, Delete(key), now) == Deleted(false)
    && forall ttl: nat :: Answer(m, Expire(key, ttl), now) == Rescheduled(false)
  }

  lemma HiddenShowsNothing(m: Store, key: Key, now: nat)
    requires Visible(m, key, now).None?
    ensures ShowsNothing(m, key, now)
  {}

  /** A value written without deadline is there for good, whatever deadline its key had. */
  lemma WrittenStays(m: Store, key: Key, value: Value, now: nat, later: nat)
    ensures Shows(Step(m, Set(key, value), now), key, value, later, NoExpiry)
  {}

  /** A value written with a time to live is there until exactly that long has passed. */
  lemma WrittenExpires(m: Store, key: Key, value: Value, ttl: nat, now: nat, later: nat)
    ensures var after := Step(m, SetWithTtl(key, value, ttl), now);
      if later < now + ttl then Shows(after, key, value, later, ExpiresIn(now + ttl - later))
      else ShowsNothing(after, key, later)
  {
    hide ShowsNothing;
    if later >= now + ttl {
      HiddenShowsNothing(Step(m, SetWithTtl(key, value, ttl), now), key, later);
    }
  }

  /** A new time to live counts from the call and leaves the value; on a key that shows nothing it has no effect. */
  lemma RescheduledExpires(m: Store, key: Key, ttl: nat, now: nat, later: nat)
    requires now <= later
    ensures var after := Step(m, Expire(key, ttl), now);
      match Answer(m, Get(key), now).value
      case None => ShowsNothing(after, key, later)
      case Some(value) =>
        if later < now + ttl then Shows(after, key, value, later, ExpiresIn(now + ttl - later))
        else ShowsNothing(after, key, later)
  {
    hide ShowsNothing;
    var after := Step(m, Expire(key, ttl), now);
    if Visible(after, key, later).None? {
      HiddenShowsNothing(after, key, later);
    }
  }

  lemma DeletedIsGone(m: Store, key: Key, now: nat, later: nat)
    ensures ShowsNothing(Step(m, Delete(key), now), key, later)
    ensures Answer(m, Delete(key), now) == Deleted(Answer(m, Get(key), now).value.Some?)
  {
    hide ShowsNothing;
    HiddenShowsNothing(Step(m, Delete(key), now), key, later);
  }

  /** Reading changes nothing, and no call changes what other keys show. */
  lemma OthersUntouched(m: Store, op: Op, key: Key, now: nat, later: nat)
    requires now <= later
    requires op.Get? || op.Ttl? || op.Purge? || op.key != key
    ensures Answer(Step(m, op, now), Get(key), later) == Answer(m, Get(key), later)
    ensures Answer(Step(m, op, now), Ttl(key), later) == Answer(m, Ttl(key), later)
  {}

  /** A purge keeps exactly the entries whose deadline lies after now, and reports how many it dropped. */
  lemma PurgeKeeps(m: Store, now: nat)
    ensures var after := Step(m, Purge, now);
      && (forall k :: k in after <==> k in m && (m[k].deadline.Some? ==> m[k].deadline.value > now))
      && (forall k :: k in after ==> after[k] == m[k])
      && Answer(m, Purge, now) == Purged(|m| - |after|)
  {}
}
