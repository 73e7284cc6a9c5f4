/**
  The engine as an LRU cache: what each shard lists, oldest entry first, and a
  log of evictions. No slots, links, index or heap. The engine is proved equal
  to this cache, call by call.
 */
module LruCache {
  import opened Prelude
  import opened Store
  import opened LruList
  import opened Masking
  import opened EngineState

  /** One eviction: the shard hit, the key lost, and whether the shard whose turn it was had run dry. */
  datatype Eviction = Eviction(shard: nat, key: Key, ownDry: bool)

  datatype Cache = Cache(lists: seq<seq<Item>>, log: seq<Eviction>)

  ghost function ShardsHit(log: seq<Eviction>): seq<nat> {
    seq(|log|, i requires 0 <= i < |log| => log[i].shard)
  }

  /** The keys lost since entry `from` of the log. */
  ghost function KeysLost(log: seq<Eviction>, from: nat): set<Key> {
    set i | from <= i < |log| :: log[i].key
  }

  lemma KeysLostAppend(log: seq<Eviction>, from: nat, e: Eviction)
    requires from <= |log|
    ensures KeysLost(log + [e], from) == KeysLost(log, from) + {e.key}
  {
    var all := log + [e];
    assert all[|log|] == e;
    assert forall i :: from <= i < |log| ==> all[i] == log[i];
    forall k | k in KeysLost(log, from)
      ensures k in KeysLost(all, from)
    {
      var i :| from <= i < |log| && log[i].key == k;
      assert all[i].key == k;
    }
  }

  lemma NothingLost(log: seq<Eviction>, m: Store)
    ensures m - KeysLost(log, |log|) == m && KeysLost(log, |log|) == {}
  {}

  lemma LoseOneMore(initial: Store, m: Store, lost: set<Key>, key: Key)
    requires m == initial - lost
    ensures m - {key} == initial - (lost + {key})
  {}

  // ---------- One round of eviction ----------

  /** The first shard with entries, `offset` or more places after `start`. */
  ghost function FirstFull(lists: seq<seq<Item>>, start: nat, offset: nat): (v: nat)
    requires offset < |lists|
    ensures v < |lists|
    decreases |lists| - offset
  {
    var s := RoundRobin(start, offset, |lists|);
    if offset + 1 == |lists| || lists[s] != [] then s else FirstFull(lists, start, offset + 1)
  }

  lemma {:induction false} FirstFullIs(lists: seq<seq<Item>>, start: nat, offset: nat, k: nat)
    requires offset <= k < |lists| && lists[RoundRobin(start, k, |lists|)] != []
    requires forall o :: offset <= o < k ==> lists[RoundRobin(start, o, |lists|)] == []
    ensures FirstFull(lists, start, offset) == RoundRobin(start, k, |lists|)
    decreases k - offset
  {
    if offset < k {
      assert lists[RoundRobin(start, offset, |lists|)] == [];
      FirstFullIs(lists, start, offset + 1, k);
    }
  }

  lemma {:induction false} FirstFullEmpty(lists: seq<seq<Item>>, start: nat, offset: nat)
    requires offset < |lists| && lists[FirstFull(lists, start, offset)] == []
    ensures forall o :: offset <= o < |lists| ==> lists[RoundRobin(start, o, |lists|)] == []
    decreases |lists| - offset
  {
    if offset + 1 < |lists| {
      FirstFullEmpty(lists, start, offset + 1);
    }
  }

  /** The shard the next round takes an entry from; rounds are numbered by the log. */
  ghost function Victim(c: Cache): (v: nat)
    requires |c.lists| > 0
    ensures v < |c.lists|
  {
    FirstFull(c.lists, |c.log|, 0)
  }

  /** As long as bytes are in use, a round finds an entry. */
  lemma VictimHasEntries(c: Cache)
    requires |c.lists| > 0 && UsedBy(c.lists) > 0
    ensures c.lists[Victim(c)] != []
  {
    if c.lists[Victim(c)] == [] {
      FirstFullEmpty(c.lists, |c.log|, 0);
      FullScanEmpty(c.lists, |c.log|);
    }
  }

  /** The oldest entry of the victim is dropped and logged. */
  ghost function Round(c: Cache): Cache
    requires |c.lists| > 0 && c.lists[Victim(c)] != []
  {
    var v := Victim(c);
    Cache(c.lists[v := c.lists[v][1..]],
          c.log + [Eviction(v, c.lists[v][0].key, c.lists[|c.log| % |c.lists|] == [])])
  }

  /**
    A scan that starts at a cursor congruent to the number of rounds and finds
    its first entry in shard `v` does what `Round` says.
   */
  lemma ScanFindsVictim(c: Cache, start: nat, offset: nat)
    requires offset < |c.lists| && start % |c.lists| == |c.log| % |c.lists|
    requires EmptyBefore(c.lists, start, offset) && c.lists[RoundRobin(start, offset, |c.lists|)] != []
    ensures Victim(c) == RoundRobin(start, offset, |c.lists|)
  {
    forall o | 0 <= o < |c.lists|
      ensures RoundRobin(start, o, |c.lists|) == RoundRobin(|c.log|, o, |c.lists|)
    {
      RoundRobinReaches(start, |c.lists|, RoundRobin(start, o, |c.lists|), o);
      RoundRobinReaches(|c.log|, |c.lists|, RoundRobin(start, o, |c.lists|), o);
    }
    FirstFullIs(c.lists, |c.log|, 0, offset);
  }

  // ---------- Eviction down to a budget ----------

  ghost function Lengths(lists: seq<seq<Item>>): seq<nat> {
    seq(|lists|, i requires 0 <= i < |lists| => |lists[i]|)
  }

  lemma RoundShrinks(c: Cache)
    requires |c.lists| > 0 && UsedBy(c.lists) > 0
    ensures c.lists[Victim(c)] != []
    ensures Sum(Lengths(Round(c).lists)) < Sum(Lengths(c.lists))
  {
    VictimHasEntries(c);
    var v := Victim(c);
    SumUpdate(Lengths(c.lists), v, |c.lists[v]| - 1);
    assert Lengths(Round(c).lists) == Lengths(c.lists)[v := |c.lists[v]| - 1];
  }

  /** Rounds until the bytes fit. */
  ghost function Evict(c: Cache, max: nat): Cache
    requires |c.lists| > 0
    decreases Sum(Lengths(c.lists))
  {
    if UsedBy(c.lists) <= max then c
    else
      RoundShrinks(c);
      Evict(Round(c), max)
  }

  /** How many entries shard `s` lost between two states of the log. */
  ghost function Cut(c: Cache, c': Cache, s: nat): nat
    requires |c.log| <= |c'.log|
  {
    Hits(ShardsHit(c'.log), |c.log|, |c'.log| - |c.log|, s)
  }

  /** Every shard has lost the entries the log says, from the old end of its list. */
  ghost predicate LostPrefixes(c: Cache, c': Cache) {
    && c.log <= c'.log
    && |c'.lists| == |c.lists|
    && forall s :: 0 <= s < |c.lists| ==> LostPrefix(c, c', s)
  }

  ghost predicate LostPrefix(c: Cache, c': Cache, s: nat)
    requires |c.log| <= |c'.log| && s < |c.lists| == |c'.lists|
  {
    Cut(c, c', s) <= |c.lists[s]| && c'.lists[s] == c.lists[s][Cut(c, c', s)..]
  }

  /** A dry mark is never a pretext: the shard skipped is empty, and stays so until the call returns. */
  ghost predicate DryMarksHonest(c: Cache, c': Cache) {
    && |c'.lists| > 0
    && forall j :: |c.log| <= j < |c'.log| && c'.log[j].ownDry ==> c'.lists[j % |c'.lists|] == []
  }

  /** Every round takes the shard whose turn it is, unless that had run dry. */
  ghost predicate TakesTurns(log: seq<Eviction>, n: nat) {
    n > 0 && forall j :: 0 <= j < |log| && !log[j].ownDry ==> log[j].shard == j % n
  }

  /** Every suffix longer than the one starting at `cut` is over the budget. */
  ghost predicate NoneFits(before: seq<Item>, cut: nat, max: nat) {
    forall c :: 0 <= c < cut <= |before| ==> TotalSize(before[c..]) > max
  }

  /** The longest most-recent suffix of `before` that fits in `max` bytes. */
  ghost predicate LongestFitting(before: seq<Item>, after: seq<Item>, max: nat) {
    exists cut :: 0 <= cut <= |before| && after == before[cut..] && TotalSize(after) <= max && NoneFits(before, cut, max)
  }

  /** What eviction has done so far, from `c` to `c'`. */
  ghost predicate Evicting(c: Cache, c': Cache, max: nat) {
    && |c.lists| > 0
    && LostPrefixes(c, c')
    && DryMarksHonest(c, c')
    && (TakesTurns(c.log, |c.lists|) ==> TakesTurns(c'.log, |c.lists|))
    && (|c.lists| == 1 ==> NoneFits(c.lists[0], Cut(c, c', 0), max))
  }

  lemma RoundLosesPrefix(c: Cache, c': Cache)
    requires LostPrefixes(c, c') && |c'.lists| > 0 && c'.lists[Victim(c')] != []
    ensures LostPrefixes(c, Round(c'))
    ensures forall s :: 0 <= s < |c.lists| ==> Cut(c, Round(c'), s) == Cut(c, c', s) + if s == Victim(c') then 1 else 0
  {
    var v, next := Victim(c'), Round(c');
    assert ShardsHit(next.log) == ShardsHit(c'.log) + [v];
    forall s | 0 <= s < |c.lists|
      ensures LostPrefix(c, next, s)
      ensures Cut(c, next, s) == Cut(c, c', s) + if s == v then 1 else 0
    {
      assert LostPrefix(c, c', s);
      HitsAppend(ShardsHit(c'.log), |c.log|, |c'.log| - |c.log|, s, v);
    }
  }

  lemma RoundTakesTurn(c: Cache)
    requires |c.lists| > 0 && c.lists[Victim(c)] != []
    ensures Round(c).log[|c.log|].ownDry || Round(c).log[|c.log|].shard == |c.log| % |c.lists|
  {
    assert RoundRobin(|c.log|, 0, |c.lists|) == |c.log| % |c.lists|;
  }

  lemma RoundIsHonest(c: Cache, c': Cache)
    requires |c.log| <= |c'.log| && DryMarksHonest(c, c') && c'.lists[Victim(c')] != []
    ensures DryMarksHonest(c, Round(c'))
  {
    var next, v := Round(c'), Victim(c');
    forall j | |c.log| <= j < |next.log| && next.log[j].ownDry
      ensures next.lists[j % |next.lists|] == []
    {
      assert j < |c'.log| ==> next.log[j] == c'.log[j];
      assert j % |c'.lists| != v;
    }
  }

  lemma RoundEvicts(c: Cache, c': Cache, max: nat)
    requires Evicting(c, c', max) && UsedBy(c'.lists) > max
    ensures c'.lists[Victim(c')] != [] && Evicting(c, Round(c'), max)
  {
    hide DryMarksHonest, NoneFits, Hits, Victim;
    VictimHasEntries(c');
    RoundLosesPrefix(c, c');
    RoundIsHonest(c, c');
    RoundTakesTurn(c');
    assert forall j :: 0 <= j < |c'.log| ==> Round(c').log[j] == c'.log[j];
    if |c.lists| == 1 {
      SingleListUses(c'.lists);
      assert LostPrefix(c, c', 0);
      FitsNoLonger(c.lists[0], Cut(c, c', 0), c'.lists[0], max, Cut(c, Round(c'), 0));
    }
  }

  lemma FitsNoLonger(before: seq<Item>, cut: nat, after: seq<Item>, max: nat, next: nat)
    requires NoneFits(before, cut, max) && cut <= |before| && after == before[cut..] && TotalSize(after) > max
    requires next <= cut + 1
    ensures NoneFits(before, next, max)
  {}

  lemma {:induction false} EvictFrom(c: Cache, c': Cache, max: nat)
    requires Evicting(c, c', max)
    ensures Evicting(c, Evict(c', max), max) && UsedBy(Evict(c', max).lists) <= max
    decreases Sum(Lengths(c'.lists))
  {
    hide Evicting, UsedBy, Round;
    assert |c'.lists| > 0 by {
      EvictingShape(c, c', max);
    }
    if UsedBy(c'.lists) > max {
      RoundShrinks(c');
      RoundEvicts(c, c', max);
      EvictFrom(c, Round(c'), max);
    }
  }

  lemma EvictingShape(c: Cache, c': Cache, max: nat)
    requires Evicting(c, c', max)
    ensures |c'.lists| == |c.lists| > 0 && c.log <= c'.log
  {}

  lemma EvictingNothing(c: Cache, max: nat)
    requires |c.lists| > 0
    ensures Evicting(c, c, max)
  {
    forall s | 0 <= s < |c.lists|
      ensures LostPrefix(c, c, s)
    {
      assert c.lists[s][0..] == c.lists[s];
    }
  }

  /**
    What eviction means. It ends within the budget; each shard has lost exactly
    as many of its oldest entries as the log charges to it; a round took the
    shard whose turn it was unless that was empty; and a single shard keeps the
    longest recent suffix that fits.
   */
  lemma EvictMeaning(c: Cache, max: nat)
    requires |c.lists| > 0
    ensures var c' := Evict(c, max);
      && UsedBy(c'.lists) <= max
      && LostPrefixes(c, c')
      && DryMarksHonest(c, c')
      && (TakesTurns(c.log, |c.lists|) ==> TakesTurns(c'.log, |c.lists|))
      && (|c.lists| == 1 ==> LongestFitting(c.lists[0], c'.lists[0], max))
  {
    hide LostPrefix, UsedBy, NoneFits, Evict, DryMarksHonest;
    EvictingNothing(c, max);
    EvictFrom(c, c, max);
    var c' := Evict(c, max);
    if |c.lists| == 1 {
      SingleListUses(c'.lists);
      KeptLongest(c, c', max);
    }
  }

  lemma EvictedNothing(c: Cache)
    requires |c.lists| > 0
    ensures LostPrefixes(c, c) && DryMarksHonest(c, c)
  {
    EvictingNothing(c, 0);
  }

  lemma RoundLogs(c: Cache)
    requires |c.lists| > 0 && c.lists[Victim(c)] != []
    ensures |Round(c).log| == |c.log| + 1 && Round(c).log == c.log + [Round(c).log[|c.log|]]
  {}

  lemma KeptLongest(c: Cache, c': Cache, max: nat)
    requires |c.lists| == 1 && LostPrefixes(c, c') && NoneFits(c.lists[0], Cut(c, c', 0), max)
    requires TotalSize(c'.lists[0]) <= max
    ensures LongestFitting(c.lists[0], c'.lists[0], max)
  {
    assert LostPrefix(c, c', 0);
  }

  // ---------- Fairness ----------

  ghost predicate NoneDry(log: seq<Eviction>, start: nat, k: nat)
    requires start + k <= |log|
  {
    forall j :: start <= j < start + k ==> !log[j].ownDry
  }

  /**
    Any `k` consecutive evictions during which no shard was found dry on its
    turn hit each of `n` shards floor(k/n) or ceil(k/n) times.
   */
  ghost predicate Fair(log: seq<Eviction>, n: nat)
    requires n > 0
  {
    forall start, k, s :: 0 <= start && 0 <= k && start + k <= |log| && 0 <= s < n && NoneDry(log, start, k) ==>
      k / n <= Hits(ShardsHit(log), start, k, s) <= (k + n - 1) / n
  }

  lemma TurnsAreFair(log: seq<Eviction>, n: nat)
    requires n > 0 && TakesTurns(log, n)
    ensures Fair(log, n)
  {
    forall start, k, s | 0 <= start && 0 <= k && start + k <= |log| && 0 <= s < n && NoneDry(log, start, k)
      ensures k / n <= Hits(ShardsHit(log), start, k, s) <= (k + n - 1) / n
    {
      RoundRobinIsFair(ShardsHit(log), start, k, n, s);
    }
  }

  // ---------- Calls ----------

  /** The part of the map a list holds under one key. */
  ghost function Held(items: seq<Item>, key: Key): Store {
    var e := Find(items, key);
    if e.Some? then map[key := e.value] else map[]
  }

  /** Calls that make their entry the most recent one; the others leave it where it is. */
  predicate Refreshes(op: Op) {
    op.Get? || op.Set? || op.SetWithTtl?
  }

  predicate Writes(op: Op) {
    op.Set? || op.SetWithTtl?
  }

  /** One list after a call on a key it owns. */
  ghost function ListStep(items: seq<Item>, op: Op, now: nat): seq<Item>
    requires !op.Purge?
  {
    var next := Step(Held(items, op.key), op, now);
    if op.key !in next then RemoveKey(items, op.key)
    else if Refreshes(op) then RemoveKey(items, op.key) + [Item(op.key, next[op.key])]
    else ReplaceKey(items, op.key, next[op.key])
  }

  /** Reading a deadline leaves the list as it was. */
  lemma ReplaceSame(items: seq<Item>, key: Key, entry: Entry)
    requires DistinctKeys(items) && Find(items, key) == Some(entry)
    ensures ReplaceKey(items, key, entry) == items
  {
    forall i | 0 <= i < |items| && items[i].key == key
      ensures items[i].entry == entry
    {
      FindAt(items, i);
    }
  }

  ghost function AllUnexpired(lists: seq<seq<Item>>, now: nat): seq<seq<Item>> {
    seq(|lists|, i requires 0 <= i < |lists| => Unexpired(lists[i], now))
  }

  /** The layout of an engine: how keys are spread, and the byte budget. */
  datatype Layout = Layout(hash: Key -> nat, mask: nat, max: nat)

  ghost predicate Spreads(layout: Layout, c: Cache) {
    |c.lists| > 0 && forall k :: Owner(layout.hash, layout.mask, k) < |c.lists|
  }

  /** The lists after a call, before any eviction. */
  ghost function Called(layout: Layout, c: Cache, op: Op, now: nat): Cache
    requires Spreads(layout, c)
  {
    if op.Purge? then c.(lists := AllUnexpired(c.lists, now))
    else
      var s := Owner(layout.hash, layout.mask, op.key);
      c.(lists := c.lists[s := ListStep(c.lists[s], op, now)])
  }

  /** The cache after a call; a write evicts if there is a budget. */
  ghost function CacheStep(layout: Layout, c: Cache, op: Op, now: nat): Cache
    requires Spreads(layout, c)
  {
    var called := Called(layout, c, op, now);
    if Writes(op) && layout.max != USIZE_MAX then Evict(called, layout.max) else called
  }

  lemma CacheStepSpreads(layout: Layout, c: Cache, op: Op, now: nat)
    requires Spreads(layout, c)
    ensures Spreads(layout, CacheStep(layout, c, op, now))
    ensures c.log <= CacheStep(layout, c, op, now).log
  {
    hide Evict, ListStep, DryMarksHonest, TakesTurns, LongestFitting, LostPrefix, UsedBy;
    EvictMeaning(Called(layout, c, op, now), layout.max);
  }

  /** The cache after the first `i` calls of a run. */
  ghost function CacheAt(layout: Layout, c: Cache, ops: seq<Op>, times: seq<nat>, i: nat): (r: Cache)
    requires Spreads(layout, c) && |times| == |ops| && i <= |ops|
    ensures Spreads(layout, r) && c.log <= r.log
  {
    if i == 0 then c
    else
      var before := CacheAt(layout, c, ops, times, i - 1);
      CacheStepSpreads(layout, before, ops[i - 1], times[i - 1]);
      CacheStep(layout, before, ops[i - 1], times[i - 1])
  }

  /** What a call other than a purge answers. */
  ghost function CacheAnswer(layout: Layout, c: Cache, op: Op, now: nat): Outcome
    requires Spreads(layout, c) && !op.Purge?
  {
    Answer(Held(c.lists[Owner(layout.hash, layout.mask, op.key)], op.key), op, now)
  }

  /** A list that holds under `key` exactly what the map `m` holds. */
  ghost predicate HoldsAs(items: seq<Item>, m: Store, key: Key) {
    DistinctKeys(items) && Find(items, key) == if key in m then Some(m[key]) else None
  }

  lemma HeldAnswers(items: seq<Item>, m: Store, op: Op, now: nat)
    requires !op.Purge? && HoldsAs(items, m, op.key)
    ensures Answer(Held(items, op.key), op, now) == Answer(m, op, now)
  {}

  lemma DeadlineSet(m: Store, key: Key, ttl: nat, now: nat)
    requires Visible(m, key, now).Some?
    ensures Step(m, Expire(key, ttl), now) == m[key := Entry(m[key].value, Some(now + ttl))]
  {}

  /** The step of a list, in terms of what the map shows. */
  lemma ListStepIs(items: seq<Item>, m: Store, op: Op, now: nat)
    requires !op.Purge? && !Writes(op) && HoldsAs(items, m, op.key)
    ensures var e := Visible(m, op.key, now);
      ListStep(items, op, now) ==
        if e.None? || op.Delete? then RemoveKey(items, op.key)
        else if op.Get? then RemoveKey(items, op.key) + [Item(op.key, e.value)]
        else if op.Expire? then ReplaceKey(items, op.key, Entry(e.value.value, Some(now + op.ttl)))
        else items
  {
    hide RemoveKey, ReplaceKey, Find;
    if op.Ttl? && op.key in m {
      ReplaceSame(items, op.key, m[op.key]);
    }
  }

  // ---------- Runs that evict nothing ----------

  ghost predicate NeverEvicts(layout: Layout, c: Cache, ops: seq<Op>, times: seq<nat>)
    requires Spreads(layout, c) && |times| == |ops|
  {
    forall i :: 0 <= i <= |ops| ==> CacheAt(layout, c, ops, times, i).log == c.log
  }

  /** Without evictions, no state of the run would use more bytes than the budget. */
  ghost predicate WithinBudget(layout: Layout, c: Cache, ops: seq<Op>, times: seq<nat>)
    requires Spreads(layout, c) && |times| == |ops|
  {
    forall i :: 0 <= i <= |ops| ==> UsedBy(CacheAt(layout.(max := USIZE_MAX), c, ops, times, i).lists) <= layout.max
  }

  lemma {:induction false} StaysWithinBudget(layout: Layout, c: Cache, ops: seq<Op>, times: seq<nat>, i: nat)
    requires Spreads(layout, c) && |times| == |ops| && i <= |ops|
    requires layout.max == USIZE_MAX || WithinBudget(layout, c, ops, times)
    ensures CacheAt(layout, c, ops, times, i) == CacheAt(layout.(max := USIZE_MAX), c, ops, times, i)
    ensures CacheAt(layout, c, ops, times, i).log == c.log
  {
    hide Called, UsedBy;
    if i > 0 {
      StaysWithinBudget(layout, c, ops, times, i - 1);
      var free := layout.(max := USIZE_MAX);
      var before := CacheAt(free, c, ops, times, i - 1);
      CalledAlike(layout, before, ops[i - 1], times[i - 1]);
      assert CacheAt(free, c, ops, times, i) == Called(layout, before, ops[i - 1], times[i - 1]);
    }
  }

  lemma CalledAlike(layout: Layout, c: Cache, op: Op, now: nat)
    requires Spreads(layout, c)
    ensures Called(layout.(max := USIZE_MAX), c, op, now) == Called(layout, c, op, now)
    ensures Called(layout, c, op, now).log == c.log
  {}

  /** A call that writes no value evicts nothing. */
  lemma QuietStep(layout: Layout, c: Cache, op: Op, now: nat, lists: seq<seq<Item>>, m: Store)
    requires Spreads(layout, c) && !Writes(op) && Called(layout, c, op, now).lists == lists
    ensures CacheStep(layout, c, op, now) == Cache(lists, c.log)
    ensures m == m - KeysLost(c.log, |c.log|)
  {
    hide ListStep, AllUnexpired;
  }

  /** An unlimited engine, and any engine whose bytes would stay within the budget, evicts nothing. */
  lemma WithinBudgetEvictsNothing(layout: Layout, c: Cache, ops: seq<Op>, times: seq<nat>)
    requires Spreads(layout, c) && |times| == |ops|
    requires layout.max == USIZE_MAX || WithinBudget(layout, c, ops, times)
    ensures NeverEvicts(layout, c, ops, times)
  {
    hide CacheAt, WithinBudget;
    forall i | 0 <= i <= |ops|
      ensures CacheAt(layout, c, ops, times, i).log == c.log
    {
      StaysWithinBudget(layout, c, ops, times, i);
    }
  }
}
