/**
  The sharded in-memory engine (`MemoryEngine`). Each operation is one call
  run to completion; the clock reading it takes is the parameter `now`.
 */
module Engine {
  import opened Prelude
  import opened Store
  import opened LruList
  import opened Masking
  import opened Shard
  import opened EngineState
  import opened LruCache

  method MakeShards(count: nat) returns (made: seq<ShardInner>)
    ensures |made| == count && fresh(made)
    ensures forall j, k :: 0 <= j < k < |made| ==> made[j] != made[k]
    ensures forall j :: 0 <= j < |made| ==>
      made[j].Valid(0, None) && made[j].Items() == [] && made[j].Contents() == map[]
  {
    hide ShardInner.Valid, ShardInner.Items, ShardInner.Contents;
    made := [];
    for i := 0 to count
      invariant |made| == i && fresh(made)
      invariant forall j, k :: 0 <= j < k < |made| ==> made[j] != made[k]
      invariant forall j :: 0 <= j < |made| ==>
        made[j].Valid(0, None) && made[j].Items() == [] && made[j].Contents() == map[]
    {
      var shard := new ShardInner();
      made := made + [shard];
    }
  }

  class MemoryEngine {
    const shards: seq<ShardInner>
    const shardMask: nat
    const hash: Key -> nat
    const maxBytes: nat
    var usedBytes: nat
    var evictionCursor: nat
    var nextTtlToken: nat

    /** log2 of the shard count. */
    ghost const bits: nat
    /** The map the engine stands for. */
    ghost var store: Store
    /** The evictions so far. */
    ghost var victims: seq<Eviction>

    ghost predicate Shape() {
      && bits <= 64
      && |shards| == Pow2(bits)
      && shardMask == |shards| - 1
      && forall i, j :: 0 <= i < j < |shards| ==> shards[i] != shards[j]
    }

    /** The LRU list of every shard. */
    ghost function Lists(): (lists: seq<seq<Item>>)
      reads shards
      ensures |lists| == |shards|
    {
      seq(|shards|, i requires 0 <= i < |shards| reads shards => shards[i].Items())
    }

    ghost function Maps(): (maps: seq<Store>)
      reads shards
      ensures |maps| == |shards|
    {
      seq(|shards|, i requires 0 <= i < |shards| reads shards => shards[i].Contents())
    }

    /** Everything but the validity of the single shards. */
    ghost predicate Coherent()
      reads this, shards
    {
      && Agrees(Maps(), store, hash, shardMask)
      && usedBytes == UsedBy(Lists())
    }

    /** The cursor counts the rounds of eviction, which took the shards in turn. */
    ghost predicate CursorCounts()
      reads this
    {
      evictionCursor == |victims| % TWO_64 && TakesTurns(victims, |shards|)
    }

    /** Valid, except that shard `s` may be halfway through rescheduling a slot. */
    ghost predicate ValidExcept(s: nat, hole: Option<nat>)
      reads this, shards
    {
      && Shape()
      && Coherent()
      && CursorCounts()
      && (forall i :: 0 <= i < |shards| ==> shards[i].Valid(nextTtlToken, if i == s then hole else None))
    }

    /** Valid, except for the eviction cursor. */
    ghost predicate Sound()
      reads this, shards
    {
      && Shape()
      && Coherent()
      && (forall i :: 0 <= i < |shards| ==> shards[i].Valid(nextTtlToken, None))
    }

    ghost predicate Valid()
      reads this, shards
    {
      Sound() && CursorCounts()
    }

    /** The engine as an LRU cache. */
    ghost function AsCache(): Cache
      reads this, shards
    {
      Cache(Lists(), victims)
    }

    ghost function AsLayout(): Layout {
      Layout(hash, shardMask, maxBytes)
    }

    /** The layout spreads the keys over the shards there are. */
    lemma LayoutSpreads()
      requires Valid()
      ensures Shape() && Spreads(AsLayout(), AsCache())
    {
      forall k
        ensures Owner(hash, shardMask, k) < |shards|
      {
        assert ShardIndex(k) < |shards|;
      }
    }

    function ShardIndex(key: Key): (s: nat)
      requires Shape()
      ensures s < |shards| && s == hash(key) % |shards|
    {
      MaskIsModulo(hash(key), bits);
      Owner(hash, shardMask, key)
    }

    /** An empty engine; the shard count is rounded up to a power of two. */
    constructor (count: nat, maxBytes: nat, hash: Key -> nat)
      requires count <= 0x8000_0000_0000_0000
      ensures Valid()
      ensures this.maxBytes == maxBytes && this.hash == hash
      ensures |shards| == Pow2(NormalizeShardCount(count))
      ensures store == map[] && usedBytes == 0 && victims == []
      ensures fresh(shards)
    {
      var bits := NormalizeShardCount(count);
      NormalizedBits(count);
      var made := MakeShards(Pow2(bits));
      this.shards, this.shardMask, this.hash, this.maxBytes := made, Pow2(bits) - 1, hash, maxBytes;
      this.usedBytes, this.evictionCursor, this.nextTtlToken := 0, 0, 1;
      this.bits, this.store, this.victims := bits, map[], [];
      new;
      EmptyIsValid();
    }

    lemma EmptyIsValid()
      requires Shape()
      requires forall i :: 0 <= i < |shards| ==>
        shards[i].Valid(0, None) && shards[i].Items() == [] && shards[i].Contents() == map[]
      requires usedBytes == evictionCursor == 0 && nextTtlToken == 1 && store == map[] && victims == []
      ensures Valid()
    {
      assert |shards| > 0;
      hide Shape, ShardInner.Valid, ShardInner.Items, ShardInner.Contents;
      forall i | 0 <= i < |shards|
        ensures shards[i].Valid(1, None)
      {
        shards[i].Weaken(0, 1, None);
      }
      AllEmptyUsesNothing(Lists());
    }

    /** What the index of the owning shard says about a key. */
    lemma Lookup(key: Key)
      requires Valid()
      ensures Find(Lists()[ShardIndex(key)], key) == if key in store then Some(store[key]) else None
      ensures var shard := shards[ShardIndex(key)];
        && (key in shard.index <==> key in store)
        && (key in store ==>
              && Live(shard.nodes, shard.index[key])
              && shard.nodes[shard.index[key]].value.ToItem() == Item(key, store[key]))
        && DistinctKeys(Lists()[ShardIndex(key)])
        && (key !in store ==> RemoveKey(Lists()[ShardIndex(key)], key) == Lists()[ShardIndex(key)])
    {
      hide Agrees, Structure, HeapExact, ItemsOf, ContentsOf;
      var s := ShardIndex(key);
      AgreesLookup(Maps(), store, hash, shardMask, key);
      shards[s].Lookup(key, nextTtlToken, None);
      shards[s].Distinctness(nextTtlToken, None);
      assert Lists()[s] == shards[s].Items() && Maps()[s] == shards[s].Contents();
      if key !in store {
        RemoveKeyAbsent(Lists()[s], key);
        FindAbsent(Lists()[s], key);
      } else {
        var p :| 0 <= p < |Lists()[s]| && Lists()[s][p].key == key;
        assert Mapped(Maps()[s], Lists()[s][p]);
        FindAt(Lists()[s], p);
      }
    }

    /** A call on shard `s` leaves the lists and maps of the others alone. */
    twostate lemma OnlyShard(s: nat)
      requires Shape() && s < |shards|
      requires forall i :: 0 <= i < |shards| && i != s ==> unchanged(shards[i])
      ensures Lists() == old(Lists())[s := shards[s].Items()]
      ensures Maps() == old(Maps())[s := shards[s].Contents()]
      ensures shards[s].Contents() == old(shards[s].Contents()) ==> Maps() == old(Maps())
      ensures old(Lists())[s] == old(shards[s].Items()) && old(Maps())[s] == old(shards[s].Contents())
    {
      hide Shape, ShardInner.Items, ShardInner.Contents;
    }

    /** Removes the entry in a slot and gives its bytes back. */
    method RemoveSlot(s: nat, idx: nat, ghost hole: Option<nat>)
      requires s < |shards| && ValidExcept(s, hole) && Live(shards[s].nodes, idx)
      requires hole.None? || hole == Some(idx)
      modifies shards[s], `usedBytes, `store
      ensures Valid()
      ensures var item := old(shards[s].nodes)[idx].value.ToItem();
        && item.key in old(store) && old(store)[item.key] == item.entry
        && store == old(store) - {item.key}
        && Lists() == old(Lists())[s := RemoveKey(old(Lists())[s], item.key)]
        && (forall i :: 0 <= i < |old(Lists())[s]| && old(Lists())[s][i].key == item.key ==> old(Lists())[s][i] == item)
    {
      hide Agrees, UsedBy, ShardInner.Valid, ShardInner.Items, ShardInner.Contents, Lists, Maps, Without, RemoveKey, TakesTurns;
      ghost var item := shards[s].nodes[idx].value.ToItem();
      shards[s].Distinctness(nextTtlToken, hole);
      var size, p := shards[s].RemoveIdx(idx, nextTtlToken, hole);
      OnlyShard(s);
      RemoveKeyAt(old(Lists())[s], p);
      OnlyOneAt(old(Lists())[s], p);
      UsedWithout(old(Lists()), s, p);
      assert Mapped(old(Maps())[s], old(Lists())[s][p]);
      AgreesRemove(old(Maps()), store, hash, shardMask, s, item.key);
      usedBytes := usedBytes - size.value;
      store := store - {item.key};
    }

    /** Marks the entry in a slot as most recently used. */
    method TouchSlot(s: nat, idx: nat)
      requires s < |shards| && Valid() && Live(shards[s].nodes, idx)
      modifies shards[s]
      ensures Valid()
      ensures var item := old(shards[s].nodes)[idx].value.ToItem();
        Lists() == old(Lists())[s := RemoveKey(old(Lists())[s], item.key) + [item]]
    {
      hide Agrees, UsedBy, ShardInner.Valid, ShardInner.Items, ShardInner.Contents, Lists, Maps, Without, RemoveKey, TakesTurns;
      shards[s].Distinctness(nextTtlToken, None);
      ghost var p := shards[s].Touch(idx, nextTtlToken, None);
      OnlyShard(s);
      RemoveKeyAt(old(Lists())[s], p);
      UsedMoved(old(Lists()), s, p, old(Lists())[s][p]);
    }

    /** `get`: expired entries are dropped, live ones become most recently used. */
    method Get(key: Key, now: nat) returns (r: Option<Value>)
      requires Valid()
      modifies this, shards
      ensures Valid()
      ensures Found(r) == Answer(old(store), Op.Get(key), now)
      ensures store == Step(old(store), Op.Get(key), now)
      ensures var s := ShardIndex(key);
        var rest := RemoveKey(old(Lists())[s], key);
        Lists() == old(Lists())[s := if r.Some? then rest + [Item(key, old(store)[key])] else rest]
      ensures victims == old(victims)
    {
      hide Coherent, ShardInner.Valid, TakesTurns, Find;
      Lookup(key);
      var s := ShardIndex(key);
      var shard := shards[s];
      if key !in shard.index {
        return None;
      }
      var idx := shard.index[key];
      var node := shard.nodes[idx].value;
      if node.Expired(now) {
        RemoveSlot(s, idx, None);
        return None;
      }
      r := Some(node.value);
      TouchSlot(s, idx);
    }

    /** `delete`: true when a live entry was removed. */
    method Delete(key: Key, now: nat) returns (removed: bool)
      requires Valid()
      modifies this, shards
      ensures Valid()
      ensures Deleted(removed) == Answer(old(store), Op.Delete(key), now)
      ensures store == Step(old(store), Op.Delete(key), now)
      ensures var s := ShardIndex(key);
        Lists() == old(Lists())[s := RemoveKey(old(Lists())[s], key)]
      ensures victims == old(victims)
    {
      hide Coherent, ShardInner.Valid, TakesTurns, Find;
      Lookup(key);
      var s := ShardIndex(key);
      var shard := shards[s];
      if key !in shard.index {
        assert store == store - {key};
        return false;
      }
      var idx := shard.index[key];
      var expired := shard.nodes[idx].value.Expired(now);
      RemoveSlot(s, idx, None);
      return !expired;
    }

    /** `ttl` */
    method Ttl(key: Key, now: nat) returns (r: TtlStatus)
      requires Valid()
      modifies this, shards
      ensures Valid()
      ensures Status(r) == Answer(old(store), Op.Ttl(key), now)
      ensures store == Step(old(store), Op.Ttl(key), now)
      ensures var s := ShardIndex(key);
        Lists() == if r.Missing? then old(Lists())[s := RemoveKey(old(Lists())[s], key)] else old(Lists())
      ensures victims == old(victims)
    {
      hide Coherent, ShardInner.Valid, TakesTurns, Find;
      Lookup(key);
      var s := ShardIndex(key);
      var shard := shards[s];
      if key !in shard.index {
        return Missing;
      }
      var idx := shard.index[key];
      var node := shard.nodes[idx].value;
      if node.Expired(now) {
        RemoveSlot(s, idx, None);
        return Missing;
      }
      match node.expiresAt {
        case None =>
          return NoExpiry;
        case Some(deadline) =>
          return ExpiresIn(deadline - now);
      }
    }

    /** Gives a live slot a new deadline, without touching its LRU position. */
    method RescheduleSlot(s: nat, idx: nat, expiresAt: nat)
      requires s < |shards| && Valid() && Live(shards[s].nodes, idx)
      requires s == Owner(hash, shardMask, shards[s].nodes[idx].value.key)
      modifies shards[s], `nextTtlToken, `store
      ensures Valid()
      ensures var item := old(shards[s].nodes)[idx].value.ToItem();
        var entry := Entry(item.entry.value, Some(expiresAt));
        && store == old(store)[item.key := entry]
        && Lists() == old(Lists())[s := ReplaceKey(old(Lists())[s], item.key, entry)]
    {
      hide Agrees, UsedBy, ShardInner.Valid, ShardInner.Items, ShardInner.Contents, Lists, Maps, Without, RemoveKey, TakesTurns;
      ghost var item := shards[s].nodes[idx].value.ToItem();
      ghost var entry := Entry(item.entry.value, Some(expiresAt));
      var token := nextTtlToken;
      nextTtlToken := token + 1;
      shards[s].Distinctness(token, None);
      ghost var p := shards[s].Reschedule(idx, expiresAt, token);
      OnlyShard(s);
      ReplaceKeyAt(old(Lists())[s], p, entry);
      UsedReplaced(old(Lists()), s, p, Item(item.key, entry));
      AgreesPut(old(Maps()), store, hash, shardMask, s, item.key, entry);
      store := store[item.key := entry];
      WeakenOthers(s, token);
    }

    /** After a token was issued, the other shards are valid for the new bound too. */
    lemma WeakenOthers(s: nat, token: nat)
      requires s < |shards| && token <= nextTtlToken
      requires forall i :: 0 <= i < |shards| && i != s ==> shards[i].Valid(token, None)
      ensures forall i :: 0 <= i < |shards| && i != s ==> shards[i].Valid(nextTtlToken, None)
    {
      forall i | 0 <= i < |shards| && i != s
        ensures shards[i].Valid(nextTtlToken, None)
      {
        shards[i].Weaken(token, nextTtlToken, None);
      }
    }

    /** `expire`: false stands for `NotFound`. */
    method Expire(key: Key, ttl: nat, now: nat) returns (applied: bool)
      requires Valid()
      modifies this, shards
      ensures Valid()
      ensures Rescheduled(applied) == Answer(old(store), Op.Expire(key, ttl), now)
      ensures store == Step(old(store), Op.Expire(key, ttl), now)
      ensures var s := ShardIndex(key);
        var list := old(Lists())[s];
        Lists() == old(Lists())[s := if applied then ReplaceKey(list, key, store[key]) else RemoveKey(list, key)]
      ensures victims == old(victims)
    {
      hide Coherent, ShardInner.Valid, TakesTurns, Find;
      Lookup(key);
      var s := ShardIndex(key);
      var shard := shards[s];
      if key !in shard.index {
        return false;
      }
      var idx := shard.index[key];
      if shard.nodes[idx].value.Expired(now) {
        RemoveSlot(s, idx, None);
        return false;
      }
      RescheduleSlot(s, idx, now + ttl);
      return true;
    }

    /** Charges the difference when an entry changes size. */
    method AdjustUsed(oldSize: nat, newSize: nat)
      requires oldSize <= usedBytes + newSize
      modifies `usedBytes
      ensures usedBytes == old(usedBytes) + newSize - oldSize
    {
      if newSize > oldSize {
        usedBytes := usedBytes + (newSize - oldSize);
      } else if oldSize > newSize {
        usedBytes := usedBytes - (oldSize - newSize);
      }
    }

    /** Overwrites a live entry: new value, new deadline, most recently used. */
    method OverwriteSlot(s: nat, idx: nat, value: Value, expiresAt: Option<nat>)
      requires s < |shards| && Valid() && Live(shards[s].nodes, idx)
      requires s == Owner(hash, shardMask, shards[s].nodes[idx].value.key)
      modifies shards[s], `usedBytes, `nextTtlToken, `store
      ensures Valid()
      ensures var key := old(shards[s].nodes)[idx].value.key;
        && store == old(store)[key := Entry(value, expiresAt)]
        && Lists() == old(Lists())[s := RemoveKey(old(Lists())[s], key) + [Item(key, Entry(value, expiresAt))]]
    {
      hide Agrees, UsedBy, ShardInner.Valid, ShardInner.Items, ShardInner.Contents, Lists, Maps, Without, RemoveKey, DistinctKeys, Owner, TakesTurns;
      var key, oldSize := shards[s].nodes[idx].value.key, shards[s].nodes[idx].value.size;
      var newSize := |key| + |value|;
      ghost var item := Item(key, Entry(value, expiresAt));
      var token := nextTtlToken;
      nextTtlToken := token + 1;
      shards[s].Distinctness(token, None);
      shards[s].SizeOf(idx, token);
      ghost var p := shards[s].Overwrite(idx, value, expiresAt, token);
      OnlyShard(s);
      RemoveKeyAt(old(Lists())[s], p);
      UsedMoved(old(Lists()), s, p, item);
      AdjustUsed(oldSize, newSize);
      assert usedBytes == UsedBy(Lists());
      AgreesPut(old(Maps()), store, hash, shardMask, s, key, item.entry);
      store := store[key := item.entry];
      assert Coherent();
      WeakenOthers(s, token);
    }

    /** Inserts an entry for a key the shard does not hold. */
    method InsertEntry(s: nat, key: Key, value: Value, expiresAt: Option<nat>)
      requires s < |shards| && Valid() && key !in shards[s].index
      requires s == Owner(hash, shardMask, key)
      modifies shards[s], `usedBytes, `nextTtlToken, `store
      ensures Valid()
      ensures store == old(store)[key := Entry(value, expiresAt)]
      ensures Lists() == old(Lists())[s := old(Lists())[s] + [Item(key, Entry(value, expiresAt))]]
    {
      hide Agrees, UsedBy, ShardInner.Valid, ShardInner.Items, ShardInner.Contents, Lists, Maps, Owner, TakesTurns;
      ghost var item := Item(key, Entry(value, expiresAt));
      var token := nextTtlToken;
      shards[s].Insert(key, value, expiresAt, token);
      if expiresAt.Some? {
        nextTtlToken := token + 1;
      }
      OnlyShard(s);
      UsedPushed(old(Lists()), s, item);
      usedBytes := usedBytes + (|key| + |value|);
      assert usedBytes == UsedBy(Lists());
      AgreesPut(old(Maps()), store, hash, shardMask, s, key, item.entry);
      store := store[key := item.entry];
      assert Coherent();
      WeakenOthers(s, token);
    }

    /** The locked part of `write_value`: the value and its deadline appear together. */
    method Put(key: Key, value: Value, ttl: Option<nat>, now: nat)
      requires Valid()
      modifies this, shards
      ensures Valid()
      ensures var entry := Entry(value, if ttl.Some? then Some(now + ttl.value) else None);
        var s := ShardIndex(key);
        && store == old(store)[key := entry]
        && Lists() == old(Lists())[s := RemoveKey(old(Lists())[s], key) + [Item(key, entry)]]
      ensures victims == old(victims)
    {
      hide Coherent, ShardInner.Valid, TakesTurns, Find;
      Lookup(key);
      var s := ShardIndex(key);
      var expiresAt := if ttl.Some? then Some(now + ttl.value) else None;
      var shard := shards[s];
      if key in shard.index {
        var idx := shard.index[key];
        if shard.nodes[idx].value.Expired(now) {
          RemoveSlot(s, idx, None);
        }
      }
      Lookup(key);
      if key in shard.index {
        OverwriteSlot(s, shard.index[key], value, expiresAt);
      } else {
        InsertEntry(s, key, value, expiresAt);
      }
    }

    /** Evicts the least recently used entry of one shard, if it has any. */
    method EvictOne(s: nat) returns (r: Option<nat>)
      requires Sound() && s < |shards|
      modifies shards[s], `usedBytes, `store
      ensures Sound()
      ensures r.None? <==> old(Lists())[s] == []
      ensures r.None? ==> Lists() == old(Lists()) && store == old(store) && usedBytes == old(usedBytes)
      ensures r.Some? ==>
        && Lists() == old(Lists())[s := old(Lists())[s][1..]]
        && old(Lists())[s][0].key in old(store)
        && store == old(store) - {old(Lists())[s][0].key}
    {
      hide Agrees, UsedBy, ShardInner.Valid, ShardInner.Items, ShardInner.Contents, Lists, Maps, TakesTurns;
      shards[s].Distinctness(nextTtlToken, None);
      r := shards[s].PopLru(nextTtlToken);
      OnlyShard(s);
      if r.Some? {
        ghost var item := old(Lists())[s][0];
        assert Mapped(old(Maps())[s], item);
        UsedPopped(old(Lists()), s);
        AgreesRemove(old(Maps()), store, hash, shardMask, s, item.key);
        usedBytes := usedBytes - r.value;
        store := store - {item.key};
      }
    }

    /** The wrapping `fetch_add` on the eviction cursor. */
    method AdvanceCursor() returns (start: nat)
      requires Valid()
      modifies `evictionCursor
      ensures start == old(evictionCursor)
      ensures evictionCursor == (|victims| + 1) % TWO_64
      ensures Sound() && Lists() == old(Lists())
    {
      hide Agrees, UsedBy, ShardInner.Valid, ShardInner.Items, ShardInner.Contents, TakesTurns;
      WrappedIncrement(|victims|, TWO_64);
      start := evictionCursor;
      evictionCursor := (start + 1) % TWO_64;
    }

    /**
      One round of `evict_if_needed`: advance the cursor, then take the least
      recently used entry of the first non-empty shard from there on. As long
      as bytes are in use there is one.
     */
    method EvictRound() returns (evicted: bool)
      requires Valid() && usedBytes > 0
      modifies this, shards
      ensures Valid() && evicted
      ensures old(Lists())[Victim(old(AsCache()))] != [] && AsCache() == Round(old(AsCache()))
      ensures var key := victims[|old(victims)|].key;
        key in old(store) && store == old(store) - {key}
    {
      hide Coherent, ShardInner.Valid, Lists, ScanIndex, RoundRobin, TakesTurns, FirstFull;
      ghost var c := AsCache();
      CursorModulo(|victims|, bits);
      assert TakesTurns(victims, |shards|);
      var start := AdvanceCursor();
      for offset := 0 to |shards|
        invariant Sound() && AsCache() == c
        invariant usedBytes == old(usedBytes) && store == old(store)
        invariant evictionCursor == (|victims| + 1) % TWO_64
        invariant EmptyBefore(Lists(), start, offset)
      {
        var idx := ScanIndex(start, offset, shardMask);
        ScanIndexIsModulo(start, offset, bits);
        var size := EvictOne(idx);
        if size.Some? {
          ScanFindsVictim(c, start, offset);
          RoundTakesTurn(c);
          LogEviction(Round(c).log[|c.log|]);
          return true;
        }
      }
      FullScanEmpty(Lists(), start);
      UsedIs();
      assert false;
    }

    ghost method LogEviction(e: Eviction)
      requires Sound() && evictionCursor == (|victims| + 1) % TWO_64
      requires TakesTurns(victims, |shards|) && (e.ownDry || e.shard == |victims| % |shards|)
      modifies `victims
      ensures victims == old(victims) + [e]
      ensures Valid() && Lists() == old(Lists())
    {
      hide Agrees, UsedBy, ShardInner.Valid, ShardInner.Items, ShardInner.Contents;
      victims := victims + [e];
    }

    lemma UsedIs()
      requires Sound()
      ensures usedBytes == UsedBy(Lists())
    {}

    /**
      `evict_if_needed`: entries leave in LRU order per shard, round-robin over
      the shards, until the budget is met. The "nothing evicted" exit of the
      loop is never taken, because `EvictRound` always evicts.
     */
    method EvictIfNeeded()
      requires Valid()
      modifies this, shards
      ensures Valid()
      ensures AsCache() == if maxBytes == USIZE_MAX then old(AsCache()) else Evict(old(AsCache()), maxBytes)
      ensures old(victims) <= victims && store == old(store) - KeysLost(victims, |old(victims)|)
      ensures maxBytes != USIZE_MAX ==> usedBytes <= maxBytes
      ensures old(usedBytes) <= maxBytes || maxBytes == USIZE_MAX ==> AsCache() == old(AsCache()) && store == old(store)
      ensures LostPrefixes(old(AsCache()), AsCache()) && DryMarksHonest(old(AsCache()), AsCache())
      ensures |shards| == 1 && maxBytes != USIZE_MAX ==> LongestFitting(old(Lists())[0], Lists()[0], maxBytes)
    {
      hide Coherent, ShardInner.Valid, Lists, Maps, UsedBy, LostPrefixes, DryMarksHonest, LongestFitting, TakesTurns;
      hide Victim, Round, KeysLost;
      ghost var c, from := AsCache(), |victims|;
      UsedIs();
      NothingLost(victims, store);
      EvictMeaning(c, maxBytes);
      if maxBytes == USIZE_MAX {
        EvictedNothing(c);
        return;
      }
      while usedBytes > maxBytes
        invariant Valid() && from <= |victims| && c.log <= victims
        invariant Evict(AsCache(), maxBytes) == Evict(c, maxBytes)
        invariant store == old(store) - KeysLost(victims, from)
        invariant old(usedBytes) <= maxBytes ==> AsCache() == c && store == old(store) && usedBytes == old(usedBytes)
        decreases |store|
      {
        ghost var before, m := AsCache(), store;
        UsedIs();
        var evicted := EvictRound();
        if !evicted {
          break;
        }
        RoundLogs(before);
        KeysLostAppend(before.log, from, victims[|before.log|]);
        LoseOneMore(old(store), m, KeysLost(before.log, from), victims[|before.log|].key);
        RemovedSize(m, victims[|before.log|].key);
      }
      UsedIs();
    }

    /** `write_value`: the locked write, then eviction. */
    method WriteValue(key: Key, value: Value, ttl: Option<nat>, now: nat)
      requires Valid()
      modifies this, shards
      ensures Valid()
      ensures var entry := Entry(value, if ttl.Some? then Some(now + ttl.value) else None);
        var s := ShardIndex(key);
        var written := Cache(old(Lists())[s := RemoveKey(old(Lists())[s], key) + [Item(key, entry)]], old(victims));
        && store == old(store)[key := entry] - KeysLost(victims, |old(victims)|)
        && AsCache() == (if maxBytes == USIZE_MAX then written else Evict(written, maxBytes))
        && LostPrefixes(written, AsCache()) && DryMarksHonest(written, AsCache())
        && (|shards| == 1 && maxBytes != USIZE_MAX ==> LongestFitting(written.lists[0], Lists()[0], maxBytes))
        && (UsedBy(written.lists) <= maxBytes || maxBytes == USIZE_MAX ==>
              AsCache() == written && store == old(store)[key := entry])
      ensures old(victims) <= victims
      ensures maxBytes != USIZE_MAX ==> usedBytes <= maxBytes
    {
      hide Coherent, ShardInner.Valid, Lists, Maps, LostPrefixes, DryMarksHonest, LongestFitting, Evict, KeysLost, TakesTurns;
      Put(key, value, ttl, now);
      UsedIs();
      EvictIfNeeded();
    }

    /** The map and the cache after call `op`, whatever eviction took. */
    twostate predicate Performed(op: Op, now: nat)
      reads this, shards
    {
      && Valid() && Spreads(AsLayout(), old(AsCache()))
      && AsCache() == CacheStep(AsLayout(), old(AsCache()), op, now)
      && old(victims) <= victims
      && store == Step(old(store), op, now) - KeysLost(victims, |old(victims)|)
    }

    /** `set` and `set_with_ttl`: the written map, less what eviction took to meet the budget. */
    method Set(key: Key, value: Value, now: nat)
      requires Valid()
      modifies this, shards
      ensures Performed(Op.Set(key, value), now)
      ensures maxBytes != USIZE_MAX ==> usedBytes <= maxBytes
      ensures maxBytes == USIZE_MAX ==> store == Step(old(store), Op.Set(key, value), now)
    {
      hide Valid, Lists, LostPrefixes, DryMarksHonest, LongestFitting, Evict, KeysLost, Find, RemoveKey, ReplaceKey;
      LayoutSpreads();
      WriteValue(key, value, None, now);
    }

    method SetWithTtl(key: Key, value: Value, ttl: nat, now: nat)
      requires Valid()
      modifies this, shards
      ensures Performed(Op.SetWithTtl(key, value, ttl), now)
      ensures maxBytes != USIZE_MAX ==> usedBytes <= maxBytes
      ensures maxBytes == USIZE_MAX ==> store == Step(old(store), Op.SetWithTtl(key, value, ttl), now)
    {
      hide Valid, Lists, LostPrefixes, DryMarksHonest, LongestFitting, Evict, KeysLost, Find, RemoveKey, ReplaceKey;
      LayoutSpreads();
      WriteValue(key, value, Some(ttl), now);
    }

    /** Pops the next due heap entry of one shard. */
    method PopDue(s: nat, now: nat) returns (r: Option<ExpirationEntry>)
      requires Valid() && s < |shards|
      modifies shards[s]
      ensures Lists() == old(Lists())
      ensures r.None? ==>
        && Valid()
        && (forall e :: e in shards[s].ttlHeap ==> e.expiresAt > now)
        && (forall i :: 0 <= i < |Lists()[s]| ==> !Lists()[s][i].entry.Expired(now))
        && (forall k :: k in store && Owner(hash, shardMask, k) == s ==> !store[k].Expired(now))
      ensures r.Some? ==>
        && Live(shards[s].nodes, r.value.idx)
        && shards[s].nodes[r.value.idx].value.Expired(now)
        && ValidExcept(s, Some(r.value.idx))
    {
      hide UsedBy, ShardInner.Valid, Lists, Maps, TakesTurns;
      r := shards[s].PopDueExpiration(now, nextTtlToken);
      OnlyShard(s);
      assert Lists() == old(Lists());
      if r.None? {
        shards[s].Drained(nextTtlToken, now);
        forall k | k in store && Owner(hash, shardMask, k) == s
          ensures !store[k].Expired(now)
        {
          assert Holds(Maps(), s, k, store[k]);
        }
      }
    }

    /** The inner loop of `purge_expired`: drains one shard of its due entries. */
    method PurgeShard(s: nat, now: nat) returns (removed: nat)
      requires Valid() && s < |shards|
      modifies shards[s], `usedBytes, `store
      ensures Valid()
      ensures Lists() == old(Lists())[s := Unexpired(old(Lists())[s], now)]
      ensures forall e :: e in shards[s].ttlHeap ==> e.expiresAt > now
      ensures |store| + removed == |old(store)|
      ensures Submap(store, old(store))
      ensures forall k :: k in old(store) && k !in store ==> old(store)[k].Expired(now)
      ensures forall k :: k in store && Owner(hash, shardMask, k) == s ==> !store[k].Expired(now)
    {
      hide Coherent, ShardInner.Valid, Lists, Maps, RemoveKey, Unexpired, Owner, Shape, TakesTurns;
      removed := 0;
      ghost var items := Lists()[s];
      var due := true;
      while due
        invariant Valid()
        invariant Lists() == old(Lists())[s := Lists()[s]]
        invariant Unexpired(Lists()[s], now) == Unexpired(items, now)
        invariant |store| + removed == |old(store)| && Submap(store, old(store))
        invariant forall k :: k in old(store) && k !in store ==> old(store)[k].Expired(now)
        invariant !due ==>
          && Lists()[s] == Unexpired(items, now)
          && (forall e :: e in shards[s].ttlHeap ==> e.expiresAt > now)
          && (forall k :: k in store && Owner(hash, shardMask, k) == s ==> !store[k].Expired(now))
        decreases due, |store|
      {
        ghost var lists: seq<seq<Item>>, before := Lists(), store;
        var entry := PopDue(s, now);
        if entry.None? {
          due := false;
          UnexpiredAll(Lists()[s], now);
        } else {
          ghost var key := shards[s].nodes[entry.value.idx].value.key;
          RemoveSlot(s, entry.value.idx, Some(entry.value.idx));
          UnexpiredRemoveKey(lists[s], key, now);
          RemovedSize(before, key);
          removed := removed + 1;
        }
      }
    }

    /** `purge_expired`: removes exactly the entries that are due, and counts them. */
    method PurgeExpired(now: nat) returns (removed: nat)
      requires Valid()
      modifies this, shards
      ensures Valid()
      ensures Purged(removed) == Answer(old(store), Purge, now)
      ensures store == Step(old(store), Purge, now)
      ensures forall i :: 0 <= i < |shards| ==> Lists()[i] == Unexpired(old(Lists())[i], now)
      ensures forall i, e :: 0 <= i < |shards| && e in shards[i].ttlHeap ==> e.expiresAt > now
      ensures victims == old(victims)
    {
      hide Coherent, ShardInner.Valid, Lists, Maps, Unexpired, TakesTurns;
      removed := 0;
      for s := 0 to |shards|
        invariant Valid() && victims == old(victims)
        invariant forall i :: 0 <= i < |shards| ==>
          Lists()[i] == if i < s then Unexpired(old(Lists())[i], now) else old(Lists())[i]
        invariant forall i, e :: 0 <= i < s && e in shards[i].ttlHeap ==> e.expiresAt > now
        invariant |store| + removed == |old(store)| && Submap(store, old(store))
        invariant forall k :: k in old(store) && k !in store ==> old(store)[k].Expired(now)
        invariant forall k :: k in store && Owner(hash, shardMask, k) < s ==> !store[k].Expired(now)
      {
        var count := PurgeShard(s, now);
        removed := removed + count;
      }
      forall k | k in store
        ensures !store[k].Expired(now)
      {
        assert ShardIndex(k) < |shards|;
      }
      assert store == WithoutExpired(old(store), now);
    }
  }
}
