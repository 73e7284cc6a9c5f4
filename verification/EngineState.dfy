/** How the shards of the engine together make up one map and one byte count. */
module EngineState {
  import opened Prelude
  import opened Store
  import opened LruList
  import opened Masking

  /** The shard a key belongs to. */
  function Owner(hash: Key -> nat, mask: nat, key: Key): nat {
    And(hash(key), mask)
  }

  /** The shard maps partition `store` by owner. */
  ghost predicate Agrees(maps: seq<Store>, store: Store, hash: Key -> nat, mask: nat) {
    && (forall k :: k in store ==> Holds(maps, Owner(hash, mask, k), k, store[k]))
    && (forall i, k :: 0 <= i < |maps| && k in maps[i] ==> i == Owner(hash, mask, k) && k in store)
  }

  ghost predicate Holds(maps: seq<Store>, i: nat, k: Key, e: Entry) {
    i < |maps| && k in maps[i] && maps[i][k] == e
  }

  lemma AgreesRemove(maps: seq<Store>, store: Store, hash: Key -> nat, mask: nat, s: nat, key: Key)
    requires Agrees(maps, store, hash, mask) && s < |maps| && key in maps[s]
    ensures Agrees(maps[s := maps[s] - {key}], store - {key}, hash, mask)
    ensures key in store && store[key] == maps[s][key]
  {
    var maps' := maps[s := maps[s] - {key}];
    assert key in store;
    assert Holds(maps, s, key, store[key]);
    forall k | k in store - {key}
      ensures Holds(maps', Owner(hash, mask, k), k, store[k])
    {
      assert Holds(maps, Owner(hash, mask, k), k, store[k]);
    }
  }

  lemma AgreesPut(maps: seq<Store>, store: Store, hash: Key -> nat, mask: nat, s: nat, key: Key, e: Entry)
    requires Agrees(maps, store, hash, mask) && s < |maps| && s == Owner(hash, mask, key)
    ensures Agrees(maps[s := maps[s][key := e]], store[key := e], hash, mask)
  {
    var maps' := maps[s := maps[s][key := e]];
    forall k | k in store[key := e]
      ensures Holds(maps', Owner(hash, mask, k), k, store[key := e][k])
    {
      if k != key {
        assert Holds(maps, Owner(hash, mask, k), k, store[k]);
      }
    }
  }

  lemma AgreesLookup(maps: seq<Store>, store: Store, hash: Key -> nat, mask: nat, key: Key)
    requires Agrees(maps, store, hash, mask) && Owner(hash, mask, key) < |maps|
    ensures key in maps[Owner(hash, mask, key)] <==> key in store
    ensures key in store ==> maps[Owner(hash, mask, key)][key] == store[key]
  {
    if key in store {
      assert Holds(maps, Owner(hash, mask, key), key, store[key]);
    }
  }

  ghost function Sizes(lists: seq<seq<Item>>): seq<nat> {
    seq(|lists|, i requires 0 <= i < |lists| => TotalSize(lists[i]))
  }

  /** Bytes held by all shards together. */
  ghost function UsedBy(lists: seq<seq<Item>>): nat {
    Sum(Sizes(lists))
  }

  lemma UsedUpdate(lists: seq<seq<Item>>, s: nat, list: seq<Item>)
    requires s < |lists|
    ensures UsedBy(lists[s := list]) + TotalSize(lists[s]) == UsedBy(lists) + TotalSize(list)
    ensures TotalSize(lists[s]) <= UsedBy(lists)
  {
    assert Sizes(lists[s := list]) == Sizes(lists)[s := TotalSize(list)];
    SumUpdate(Sizes(lists), s, TotalSize(list));
    SumAtLeast(Sizes(lists), s);
  }

  lemma UsedWithout(lists: seq<seq<Item>>, s: nat, p: nat)
    requires s < |lists| && p < |lists[s]|
    ensures UsedBy(lists) == UsedBy(lists[s := Without(lists[s], p)]) + lists[s][p].Size()
  {
    UsedUpdate(lists, s, Without(lists[s], p));
    TotalSizeWithout(lists[s], p);
  }

  /** Byte count after the entry at `p` is taken out and `item` put at the end. */
  lemma UsedMoved(lists: seq<seq<Item>>, s: nat, p: nat, item: Item)
    requires s < |lists| && p < |lists[s]|
    ensures UsedBy(lists[s := Without(lists[s], p) + [item]]) + lists[s][p].Size() == UsedBy(lists) + item.Size()
    ensures lists[s][p].Size() <= UsedBy(lists)
  {
    UsedUpdate(lists, s, Without(lists[s], p) + [item]);
    TotalSizeWithout(lists[s], p);
    TotalSizePush(Without(lists[s], p), item);
  }

  lemma UsedReplaced(lists: seq<seq<Item>>, s: nat, p: nat, item: Item)
    requires s < |lists| && p < |lists[s]|
    ensures UsedBy(lists[s := lists[s][p := item]]) + lists[s][p].Size() == UsedBy(lists) + item.Size()
  {
    UsedUpdate(lists, s, lists[s][p := item]);
    TotalSizeWithout(lists[s], p);
    TotalSizeWithout(lists[s][p := item], p);
    assert Without(lists[s][p := item], p) == Without(lists[s], p);
  }

  lemma UsedPushed(lists: seq<seq<Item>>, s: nat, item: Item)
    requires s < |lists|
    ensures UsedBy(lists[s := lists[s] + [item]]) == UsedBy(lists) + item.Size()
  {
    UsedUpdate(lists, s, lists[s] + [item]);
    TotalSizePush(lists[s], item);
  }

  lemma UsedPopped(lists: seq<seq<Item>>, s: nat)
    requires s < |lists| && lists[s] != []
    ensures UsedBy(lists) == UsedBy(lists[s := lists[s][1..]]) + lists[s][0].Size()
  {
    UsedWithout(lists, s, 0);
    assert Without(lists[s], 0) == lists[s][1..];
  }

  lemma SingleListUses(lists: seq<seq<Item>>)
    requires |lists| == 1
    ensures UsedBy(lists) == TotalSize(lists[0])
  {
    var sizes := Sizes(lists);
    assert sizes[1..] == [];
    assert Sum(sizes) == sizes[0] + Sum(sizes[1..]);
  }

  lemma RemovedSize(store: Store, key: Key)
    requires key in store
    ensures |store - {key}| == |store| - 1
  {
    assert (store - {key}).Keys == store.Keys - {key};
    assert |store - {key}| == |(store - {key}).Keys| && |store| == |store.Keys|;
  }

  lemma AllEmptyUsesNothing(lists: seq<seq<Item>>)
    requires forall i :: 0 <= i < |lists| ==> lists[i] == []
    ensures UsedBy(lists) == 0
  {
    SumZero(Sizes(lists));
  }

  /** The first `k` shards of a scan from `start` are empty. */
  ghost predicate EmptyBefore(lists: seq<seq<Item>>, start: nat, k: nat) {
    |lists| > 0 && forall o :: 0 <= o < k ==> lists[RoundRobin(start, o, |lists|)] == []
  }

  lemma FullScanEmpty(lists: seq<seq<Item>>, start: nat)
    requires EmptyBefore(lists, start, |lists|)
    ensures UsedBy(lists) == 0
  {
    forall s | 0 <= s < |lists|
      ensures lists[s] == []
    {
      RoundRobinReaches(start, |lists|, s, OffsetOf(start, |lists|, s));
    }
    AllEmptyUsesNothing(lists);
  }

  /** `small` is `big` with some entries missing. */
  ghost predicate Submap(small: Store, big: Store) {
    forall k :: k in small ==> k in big && small[k] == big[k]
  }
}
