/**
  The abstract view of one shard: its entries in least-recently-used order,
  oldest first.
 */
module LruList {
  import opened Prelude
  import opened Store

  datatype Item = Item(key: Key, entry: Entry) {
    /** Byte size used for eviction accounting: key plus value. */
    function Size(): nat {
      |key| + |entry.value|
    }
  }

  ghost function TotalSize(items: seq<Item>): nat {
    if items == [] then 0 else items[0].Size() + TotalSize(items[1..])
  }

  lemma {:induction false} TotalSizeAppend(s: seq<Item>, t: seq<Item>)
    ensures TotalSize(s + t) == TotalSize(s) + TotalSize(t)
  {
    if s == [] {
      assert s + t == t;
    } else {
      assert (s + t)[1..] == s[1..] + t;
      TotalSizeAppend(s[1..], t);
    }
  }

  lemma {:induction false} TotalSizeWithout(items: seq<Item>, p: nat)
    requires p < |items|
    ensures TotalSize(items) == TotalSize(Without(items, p)) + items[p].Size()
  {
    var rest := Without(items, p);
    if p == 0 {
      assert rest == items[1..];
    } else {
      TotalSizeWithout(items[1..], p - 1);
      assert rest[0] == items[0] && rest[1..] == Without(items[1..], p - 1);
    }
  }

  lemma TotalSizePush(items: seq<Item>, item: Item)
    ensures TotalSize(items + [item]) == TotalSize(items) + item.Size()
  {
    TotalSizeAppend(items, [item]);
  }

  // ---------- Addressing by key ----------

  ghost predicate DistinctKeys(items: seq<Item>) {
    forall i, j :: 0 <= i < j < |items| ==> items[i].key != items[j].key
  }

  /** The list without the entry for `key`, the rest in order. */
  ghost function RemoveKey(items: seq<Item>, key: Key): seq<Item> {
    if items == [] then []
    else (if items[0].key == key then [] else [items[0]]) + RemoveKey(items[1..], key)
  }

  /** The list with the entry for `key` rewritten where it stands. */
  ghost function ReplaceKey(items: seq<Item>, key: Key, entry: Entry): seq<Item> {
    seq(|items|, i requires 0 <= i < |items| => if items[i].key == key then Item(key, entry) else items[i])
  }

  /** The entry listed under a key. */
  ghost function Find(items: seq<Item>, key: Key): Option<Entry> {
    if items == [] then None
    else if items[0].key == key then Some(items[0].entry)
    else Find(items[1..], key)
  }

  lemma {:induction false} FindAt(items: seq<Item>, p: nat)
    requires DistinctKeys(items) && p < |items|
    ensures Find(items, items[p].key) == Some(items[p].entry)
  {
    if p > 0 {
      FindAt(items[1..], p - 1);
    }
  }

  lemma {:induction false} FindAbsent(items: seq<Item>, key: Key)
    requires forall i :: 0 <= i < |items| ==> items[i].key != key
    ensures Find(items, key) == None
  {
    if items != [] {
      FindAbsent(items[1..], key);
    }
  }

  lemma {:induction false} RemoveKeyAbsent(items: seq<Item>, key: Key)
    requires forall i :: 0 <= i < |items| ==> items[i].key != key
    ensures RemoveKey(items, key) == items
  {
    if items != [] {
      RemoveKeyAbsent(items[1..], key);
    }
  }

  lemma {:induction false} RemoveKeyAt(items: seq<Item>, p: nat)
    requires DistinctKeys(items) && p < |items|
    ensures RemoveKey(items, items[p].key) == Without(items, p)
  {
    if p == 0 {
      RemoveKeyAbsent(items[1..], items[0].key);
      assert Without(items, 0) == items[1..];
    } else {
      RemoveKeyAt(items[1..], p - 1);
      assert Without(items, p) == [items[0]] + Without(items[1..], p - 1);
    }
  }

  lemma DistinctAt(items: seq<Item>, p: nat, q: nat)
    requires DistinctKeys(items) && p < |items| && q < |items| && items[p].key == items[q].key
    ensures p == q
  {}

  lemma OnlyOneAt(items: seq<Item>, p: nat)
    requires DistinctKeys(items) && p < |items|
    ensures forall i :: 0 <= i < |items| && items[i].key == items[p].key ==> items[i] == items[p]
  {
    forall i | 0 <= i < |items| && items[i].key == items[p].key
      ensures i == p
    {
      DistinctAt(items, i, p);
    }
  }

  /** Rewriting an entry and then moving it to the end. */
  lemma UpdatedThenTouched(items: seq<Item>, p: nat, q: nat, item: Item)
    requires DistinctKeys(items) && p < |items| && q < |items| && item.key == items[p].key
    requires DistinctKeys(items[p := item]) && items[p := item][q] == item
    ensures p == q
    ensures Without(items[p := item], q) + [item] == Without(items, p) + [item] == RemoveKey(items, item.key) + [item]
  {
    DistinctAt(items[p := item], p, q);
    RemoveKeyAt(items, p);
    assert Without(items[p := item], p) == Without(items, p);
  }

  lemma ReplaceKeyAt(items: seq<Item>, p: nat, entry: Entry)
    requires DistinctKeys(items) && p < |items|
    ensures ReplaceKey(items, items[p].key, entry) == items[p := Item(items[p].key, entry)]
  {
    forall i | 0 <= i < |items| && i != p
      ensures items[i].key != items[p].key
    {
      if i < p {
        assert items[i].key != items[p].key;
      } else {
        assert items[p].key != items[i].key;
      }
    }
  }

  /** The entries still alive at `now`, in the same order. */
  ghost function Unexpired(items: seq<Item>, now: nat): (r: seq<Item>)
    ensures forall i :: 0 <= i < |r| ==> !r[i].entry.Expired(now)
  {
    if items == [] then []
    else (if items[0].entry.Expired(now) then [] else [items[0]]) + Unexpired(items[1..], now)
  }

  lemma {:induction false} UnexpiredRemoveKey(items: seq<Item>, key: Key, now: nat)
    requires forall i :: 0 <= i < |items| && items[i].key == key ==> items[i].entry.Expired(now)
    ensures Unexpired(RemoveKey(items, key), now) == Unexpired(items, now)
  {
    if items != [] {
      UnexpiredRemoveKey(items[1..], key, now);
      if items[0].key != key {
        assert RemoveKey(items, key)[1..] == RemoveKey(items[1..], key);
      } else {
        assert RemoveKey(items, key) == RemoveKey(items[1..], key);
      }
    }
  }

  lemma {:induction false} UnexpiredAll(items: seq<Item>, now: nat)
    requires forall i :: 0 <= i < |items| ==> !items[i].entry.Expired(now)
    ensures Unexpired(items, now) == items
  {
    if items != [] {
      UnexpiredAll(items[1..], now);
    }
  }
}
