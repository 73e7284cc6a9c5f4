/**
  One shard of the in-memory engine (`ShardInner`): a key index, a node arena
  with a free list, an LRU list threaded through the arena by index, and a
  TTL heap whose stale entries are discarded lazily.
 */
module Shard {
  import opened Prelude
  import opened Store
  import opened LruList

  datatype Node = Node(
    key: Key,
    value: Value,
    expiresAt: Option<nat>,
    ttlToken: nat,
    size: nat,
    prev: Option<nat>,
    next: Option<nat>)
  {
    predicate Expired(now: nat) {
      expiresAt.Some? && now >= expiresAt.value
    }

    function ToItem(): Item {
      Item(key, Entry(value, expiresAt))
    }
  }

  type Arena = seq<Option<Node>>

  datatype ExpirationEntry = ExpirationEntry(expiresAt: nat, idx: nat, token: nat) {
    /** The heap order: deadline, then slot, then token. */
    predicate AtMost(other: ExpirationEntry) {
      || expiresAt < other.expiresAt
      || (expiresAt == other.expiresAt &&
          (idx < other.idx || (idx == other.idx && token <= other.token)))
    }
  }

  // ---------- Structural invariants, over values ----------

  predicate Live(nodes: Arena, i: int) {
    0 <= i < |nodes| && nodes[i].Some?
  }

  ghost function At(order: seq<nat>, k: int): Option<nat> {
    if 0 <= k < |order| then Some(order[k]) else None
  }

  ghost predicate Distinct(s: seq<nat>) {
    forall j, k :: 0 <= j < k < |s| ==> s[j] != s[k]
  }

  /** The node at position `k` of `order` points at its neighbours there. */
  ghost predicate LinkedAt(nodes: Arena, order: seq<nat>, k: nat)
    requires k < |order|
  {
    && order[k] < |nodes|
    && nodes[order[k]].Some?
    && nodes[order[k]].value.prev == At(order, k - 1)
    && nodes[order[k]].value.next == At(order, k + 1)
  }

  /**
    `head`/`next` and `tail`/`prev` both trace the sequence `order`, which
    visits live slots only and none of them twice.
   */
  ghost predicate Linked(nodes: Arena, order: seq<nat>, head: Option<nat>, tail: Option<nat>) {
    && Distinct(order)
    && head == At(order, 0)
    && tail == At(order, |order| - 1)
    && (forall k :: 0 <= k < |order| ==> LinkedAt(nodes, order, k))
  }

  /** Every live slot is on the list. */
  ghost predicate Covers(nodes: Arena, order: seq<nat>) {
    forall i :: Live(nodes, i) ==> i in order
  }

  /** The index is a bijection onto the live slots, with matching keys. */
  ghost predicate Indexed(index: map<Key, nat>, nodes: Arena) {
    && (forall k :: k in index ==> Live(nodes, index[k]) && nodes[index[k]].value.key == k)
    && (forall i :: Live(nodes, i) ==>
          nodes[i].value.key in index && index[nodes[i].value.key] == i)
  }

  /** The free list is exactly the empty slots, without duplicates. */
  ghost predicate FreeExact(free: seq<nat>, nodes: Arena) {
    && Distinct(free)
    && (forall i :: i in free ==> i < |nodes| && nodes[i].None?)
    && (forall i :: 0 <= i < |nodes| && nodes[i].None? ==> i in free)
  }

  ghost predicate Sized(nodes: Arena) {
    forall i :: Live(nodes, i) ==> nodes[i].value.size == nodes[i].value.ToItem().Size()
  }

  /** `nodes` and `nodes'` differ in LRU links only. */
  ghost predicate SameData(nodes: Arena, nodes': Arena) {
    && |nodes| == |nodes'|
    && forall i :: 0 <= i < |nodes| ==>
         && nodes[i].Some? == nodes'[i].Some?
         && (nodes[i].Some? ==> nodes'[i].value == nodes[i].value.(prev := nodes'[i].value.prev, next := nodes'[i].value.next))
  }

  /**
    For the deadline each live slot carries now, the heap holds exactly one
    matching entry, and no entry was stamped with a token still to be issued.
    While a slot is being rescheduled or removed it may be the `hole`.
   */
  ghost predicate HeapExact(heap: multiset<ExpirationEntry>, nodes: Arena, tokens: nat, hole: Option<nat>) {
    && (forall i :: Live(nodes, i) && nodes[i].value.expiresAt.Some? && Some(i) != hole ==>
          heap[DeadlineOf(nodes, i)] == 1)
    && (forall e :: e in heap ==> e.token < tokens)
  }

  ghost function DeadlineOf(nodes: Arena, i: nat): ExpirationEntry
    requires Live(nodes, i) && nodes[i].value.expiresAt.Some?
  {
    ExpirationEntry(nodes[i].value.expiresAt.value, i, nodes[i].value.ttlToken)
  }

  // ---------- Abstract view ----------

  ghost function ItemAt(nodes: Arena, i: nat): Item {
    if Live(nodes, i) then nodes[i].value.ToItem() else Item([], Entry([], None))
  }

  ghost function ItemsOf(nodes: Arena, order: seq<nat>): (items: seq<Item>)
    ensures |items| == |order|
  {
    seq(|order|, k requires 0 <= k < |order| => ItemAt(nodes, order[k]))
  }

  ghost function ContentsOf(index: map<Key, nat>, nodes: Arena): map<Key, Entry> {
    map k | k in index :: ItemAt(nodes, index[k]).entry
  }

  ghost predicate Structure(index: map<Key, nat>, nodes: Arena, free: seq<nat>,
                            order: seq<nat>, head: Option<nat>, tail: Option<nat>) {
    && Linked(nodes, order, head, tail)
    && Covers(nodes, order)
    && Indexed(index, nodes)
    && FreeExact(free, nodes)
    && Sized(nodes)
  }

  lemma SameDataSameItems(nodes: Arena, nodes': Arena, i: nat)
    requires SameData(nodes, nodes')
    ensures ItemAt(nodes, i) == ItemAt(nodes', i)
  {}

  /** Relinking leaves index, free list, sizes and heap agreement alone. */
  lemma RelinkKeepsData(index: map<Key, nat>, nodes: Arena, nodes': Arena, free: seq<nat>,
                        heap: multiset<ExpirationEntry>, tokens: nat, hole: Option<nat>)
    requires SameData(nodes, nodes')
    requires Indexed(index, nodes) && FreeExact(free, nodes) && Sized(nodes)
    requires HeapExact(heap, nodes, tokens, hole)
    ensures Indexed(index, nodes') && FreeExact(free, nodes') && Sized(nodes')
    ensures HeapExact(heap, nodes', tokens, hole)
    ensures ContentsOf(index, nodes') == ContentsOf(index, nodes)
  {
    forall i | Live(nodes', i) && nodes'[i].value.expiresAt.Some?
      ensures Live(nodes, i) && nodes[i].value.expiresAt.Some? && DeadlineOf(nodes', i) == DeadlineOf(nodes, i)
    {}
    forall i | Live(nodes', i)
      ensures Live(nodes, i) && nodes'[i].value.key == nodes[i].value.key
      ensures nodes'[i].value.size == nodes[i].value.size && nodes'[i].value.ToItem() == nodes[i].value.ToItem()
    {}
  }

  // ---------- Link surgery, over values ----------

  /** What detaching the slot at position `p` does to the links. */
  ghost predicate Unlinked(nodes: Arena, nodes': Arena, order: seq<nat>, p: nat)
    requires p < |order|
  {
    && |nodes'| == |nodes|
    && LinkedAt(nodes, order, p)
    && (forall i :: 0 <= i < |nodes| && i != order[p] && Some(i) != At(order, p - 1) && Some(i) != At(order, p + 1)
          ==> nodes'[i] == nodes[i])
    && (p > 0 ==> LinkedAt(nodes, order, p - 1) && nodes'[order[p - 1]] == Some(nodes[order[p - 1]].value.(next := At(order, p + 1))))
    && (p + 1 < |order| ==> LinkedAt(nodes, order, p + 1) && nodes'[order[p + 1]] == Some(nodes[order[p + 1]].value.(prev := At(order, p - 1))))
    && nodes'[order[p]] == Some(nodes[order[p]].value.(prev := None, next := None))
  }

  lemma WithoutAt(order: seq<nat>, p: nat, k: int)
    requires p < |order|
    ensures At(Without(order, p), k) == if k < p then At(order, k) else At(order, k + 1)
  {}

  lemma WithoutKeepsDistinct(s: seq<nat>, p: nat)
    requires p < |s| && Distinct(s)
    ensures Distinct(Without(s, p))
  {
    var rest := Without(s, p);
    forall j, k | 0 <= j < k < |rest|
      ensures rest[j] != rest[k]
    {
      assert rest[j] == s[if j < p then j else j + 1];
      assert rest[k] == s[if k < p then k else k + 1];
    }
  }

  lemma UnlinkedAt(nodes: Arena, nodes': Arena, order: seq<nat>, head: Option<nat>, tail: Option<nat>, p: nat, k: nat)
    requires p < |order| && Linked(nodes, order, head, tail) && Unlinked(nodes, nodes', order, p)
    requires k < |order| && k != p
    ensures order[k] < |nodes'| && nodes'[order[k]].Some?
    ensures nodes'[order[k]].value.prev == if k == p + 1 then At(order, p - 1) else At(order, k - 1)
    ensures nodes'[order[k]].value.next == if k + 1 == p then At(order, p + 1) else At(order, k + 1)
  {
    assert LinkedAt(nodes, order, k);
  }

  lemma UnlinkedRestAt(nodes: Arena, nodes': Arena, order: seq<nat>, head: Option<nat>, tail: Option<nat>, p: nat, k: nat)
    requires p < |order| && Linked(nodes, order, head, tail) && Unlinked(nodes, nodes', order, p)
    requires k < |order| - 1
    ensures LinkedAt(nodes', Without(order, p), k)
  {
    WithoutAt(order, p, k - 1);
    WithoutAt(order, p, k);
    WithoutAt(order, p, k + 1);
    UnlinkedAt(nodes, nodes', order, head, tail, p, if k < p then k else k + 1);
  }

  lemma UnlinkedIsLinked(nodes: Arena, nodes': Arena, order: seq<nat>, head: Option<nat>, tail: Option<nat>, p: nat)
    requires p < |order| && Linked(nodes, order, head, tail) && Unlinked(nodes, nodes', order, p)
    ensures Linked(nodes', Without(order, p),
                   if p == 0 then At(order, 1) else head,
                   if p == |order| - 1 then At(order, p - 1) else tail)
  {
    WithoutKeepsDistinct(order, p);
    forall k | 0 <= k < |order| - 1
      ensures LinkedAt(nodes', Without(order, p), k)
    {
      UnlinkedRestAt(nodes, nodes', order, head, tail, p, k);
    }
    WithoutAt(order, p, 0);
    WithoutAt(order, p, |order| - 2);
  }

  /** What appending slot `idx` does to the links. */
  ghost predicate Pushed(nodes: Arena, nodes': Arena, order: seq<nat>, idx: nat) {
    && Live(nodes, idx)
    && |nodes'| == |nodes|
    && (forall i :: 0 <= i < |nodes| && i != idx && Some(i) != At(order, |order| - 1) ==> nodes'[i] == nodes[i])
    && nodes'[idx] == Some(nodes[idx].value.(prev := At(order, |order| - 1), next := None))
    && (order != [] ==>
          && LinkedAt(nodes, order, |order| - 1)
          && nodes'[order[|order| - 1]] == Some(nodes[order[|order| - 1]].value.(next := Some(idx))))
  }

  lemma PushedIsLinked(nodes: Arena, nodes': Arena, order: seq<nat>, head: Option<nat>, tail: Option<nat>, idx: nat)
    requires Linked(nodes, order, head, tail) && idx !in order && Pushed(nodes, nodes', order, idx)
    ensures Linked(nodes', order + [idx], if order == [] then Some(idx) else head, Some(idx))
  {
    var longer := order + [idx];
    forall k | 0 <= k < |longer|
      ensures LinkedAt(nodes', longer, k)
    {
      if k < |order| {
        assert LinkedAt(nodes, order, k) && order[k] != idx;
        assert longer[k] == order[k];
        assert At(longer, k - 1) == At(order, k - 1);
      }
    }
  }

  /** Clearing a slot that is off the list. */
  lemma ClearedSlot(index: map<Key, nat>, nodes: Arena, free: seq<nat>,
                    heap: multiset<ExpirationEntry>, tokens: nat, idx: nat)
    requires Live(nodes, idx)
    requires Indexed(index, nodes) && FreeExact(free, nodes) && Sized(nodes)
    requires HeapExact(heap, nodes, tokens, Some(idx))
    ensures var nodes' := nodes[idx := None];
      var index' := index - {nodes[idx].value.key};
      && Indexed(index', nodes') && FreeExact(free + [idx], nodes') && Sized(nodes')
      && HeapExact(heap, nodes', tokens, None)
      && ContentsOf(index', nodes') == ContentsOf(index, nodes) - {nodes[idx].value.key}
  {
    var nodes' := nodes[idx := None];
    var index' := index - {nodes[idx].value.key};
    forall i | Live(nodes', i)
      ensures Live(nodes, i) && i != idx && nodes'[i] == nodes[i]
    {}
    assert FreeExact(free + [idx], nodes') by {
      assert idx !in free;
    }
    forall i | Live(nodes', i) && nodes'[i].value.expiresAt.Some?
      ensures heap[DeadlineOf(nodes', i)] == 1
    {
      assert DeadlineOf(nodes', i) == DeadlineOf(nodes, i);
    }
    forall k | k in index'
      ensures index'[k] != idx && Live(nodes', index'[k]) && nodes'[index'[k]] == nodes[index[k]]
    {}
  }

  ghost function PositionOf(nodes: Arena, order: seq<nat>, idx: nat): (p: nat)
    requires Covers(nodes, order) && Live(nodes, idx)
    ensures p < |order| && order[p] == idx
  {
    assert idx in order;
    var p :| 0 <= p < |order| && order[p] == idx;
    p
  }

  lemma WithoutMembers(s: seq<nat>, p: nat, x: nat)
    requires p < |s| && Distinct(s)
    ensures x in Without(s, p) <==> x in s && x != s[p]
  {
    var rest := Without(s, p);
    if x in s && x != s[p] {
      var i :| 0 <= i < |s| && s[i] == x;
      assert rest[if i < p then i else i - 1] == x;
    }
    if x in rest {
      var j :| 0 <= j < |rest| && rest[j] == x;
      assert s[if j < p then j else j + 1] == x;
    }
  }

  lemma ItemsWithout(nodes: Arena, nodes': Arena, order: seq<nat>, p: nat)
    requires p < |order|
    requires forall k :: 0 <= k < |order| && k != p ==> ItemAt(nodes', order[k]) == ItemAt(nodes, order[k])
    ensures ItemsOf(nodes', Without(order, p)) == Without(ItemsOf(nodes, order), p)
  {
    var rest := Without(order, p);
    var items := ItemsOf(nodes, order);
    forall k | 0 <= k < |rest|
      ensures ItemsOf(nodes', rest)[k] == Without(items, p)[k]
    {
      var old_k := if k < p then k else k + 1;
      assert rest[k] == order[old_k] && Without(items, p)[k] == items[old_k];
    }
  }

  /** Emptying the slot that was at position `p` keeps the shortened list. */
  lemma ClearedList(nodes: Arena, nodes': Arena, order: seq<nat>, p: nat, head': Option<nat>, tail': Option<nat>)
    requires p < |order| && Distinct(order) && Covers(nodes, order) && Live(nodes, order[p])
    requires SameData(nodes, nodes') && Linked(nodes', Without(order, p), head', tail')
    ensures var cleared := nodes'[order[p] := None];
      && Linked(cleared, Without(order, p), head', tail')
      && Covers(cleared, Without(order, p))
      && ItemsOf(cleared, Without(order, p)) == Without(ItemsOf(nodes, order), p)
  {
    var rest := Without(order, p);
    var cleared := nodes'[order[p] := None];
    forall k | 0 <= k < |rest|
      ensures LinkedAt(cleared, rest, k)
    {
      WithoutMembers(order, p, rest[k]);
      assert LinkedAt(nodes', rest, k);
    }
    forall i | Live(cleared, i)
      ensures i in rest
    {
      WithoutMembers(order, p, i);
    }
    forall k | 0 <= k < |order| && k != p
      ensures ItemAt(cleared, order[k]) == ItemAt(nodes, order[k])
    {
      SameDataSameItems(nodes, nodes', order[k]);
    }
    ItemsWithout(nodes, cleared, order, p);
  }

  /** A removal, from the state before unlinking to the state after clearing the slot. */
  lemma RemovedSlot(index: map<Key, nat>, nodes: Arena, nodes': Arena, free: seq<nat>, order: seq<nat>,
                    head: Option<nat>, tail: Option<nat>, head': Option<nat>, tail': Option<nat>,
                    heap: multiset<ExpirationEntry>, tokens: nat, hole: Option<nat>, p: nat)
    requires Structure(index, nodes, free, order, head, tail) && p < |order| && Live(nodes, order[p])
    requires HeapExact(heap, nodes, tokens, hole) && (hole.None? || hole == Some(order[p]))
    requires SameData(nodes, nodes') && Linked(nodes', Without(order, p), head', tail')
    ensures var idx := order[p];
      var key := nodes[idx].value.key;
      && Structure(index - {key}, nodes'[idx := None], free + [idx], Without(order, p), head', tail')
      && HeapExact(heap, nodes'[idx := None], tokens, None)
      && ItemsOf(nodes, order)[p] == nodes[idx].value.ToItem()
      && ItemsOf(nodes, order)[p].Size() == nodes[idx].value.size
      && ItemsOf(nodes'[idx := None], Without(order, p)) == Without(ItemsOf(nodes, order), p)
      && ContentsOf(index - {key}, nodes'[idx := None]) == ContentsOf(index, nodes) - {key}
  {
    RelinkKeepsData(index, nodes, nodes', free, heap, tokens, Some(order[p]));
    ClearedSlot(index, nodes', free, heap, tokens, order[p]);
    ClearedList(nodes, nodes', order, p, head', tail');
  }

  lemma SameDataTransitive(a: Arena, b: Arena, c: Arena)
    requires SameData(a, b) && SameData(b, c)
    ensures SameData(a, c)
  {}

  lemma SameDataLive(nodes: Arena, nodes': Arena, i: nat)
    requires SameData(nodes, nodes') && Live(nodes, i)
    ensures Live(nodes', i)
    ensures nodes'[i].value.ToItem() == nodes[i].value.ToItem()
    ensures nodes'[i].value.ttlToken == nodes[i].value.ttlToken
  {}

  lemma WithoutOmits(nodes: Arena, order: seq<nat>, head: Option<nat>, tail: Option<nat>, p: nat)
    requires Linked(nodes, order, head, tail) && p < |order|
    ensures order[p] !in Without(order, p)
  {
    WithoutMembers(order, p, order[p]);
  }

  lemma TailTouched(nodes: Arena, order: seq<nat>, head: Option<nat>, tail: Option<nat>, p: nat)
    requires Linked(nodes, order, head, tail) && p < |order| && tail == Some(order[p])
    ensures order == Without(order, p) + [order[p]]
    ensures SameData(nodes, nodes)
  {
    assert p == |order| - 1;
  }

  /** Moving position `p` to the end of the list, data untouched. */
  lemma TouchedSlot(index: map<Key, nat>, nodes: Arena, nodes': Arena, free: seq<nat>, order: seq<nat>,
                    head: Option<nat>, tail: Option<nat>, head': Option<nat>, tail': Option<nat>,
                    heap: multiset<ExpirationEntry>, tokens: nat, hole: Option<nat>, p: nat)
    requires Structure(index, nodes, free, order, head, tail) && p < |order| && Live(nodes, order[p])
    requires HeapExact(heap, nodes, tokens, hole)
    requires SameData(nodes, nodes') && Linked(nodes', Without(order, p) + [order[p]], head', tail')
    ensures var order' := Without(order, p) + [order[p]];
      && Structure(index, nodes', free, order', head', tail')
      && HeapExact(heap, nodes', tokens, hole)
      && ItemsOf(nodes, order)[p] == nodes[order[p]].value.ToItem()
      && ItemsOf(nodes', order') == Without(ItemsOf(nodes, order), p) + [ItemsOf(nodes, order)[p]]
      && ContentsOf(index, nodes') == ContentsOf(index, nodes)
  {
    var rest := Without(order, p);
    RelinkKeepsData(index, nodes, nodes', free, heap, tokens, hole);
    forall i | Live(nodes', i)
      ensures i in rest + [order[p]]
    {
      assert Live(nodes, i) && i in order;
      WithoutMembers(order, p, i);
      assert (rest + [order[p]])[|rest|] == order[p];
    }
    forall k | 0 <= k < |order|
      ensures ItemAt(nodes', order[k]) == ItemAt(nodes, order[k])
    {
      SameDataSameItems(nodes, nodes', order[k]);
    }
    ItemsWithout(nodes, nodes', order, p);
    assert ItemsOf(nodes', rest + [order[p]]) == ItemsOf(nodes', rest) + [ItemAt(nodes', order[p])];
  }

  /** The slot `insert_new` picks is empty, or one past the end. */
  lemma FreshSlot(nodes: Arena, free: seq<nat>)
    requires FreeExact(free, nodes)
    ensures |free| > 0 ==> free[|free| - 1] < |nodes| && nodes[free[|free| - 1]].None?
  {}

  /** A node without deadline put in an empty slot, not yet on the list. */
  lemma PlacedSlot(index: map<Key, nat>, nodes: Arena, nodes': Arena, free: seq<nat>, free': seq<nat>, order: seq<nat>,
                   head: Option<nat>, tail: Option<nat>, heap: multiset<ExpirationEntry>, tokens: nat, node: Node, idx: nat)
    requires Structure(index, nodes, free, order, head, tail) && HeapExact(heap, nodes, tokens, None)
    requires node.key !in index && node.expiresAt.None? && node.size == node.ToItem().Size()
    requires if |free| > 0
             then idx == free[|free| - 1] && idx < |nodes| && free' == free[..|free| - 1] && nodes' == nodes[idx := Some(node)]
             else idx == |nodes| && free' == free && nodes' == nodes + [Some(node)]
    ensures Linked(nodes', order, head, tail) && idx !in order && Live(nodes', idx)
    ensures forall i :: Live(nodes', i) ==> i == idx || i in order
    ensures Indexed(index[node.key := idx], nodes') && FreeExact(free', nodes') && Sized(nodes')
    ensures HeapExact(heap, nodes', tokens, None)
    ensures ItemsOf(nodes', order) == ItemsOf(nodes, order) && ItemAt(nodes', idx) == node.ToItem()
    ensures ContentsOf(index[node.key := idx], nodes') == ContentsOf(index, nodes)[node.key := node.ToItem().entry]
  {
    assert !Live(nodes, idx);
    PlacedList(nodes, nodes', order, head, tail, node, idx);
    PlacedFree(nodes, nodes', free, free', node, idx);
    PlacedHeap(heap, nodes, nodes', tokens, idx);
    PlacedIndex(index, nodes, nodes', node, idx);
    hide FreeExact, HeapExact, Indexed, Linked, ItemsOf, ContentsOf;
  }

  lemma PlacedList(nodes: Arena, nodes': Arena, order: seq<nat>, head: Option<nat>, tail: Option<nat>, node: Node, idx: nat)
    requires Linked(nodes, order, head, tail) && Covers(nodes, order)
    requires |nodes| <= |nodes'| && !Live(nodes, idx) && Live(nodes', idx) && nodes'[idx].value == node
    requires forall i :: 0 <= i < |nodes| && i != idx ==> nodes'[i] == nodes[i]
    requires forall i :: Live(nodes', i) && i != idx ==> Live(nodes, i)
    ensures Linked(nodes', order, head, tail) && idx !in order
    ensures forall i :: Live(nodes', i) ==> i == idx || i in order
    ensures ItemsOf(nodes', order) == ItemsOf(nodes, order) && ItemAt(nodes', idx) == node.ToItem()
  {
    PlacedLinks(nodes, nodes', order, head, tail, idx);
    hide Linked, ItemsOf;
    forall i | Live(nodes', i)
      ensures i == idx || i in order
    {
      assert i != idx ==> Live(nodes, i);
    }
  }

  /** Filling a slot off the list changes neither the list nor what it lists. */
  lemma PlacedLinks(nodes: Arena, nodes': Arena, order: seq<nat>, head: Option<nat>, tail: Option<nat>, idx: nat)
    requires Linked(nodes, order, head, tail) && |nodes| <= |nodes'| && !Live(nodes, idx)
    requires forall i :: 0 <= i < |nodes| && i != idx ==> nodes'[i] == nodes[i]
    ensures Linked(nodes', order, head, tail) && idx !in order && ItemsOf(nodes', order) == ItemsOf(nodes, order)
  {
    hide LinkedAt;
    forall k | 0 <= k < |order|
      ensures LinkedAt(nodes', order, k) && order[k] != idx && ItemAt(nodes', order[k]) == ItemAt(nodes, order[k])
    {
      assert LinkedAt(nodes, order, k);
      PlacedLink(nodes, nodes', order, k, idx);
    }
  }

  lemma PlacedLink(nodes: Arena, nodes': Arena, order: seq<nat>, k: nat, idx: nat)
    requires k < |order| && LinkedAt(nodes, order, k) && |nodes| <= |nodes'| && !Live(nodes, idx)
    requires forall i :: 0 <= i < |nodes| && i != idx ==> nodes'[i] == nodes[i]
    ensures LinkedAt(nodes', order, k) && order[k] != idx && ItemAt(nodes', order[k]) == ItemAt(nodes, order[k])
  {}

  lemma PlacedFree(nodes: Arena, nodes': Arena, free: seq<nat>, free': seq<nat>, node: Node, idx: nat)
    requires FreeExact(free, nodes)
    requires if |free| > 0
             then idx == free[|free| - 1] && idx < |nodes| && free' == free[..|free| - 1] && nodes' == nodes[idx := Some(node)]
             else idx == |nodes| && free' == free && nodes' == nodes + [Some(node)]
    ensures FreeExact(free', nodes')
  {
    forall i | i in free'
      ensures i < |nodes'| && nodes'[i].None?
    {
      var j :| 0 <= j < |free'| && free'[j] == i;
      assert free[j] == i && i != idx;
      assert i in free;
    }
    forall i | 0 <= i < |nodes'| && nodes'[i].None?
      ensures i in free'
    {
      assert i in free;
      var j :| 0 <= j < |free| && free[j] == i;
      assert free'[j] == i;
    }
  }

  lemma PlacedHeap(heap: multiset<ExpirationEntry>, nodes: Arena, nodes': Arena, tokens: nat, idx: nat)
    requires HeapExact(heap, nodes, tokens, None)
    requires forall i :: Live(nodes', i) && i != idx ==> Live(nodes, i) && nodes'[i] == nodes[i]
    requires Live(nodes', idx) && nodes'[idx].value.expiresAt.None?
    ensures HeapExact(heap, nodes', tokens, None)
  {
    forall i | Live(nodes', i) && nodes'[i].value.expiresAt.Some?
      ensures heap[DeadlineOf(nodes', i)] == 1
    {
      assert DeadlineOf(nodes', i) == DeadlineOf(nodes, i);
    }
  }

  lemma PlacedIndex(index: map<Key, nat>, nodes: Arena, nodes': Arena, node: Node, idx: nat)
    requires Indexed(index, nodes) && node.key !in index
    requires |nodes| <= |nodes'| && !Live(nodes, idx) && Live(nodes', idx) && nodes'[idx].value == node
    requires forall i :: 0 <= i < |nodes| && i != idx ==> nodes'[i] == nodes[i]
    requires forall i :: Live(nodes', i) && i != idx ==> Live(nodes, i)
    ensures Indexed(index[node.key := idx], nodes')
    ensures ContentsOf(index[node.key := idx], nodes') == ContentsOf(index, nodes)[node.key := node.ToItem().entry]
  {
    forall k | k in index
      ensures index[k] != idx && ItemAt(nodes', index[k]) == ItemAt(nodes, index[k])
    {}
  }

  lemma PushedSlot(index: map<Key, nat>, nodes: Arena, nodes': Arena, free: seq<nat>, order: seq<nat>,
                   head': Option<nat>, tail': Option<nat>, heap: multiset<ExpirationEntry>, tokens: nat, idx: nat)
    requires Indexed(index, nodes) && FreeExact(free, nodes) && Sized(nodes) && HeapExact(heap, nodes, tokens, None)
    requires forall i :: Live(nodes, i) ==> i == idx || i in order
    requires SameData(nodes, nodes') && Linked(nodes', order + [idx], head', tail')
    ensures Structure(index, nodes', free, order + [idx], head', tail')
    ensures HeapExact(heap, nodes', tokens, None)
    ensures ItemsOf(nodes', order + [idx]) == ItemsOf(nodes, order) + [ItemAt(nodes, idx)]
    ensures ContentsOf(index, nodes') == ContentsOf(index, nodes)
  {
    RelinkKeepsData(index, nodes, nodes', free, heap, tokens, None);
    assert (order + [idx])[|order|] == idx;
    forall i | Live(nodes', i)
      ensures i in order + [idx]
    {
      assert Live(nodes, i);
    }
    forall k | 0 <= k < |order + [idx]|
      ensures ItemAt(nodes', (order + [idx])[k]) == ItemAt(nodes, (order + [idx])[k])
    {
      SameDataSameItems(nodes, nodes', (order + [idx])[k]);
    }
  }

  /** Rewriting the data of a live node in place. */
  lemma RewrittenSlot(index: map<Key, nat>, nodes: Arena, free: seq<nat>, order: seq<nat>, head: Option<nat>, tail: Option<nat>,
                      heap: multiset<ExpirationEntry>, tokens: nat, node: Node, p: nat)
    requires Structure(index, nodes, free, order, head, tail) && HeapExact(heap, nodes, tokens, None)
    requires p < |order| && Live(nodes, order[p]) && node.size == node.ToItem().Size()
    requires node.key == nodes[order[p]].value.key
    requires node.prev == nodes[order[p]].value.prev && node.next == nodes[order[p]].value.next
    ensures var idx := order[p];
      var nodes' := nodes[idx := Some(node)];
      && Structure(index, nodes', free, order, head, tail)
      && HeapExact(heap, nodes', tokens, if node.expiresAt.Some? then Some(idx) else None)
      && ItemsOf(nodes, order)[p] == nodes[idx].value.ToItem()
      && ItemsOf(nodes', order) == ItemsOf(nodes, order)[p := node.ToItem()]
      && ContentsOf(index, nodes') == ContentsOf(index, nodes)[node.key := node.ToItem().entry]
  {
    var idx := order[p];
    var nodes' := nodes[idx := Some(node)];
    RewrittenList(nodes, nodes', order, head, tail, node, p);
    RewrittenHeap(heap, nodes, nodes', tokens, node, idx);
    RewrittenIndex(index, nodes, nodes', free, node, idx);
    hide FreeExact, HeapExact, Indexed, Linked, Covers, Sized, ItemsOf, ContentsOf;
  }

  lemma RewrittenList(nodes: Arena, nodes': Arena, order: seq<nat>, head: Option<nat>, tail: Option<nat>, node: Node, p: nat)
    requires Linked(nodes, order, head, tail) && Covers(nodes, order)
    requires p < |order| && Live(nodes, order[p]) && nodes' == nodes[order[p] := Some(node)]
    requires node.prev == nodes[order[p]].value.prev && node.next == nodes[order[p]].value.next
    ensures Linked(nodes', order, head, tail) && Covers(nodes', order)
    ensures ItemsOf(nodes, order)[p] == nodes[order[p]].value.ToItem()
    ensures ItemsOf(nodes', order) == ItemsOf(nodes, order)[p := node.ToItem()]
  {
    forall k | 0 <= k < |order|
      ensures LinkedAt(nodes', order, k)
    {
      assert LinkedAt(nodes, order, k);
    }
    forall i | Live(nodes', i)
      ensures i in order
    {
      assert Live(nodes, i);
    }
    forall k | 0 <= k < |order|
      ensures ItemAt(nodes', order[k]) == if k == p then node.ToItem() else ItemAt(nodes, order[k])
    {}
  }

  lemma RewrittenHeap(heap: multiset<ExpirationEntry>, nodes: Arena, nodes': Arena, tokens: nat, node: Node, idx: nat)
    requires HeapExact(heap, nodes, tokens, None) && Live(nodes, idx) && nodes' == nodes[idx := Some(node)]
    ensures HeapExact(heap, nodes', tokens, if node.expiresAt.Some? then Some(idx) else None)
  {
    forall i | Live(nodes', i) && nodes'[i].value.expiresAt.Some? && i != idx
      ensures heap[DeadlineOf(nodes', i)] == 1
    {
      assert Live(nodes, i) && DeadlineOf(nodes', i) == DeadlineOf(nodes, i);
    }
  }

  lemma RewrittenIndex(index: map<Key, nat>, nodes: Arena, nodes': Arena, free: seq<nat>, node: Node, idx: nat)
    requires Indexed(index, nodes) && FreeExact(free, nodes) && Sized(nodes)
    requires Live(nodes, idx) && nodes' == nodes[idx := Some(node)]
    requires node.key == nodes[idx].value.key && node.size == node.ToItem().Size()
    ensures Indexed(index, nodes') && FreeExact(free, nodes') && Sized(nodes')
    ensures ContentsOf(index, nodes') == ContentsOf(index, nodes)[node.key := node.ToItem().entry]
  {
    forall i
      ensures Live(nodes', i) <==> Live(nodes, i)
    {}
    forall k | k in index
      ensures ItemAt(nodes', index[k]) == if k == node.key then node.ToItem() else ItemAt(nodes, index[k])
    {}
  }

  /** Discarding a heap entry that matches no live node. */
  lemma StalePopped(heap: multiset<ExpirationEntry>, nodes: Arena, tokens: nat, e: ExpirationEntry)
    requires HeapExact(heap, nodes, tokens, None)
    requires Live(nodes, e.idx) && nodes[e.idx].value.expiresAt.Some? ==> e != DeadlineOf(nodes, e.idx)
    ensures HeapExact(heap - multiset{e}, nodes, tokens, None)
  {
    forall i | Live(nodes, i) && nodes[i].value.expiresAt.Some?
      ensures (heap - multiset{e})[DeadlineOf(nodes, i)] == 1
    {
      assert DeadlineOf(nodes, i).idx == i;
    }
  }

  lemma DuePopped(heap: multiset<ExpirationEntry>, nodes: Arena, tokens: nat, e: ExpirationEntry)
    requires HeapExact(heap, nodes, tokens, None)
    ensures HeapExact(heap - multiset{e}, nodes, tokens, Some(e.idx))
  {
    forall i | Live(nodes, i) && nodes[i].value.expiresAt.Some? && i != e.idx
      ensures (heap - multiset{e})[DeadlineOf(nodes, i)] == 1
    {
      assert DeadlineOf(nodes, i).idx == i;
    }
  }

  lemma AtMostTotal(a: ExpirationEntry, b: ExpirationEntry)
    ensures a.AtMost(b) || b.AtMost(a)
  {}

  lemma AtMostTransitive(a: ExpirationEntry, b: ExpirationEntry, c: ExpirationEntry)
    requires a.AtMost(b) && b.AtMost(c)
    ensures a.AtMost(c)
  {}

  lemma {:induction false} HeapMinimum(heap: multiset<ExpirationEntry>) returns (m: ExpirationEntry)
    requires |heap| > 0
    ensures m in heap && forall e :: e in heap ==> m.AtMost(e)
    decreases |heap|
  {
    hide ExpirationEntry.AtMost;
    var x :| x in heap;
    AtMostTotal(x, x);
    var rest := heap - multiset{x};
    m := x;
    if |rest| > 0 {
      var least := HeapMinimum(rest);
      AtMostTotal(x, least);
      m := if x.AtMost(least) then x else least;
    }
    forall e | e in heap
      ensures m.AtMost(e)
    {
      if e != x {
        assert e in rest;
        if m == x {
          var least :| least in rest && x.AtMost(least) && least.AtMost(e);
          AtMostTransitive(x, least, e);
        }
      }
    }
  }

  /** Once every heap entry lies in the future, no live node is expired. */
  lemma HeapDrained(index: map<Key, nat>, nodes: Arena, order: seq<nat>, heap: multiset<ExpirationEntry>, tokens: nat, now: nat)
    requires HeapExact(heap, nodes, tokens, None) && Indexed(index, nodes)
    requires forall e :: e in heap ==> e.expiresAt > now
    ensures forall k :: 0 <= k < |order| ==> !ItemsOf(nodes, order)[k].entry.Expired(now)
    ensures forall key :: key in ContentsOf(index, nodes) ==> !ContentsOf(index, nodes)[key].Expired(now)
  {
    forall i: nat
      ensures !ItemAt(nodes, i).entry.Expired(now)
    {
      if Live(nodes, i) && nodes[i].value.expiresAt.Some? {
        assert DeadlineOf(nodes, i) in heap;
      }
    }
  }

  ghost predicate Listed(items: seq<Item>, key: Key) {
    exists p :: 0 <= p < |items| && items[p].key == key
  }

  ghost predicate Mapped(m: Store, item: Item) {
    item.key in m && m[item.key] == item.entry
  }

  /** Every listed item is in the map, under a key no other item has, and every entry of the map is listed. */
  lemma ItemsDistinct(index: map<Key, nat>, nodes: Arena, free: seq<nat>, order: seq<nat>, head: Option<nat>, tail: Option<nat>)
    requires Structure(index, nodes, free, order, head, tail)
    ensures DistinctKeys(ItemsOf(nodes, order))
    ensures forall k :: 0 <= k < |order| ==> Mapped(ContentsOf(index, nodes), ItemsOf(nodes, order)[k])
    ensures forall key :: key in ContentsOf(index, nodes) ==> Listed(ItemsOf(nodes, order), key)
  {
    forall key | key in ContentsOf(index, nodes)
      ensures Listed(ItemsOf(nodes, order), key)
    {
      var p := PositionOf(nodes, order, index[key]);
      assert ItemsOf(nodes, order)[p].key == key;
    }
    forall k | 0 <= k < |order|
      ensures Live(nodes, order[k]) && Mapped(ContentsOf(index, nodes), ItemsOf(nodes, order)[k])
      ensures index[ItemsOf(nodes, order)[k].key] == order[k]
    {
      assert LinkedAt(nodes, order, k);
    }
  }

  class ShardInner {
    var index: map<Key, nat>
    var nodes: Arena
    var free: seq<nat>
    var ttlHeap: multiset<ExpirationEntry>
    var head: Option<nat>
    var tail: Option<nat>
    ghost var order: seq<nat>

    ghost predicate Valid(tokens: nat, hole: Option<nat>)
      reads this
    {
      && Structure(index, nodes, free, order, head, tail)
      && HeapExact(ttlHeap, nodes, tokens, hole)
    }

    /** The entries, least recently used first. */
    ghost function Items(): seq<Item>
      reads this
    {
      ItemsOf(nodes, order)
    }

    ghost function Contents(): map<Key, Entry>
      reads this
    {
      ContentsOf(index, nodes)
    }

    /** Tokens issued later do not disturb the heap. */
    lemma Weaken(tokens: nat, tokens': nat, hole: Option<nat>)
      requires Valid(tokens, hole) && tokens <= tokens'
      ensures Valid(tokens', hole)
    {
      hide Structure;
    }

    /** `Items` and `Contents` describe the same entries. */
    lemma Distinctness(tokens: nat, hole: Option<nat>)
      requires Valid(tokens, hole)
      ensures DistinctKeys(Items())
      ensures forall k :: 0 <= k < |Items()| ==> Mapped(Contents(), Items()[k])
      ensures forall key :: key in Contents() ==> Listed(Items(), key)
    {
      ItemsDistinct(index, nodes, free, order, head, tail);
    }

    /** With only future deadlines on the heap, nothing here is expired. */
    lemma Drained(tokens: nat, now: nat)
      requires Valid(tokens, None) && forall e :: e in ttlHeap ==> e.expiresAt > now
      ensures forall i :: 0 <= i < |Items()| ==> !Items()[i].entry.Expired(now)
      ensures forall k :: k in Contents() ==> !Contents()[k].Expired(now)
    {
      HeapDrained(index, nodes, order, ttlHeap, tokens, now);
    }

    lemma SizeOf(idx: nat, tokens: nat)
      requires Valid(tokens, None) && Live(nodes, idx)
      ensures nodes[idx].value.size == nodes[idx].value.ToItem().Size()
    {
      hide Linked, Covers, Indexed, FreeExact, HeapExact;
    }

    /** The index finds exactly the entries of `Contents`. */
    lemma Lookup(key: Key, tokens: nat, hole: Option<nat>)
      requires Valid(tokens, hole)
      ensures key in index <==> key in Contents()
      ensures key in index ==>
        && Live(nodes, index[key])
        && nodes[index[key]].value.ToItem() == Item(key, Contents()[key])
    {}

    constructor ()
      ensures Valid(0, None)
      ensures Items() == [] && Contents() == map[]
    {
      index, nodes, free, ttlHeap := map[], [], [], multiset{};
      head, tail, order := None, None, [];
    }

    /** Detaches a slot from the LRU list. */
    method LruRemove(idx: nat, ghost p: nat)
      requires Linked(nodes, order, head, tail)
      requires p < |order| && order[p] == idx
      modifies `nodes, `head, `tail, `order
      ensures order == Without(old(order), p)
      ensures Linked(nodes, order, head, tail)
      ensures SameData(old(nodes), nodes)
    {
      assert LinkedAt(nodes, order, p);
      assert p > 0 ==> LinkedAt(nodes, order, p - 1);
      assert p + 1 < |order| ==> LinkedAt(nodes, order, p + 1);
      var prev, next := nodes[idx].value.prev, nodes[idx].value.next;
      if prev.Some? {
        if nodes[prev.value].Some? {
          nodes := nodes[prev.value := Some(nodes[prev.value].value.(next := next))];
        }
      } else {
        head := next;
      }
      if next.Some? {
        if nodes[next.value].Some? {
          nodes := nodes[next.value := Some(nodes[next.value].value.(prev := prev))];
        }
      } else {
        tail := prev;
      }
      if nodes[idx].Some? {
        nodes := nodes[idx := Some(nodes[idx].value.(prev := None, next := None))];
      }
      assert Unlinked(old(nodes), nodes, order, p);
      UnlinkedIsLinked(old(nodes), nodes, order, old(head), old(tail), p);
      order := Without(order, p);
    }

    /** Appends a live slot at the most-recently-used end. */
    method LruPushBack(idx: nat)
      requires Linked(nodes, order, head, tail)
      requires Live(nodes, idx) && idx !in order
      modifies `nodes, `head, `tail, `order
      ensures order == old(order) + [idx]
      ensures Linked(nodes, order, head, tail)
      ensures SameData(old(nodes), nodes)
    {
      assert order != [] ==> LinkedAt(nodes, order, |order| - 1);
      var last := tail;
      if nodes[idx].Some? {
        nodes := nodes[idx := Some(nodes[idx].value.(prev := last, next := None))];
      }
      if last.Some? {
        if nodes[last.value].Some? {
          nodes := nodes[last.value := Some(nodes[last.value].value.(next := Some(idx)))];
        }
      } else {
        head := Some(idx);
      }
      tail := Some(idx);
      PushedIsLinked(old(nodes), nodes, order, old(head), old(tail), idx);
      order := order + [idx];
    }

    /** Moves a live slot to the most-recently-used end. */
    method Touch(idx: nat, ghost tokens: nat, ghost hole: Option<nat>) returns (ghost p: nat)
      requires Valid(tokens, hole) && Live(nodes, idx)
      modifies `nodes, `head, `tail, `order
      ensures Valid(tokens, hole) && Live(nodes, idx)
      ensures nodes[idx].value.ToItem() == old(nodes)[idx].value.ToItem()
      ensures nodes[idx].value.ttlToken == old(nodes)[idx].value.ttlToken
      ensures p < |old(Items())| && old(Items())[p] == old(nodes)[idx].value.ToItem()
      ensures Items() == Without(old(Items()), p) + [old(Items())[p]]
      ensures Contents() == old(Contents())
    {
      hide Linked, Covers, Indexed, FreeExact, Sized, HeapExact, SameData, ItemsOf, ContentsOf;
      p := PositionOf(nodes, order, idx);
      if tail == Some(idx) {
        TailTouched(nodes, order, head, tail, p);
      } else {
        WithoutOmits(nodes, order, head, tail, p);
        LruRemove(idx, p);
        SameDataLive(old(nodes), nodes, idx);
        ghost var unlinked := nodes;
        LruPushBack(idx);
        SameDataTransitive(old(nodes), unlinked, nodes);
      }
      SameDataLive(old(nodes), nodes, idx);
      TouchedSlot(index, old(nodes), nodes, free, old(order), old(head), old(tail), head, tail, ttlHeap, tokens, hole, p);
    }

    /** Puts a new node in a recycled or fresh slot, at the most-recently-used end. */
    method InsertNew(key: Key, value: Value, size: nat, ghost tokens: nat) returns (idx: nat)
      requires Valid(tokens, None) && key !in index
      requires size == |key| + |value|
      modifies this
      ensures Valid(tokens, None)
      ensures index == old(index)[key := idx] && Live(nodes, idx)
      ensures nodes[idx].value.ToItem() == Item(key, Entry(value, None))
      ensures Items() == old(Items()) + [Item(key, Entry(value, None))]
      ensures Contents() == old(Contents())[key := Entry(value, None)]
    {
      hide Linked, Covers, Indexed, FreeExact, Sized, HeapExact, SameData, ItemsOf, ContentsOf;
      FreshSlot(nodes, free);
      if |free| > 0 {
        idx := free[|free| - 1];
        free := free[..|free| - 1];
      } else {
        nodes := nodes + [None];
        idx := |nodes| - 1;
      }
      var node := Node(key, value, None, 0, size, None, None);
      nodes := nodes[idx := Some(node)];
      ghost var placed := nodes;
      PlacedSlot(index, old(nodes), placed, old(free), free, order, head, tail, ttlHeap, tokens, node, idx);
      LruPushBack(idx);
      SameDataLive(placed, nodes, idx);
      index := index[key := idx];
      PushedSlot(index, placed, nodes, free, old(order), head, tail, ttlHeap, tokens, idx);
      assert ItemsOf(placed, old(order)) == old(Items());
    }

    /** Rewrites the data fields of a live node, leaving its key and links alone. */
    method UpdateNode(idx: nat, value: Value, size: nat, expiresAt: Option<nat>, token: nat, ghost tokens: nat)
      returns (ghost p: nat)
      requires Valid(tokens, None) && Live(nodes, idx)
      requires size == |nodes[idx].value.key| + |value|
      modifies `nodes
      ensures Valid(tokens, if expiresAt.Some? then Some(idx) else None)
      ensures Live(nodes, idx)
      ensures nodes[idx].value.ToItem() == Item(old(nodes)[idx].value.key, Entry(value, expiresAt))
      ensures nodes[idx].value.expiresAt == expiresAt && nodes[idx].value.ttlToken == token
      ensures p < |old(Items())| && old(Items())[p] == old(nodes)[idx].value.ToItem()
      ensures Items() == old(Items())[p := Item(old(nodes)[idx].value.key, Entry(value, expiresAt))]
      ensures Contents() == old(Contents())[old(nodes)[idx].value.key := Entry(value, expiresAt)]
    {
      hide Linked, Covers, Indexed, FreeExact, Sized, HeapExact, SameData, ItemsOf, ContentsOf;
      p := PositionOf(nodes, order, idx);
      var node := nodes[idx].value.(value := value, size := size, expiresAt := expiresAt, ttlToken := token);
      RewrittenSlot(index, nodes, free, order, head, tail, ttlHeap, tokens, node, p);
      nodes := nodes[idx := Some(node)];
    }

    /** Pushes the heap entry for the deadline a slot has just been given. */
    method ScheduleExpiration(idx: nat, expiresAt: nat, token: nat, ghost tokens: nat)
      requires Valid(tokens, Some(idx)) && Live(nodes, idx) && token >= tokens
      requires nodes[idx].value.expiresAt == Some(expiresAt) && nodes[idx].value.ttlToken == token
      modifies `ttlHeap
      ensures Valid(token + 1, None)
      ensures ttlHeap == old(ttlHeap) + multiset{ExpirationEntry(expiresAt, idx, token)}
    {
      hide Structure;
      ttlHeap := ttlHeap + multiset{ExpirationEntry(expiresAt, idx, token)};
    }

    /**
      Pops heap heads until one matches a live node that is due, or until the
      earliest deadline is still in the future.
     */
    method PopDueExpiration(now: nat, ghost tokens: nat) returns (r: Option<ExpirationEntry>)
      requires Valid(tokens, None)
      modifies `ttlHeap
      ensures ttlHeap <= old(ttlHeap)
      ensures r.None? ==> Valid(tokens, None) && forall e :: e in ttlHeap ==> e.expiresAt > now
      ensures r.Some? ==>
        && Live(nodes, r.value.idx) && nodes[r.value.idx].value.Expired(now)
        && r.value == DeadlineOf(nodes, r.value.idx)
        && Valid(tokens, Some(r.value.idx))
    {
      hide Structure, HeapExact;
      while |ttlHeap| > 0
        invariant ttlHeap <= old(ttlHeap)
        invariant Valid(tokens, None)
        decreases |ttlHeap|
      {
        ghost var minimum := HeapMinimum(ttlHeap);
        var entry :| entry in ttlHeap && forall e :: e in ttlHeap ==> entry.AtMost(e);
        if entry.expiresAt > now {
          assert forall e :: e in ttlHeap ==> entry.AtMost(e) && e.expiresAt > now;
          return None;
        }
        ghost var before := ttlHeap;
        ttlHeap := ttlHeap - multiset{entry};
        if entry.idx >= |nodes| || nodes[entry.idx].None? {
          StalePopped(before, nodes, tokens, entry);
          continue;
        }
        var node := nodes[entry.idx].value;
        if node.ttlToken != entry.token || node.expiresAt != Some(entry.expiresAt) {
          StalePopped(before, nodes, tokens, entry);
          continue;
        }
        DuePopped(before, nodes, tokens, entry);
        return Some(entry);
      }
      return None;
    }

    /** Removes the least recently used node and returns its size. */
    method PopLru(ghost tokens: nat) returns (r: Option<nat>)
      requires Valid(tokens, None)
      modifies this
      ensures Valid(tokens, None)
      ensures r.None? <==> old(Items()) == []
      ensures r.None? ==> unchanged(this)
      ensures r.Some? ==>
        && r.value == old(Items())[0].Size()
        && Items() == old(Items())[1..]
        && Contents() == old(Contents()) - {old(Items())[0].key}
        && ttlHeap == old(ttlHeap)
    {
      hide Covers, Indexed, FreeExact, Sized, HeapExact, SameData, ItemsOf, ContentsOf;
      if head.None? {
        return None;
      }
      assert LinkedAt(nodes, order, 0);
      ghost var p: nat;
      r, p := RemoveIdx(head.value, tokens, None);
      assert p == 0;
    }

    /** Removes the node in a slot, if any, and returns its byte size. */
    method RemoveIdx(idx: nat, ghost tokens: nat, ghost hole: Option<nat>) returns (r: Option<nat>, ghost p: nat)
      requires Valid(tokens, hole) && idx < |nodes|
      requires hole.None? || hole == Some(idx)
      modifies this
      ensures r.Some? <==> old(nodes[idx]).Some?
      ensures r.None? ==> unchanged(this)
      ensures r.Some? ==>
        && Valid(tokens, None)
        && p < |old(order)| && old(order)[p] == idx
        && p < |old(Items())| && old(Items())[p] == old(nodes)[idx].value.ToItem()
        && r.value == old(Items())[p].Size()
        && Items() == Without(old(Items()), p)
        && Contents() == old(Contents()) - {old(Items())[p].key}
        && ttlHeap == old(ttlHeap)
    {
      hide Linked, Covers, Indexed, FreeExact, Sized, HeapExact, SameData, ItemsOf, ContentsOf;
      p := 0;
      if nodes[idx].None? {
        return None, 0;
      }
      var key, size := nodes[idx].value.key, nodes[idx].value.size;
      p := PositionOf(nodes, order, idx);
      LruRemove(idx, p);
      RemovedSlot(index, old(nodes), nodes, free, old(order), old(head), old(tail), head, tail, ttlHeap, tokens, hole, p);
      nodes := nodes[idx := None];
      index := index - {key};
      free := free + [idx];
      assert Structure(index, nodes, free, order, head, tail);
      assert HeapExact(ttlHeap, nodes, tokens, None);
      r := Some(size);
    }

    /** Attaches a deadline to a live slot, where it stands in the list. */
    method Reschedule(idx: nat, expiresAt: nat, token: nat) returns (ghost p: nat)
      requires Valid(token, None) && Live(nodes, idx)
      modifies `nodes, `ttlHeap
      ensures Valid(token + 1, None)
      ensures p < |old(Items())| && old(Items())[p] == old(nodes)[idx].value.ToItem()
      ensures var item := old(nodes)[idx].value.ToItem();
        var entry := Entry(item.entry.value, Some(expiresAt));
        && Items() == old(Items())[p := Item(item.key, entry)]
        && Contents() == old(Contents())[item.key := entry]
    {
      hide ShardInner.Valid, ItemsOf, ContentsOf;
      SizeOf(idx, token);
      var node := nodes[idx].value;
      p := UpdateNode(idx, node.value, node.size, Some(expiresAt), token, token);
      ScheduleExpiration(idx, expiresAt, token, token);
    }

    /** Overwrites a live slot and makes it most recently used. */
    method Overwrite(idx: nat, value: Value, expiresAt: Option<nat>, token: nat) returns (ghost p: nat)
      requires Valid(token, None) && Live(nodes, idx)
      modifies this
      ensures Valid(token + 1, None)
      ensures p < |old(Items())| && old(Items())[p] == old(nodes)[idx].value.ToItem()
      ensures var item := Item(old(nodes)[idx].value.key, Entry(value, expiresAt));
        && Items() == Without(old(Items()), p) + [item]
        && Contents() == old(Contents())[item.key := item.entry]
    {
      hide ShardInner.Valid, ItemsOf, ContentsOf;
      var key := nodes[idx].value.key;
      Distinctness(token, None);
      p := UpdateNode(idx, value, |key| + |value|, expiresAt, token, token);
      ghost var hole: Option<nat> := if expiresAt.Some? then Some(idx) else None;
      Distinctness(token, hole);
      ghost var q := Touch(idx, token, hole);
      UpdatedThenTouched(old(Items()), p, q, Item(key, Entry(value, expiresAt)));
      if expiresAt.Some? {
        ScheduleExpiration(idx, expiresAt.value, token, token);
      } else {
        Weaken(token, token + 1, None);
      }
    }

    /** Inserts an entry, with its deadline, for a key the shard does not hold. */
    method Insert(key: Key, value: Value, expiresAt: Option<nat>, token: nat)
      requires Valid(token, None) && key !in index
      modifies this
      ensures Valid(if expiresAt.Some? then token + 1 else token, None)
      ensures Items() == old(Items()) + [Item(key, Entry(value, expiresAt))]
      ensures Contents() == old(Contents())[key := Entry(value, expiresAt)]
    {
      hide ShardInner.Valid, ItemsOf, ContentsOf;
      var idx := InsertNew(key, value, |key| + |value|, token);
      if expiresAt.Some? {
        Distinctness(token, None);
        ghost var inserted := Items();
        ghost var p := UpdateNode(idx, value, |key| + |value|, expiresAt, token, token);
        DistinctAt(inserted, p, |inserted| - 1);
        ScheduleExpiration(idx, expiresAt.value, token, token);
      }
    }
  }
}
