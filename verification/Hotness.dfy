/** The exact hot-key ranking built from the events that command dispatch logs. */
module Hotness {
  import opened Prelude
  import opened Store
  import opened Protocol
  import opened Replies
  import opened Server
  import opened Commands

  datatype Counts = Counts(total: nat, readCount: nat, writeCount: nat)

  const ZERO := Counts(0, 0, 0)

  datatype HotKey = HotKey(key: Key, counts: Counts)

  predicate Touches(e: Event, key: Key, access: AccessClass) {
    e.key == key && e.access == access
  }

  /** How many events touch a key in a given way. */
  function Accesses(events: seq<Event>, key: Key, access: AccessClass): nat {
    if events == [] then 0
    else
      Accesses(events[..|events| - 1], key, access) +
      (if Touches(events[|events| - 1], key, access) then 1 else 0)
  }

  /** Every access counts once in the total, and once as a read or a write. */
  function CountsOf(events: seq<Event>, key: Key): Counts {
    var r, w := Accesses(events, key, Read), Accesses(events, key, Write);
    Counts(r + w, r, w)
  }

  /** The table holds exactly the keys touched, each with its counts. */
  ghost predicate Exact(perKey: map<Key, Counts>, events: seq<Event>) {
    forall k :: ExactAt(perKey, events, k)
  }

  ghost predicate ExactAt(perKey: map<Key, Counts>, events: seq<Event>, k: Key) {
    (if k in perKey then perKey[k] else ZERO) == CountsOf(events, k) && (k in perKey ==> perKey[k].total > 0)
  }

  class ExactHotnessEvaluator {
    var perKey: map<Key, Counts>
    ghost var events: seq<Event>

    ghost predicate Valid()
      reads this
    {
      Exact(perKey, events)
    }

    constructor FromEvents(events: seq<Event>)
      ensures Valid() && this.events == events
    {
      perKey, this.events := map[], [];
      new;
      for i := 0 to |events|
        invariant Valid() && this.events == events[..i]
      {
        Record(events[i]);
      }
      assert events[..|events|] == events;
    }

    method Record(event: Event)
      requires Valid()
      modifies this
      ensures Valid() && events == old(events) + [event]
    {
      var entry := if event.key in perKey then perKey[event.key] else ZERO;
      entry := entry.(total := entry.total + 1);
      match event.access {
        case Read => entry := entry.(readCount := entry.readCount + 1);
        case Write => entry := entry.(writeCount := entry.writeCount + 1);
      }
      RecordExact(perKey, events, event);
      perKey := perKey[event.key := entry];
      events := events + [event];
    }
  }

  /** One more access to a key. */
  function Bumped(c: Counts, access: AccessClass): Counts {
    if access.Read? then Counts(c.total + 1, c.readCount + 1, c.writeCount)
    else Counts(c.total + 1, c.readCount, c.writeCount + 1)
  }

  lemma CountsAppend(events: seq<Event>, e: Event, k: Key)
    ensures CountsOf(events + [e], k) == if e.key == k then Bumped(CountsOf(events, k), e.access) else CountsOf(events, k)
  {
    assert (events + [e])[..|events|] == events;
  }

  lemma RecordExact(perKey: map<Key, Counts>, events: seq<Event>, e: Event)
    requires Exact(perKey, events)
    ensures var entry := Bumped(if e.key in perKey then perKey[e.key] else ZERO, e.access);
      Exact(perKey[e.key := entry], events + [e])
  {
    hide CountsOf;
    var entry := Bumped(if e.key in perKey then perKey[e.key] else ZERO, e.access);
    var perKey', events' := perKey[e.key := entry], events + [e];
    forall k
      ensures ExactAt(perKey', events', k)
    {
      assert ExactAt(perKey, events, k);
      CountsAppend(events, e, k);
    }
  }

  // ---------- Event order does not matter ----------

  lemma {:induction false} AccessesConcat(a: seq<Event>, b: seq<Event>, k: Key, access: AccessClass)
    ensures Accesses(a + b, k, access) == Accesses(a, k, access) + Accesses(b, k, access)
    decreases |b|
  {
    if b == [] {
      assert a + b == a;
    } else {
      var b' := b[..|b| - 1];
      assert (a + b)[..|a + b| - 1] == a + b';
      AccessesConcat(a, b', k, access);
    }
  }

  lemma MultisetWithout<T>(s: seq<T>, i: nat)
    requires i < |s|
    ensures multiset(s) == multiset(s[..i] + s[i + 1..]) + multiset{s[i]}
  {
    assert s == s[..i] + [s[i]] + s[i + 1..];
  }

  lemma AccessesMiddle(front: seq<Event>, e: Event, back: seq<Event>, k: Key, access: AccessClass)
    ensures Accesses(front + [e] + back, k, access) == Accesses((front + back) + [e], k, access)
  {
    hide Accesses;
    AccessesConcat(front + [e], back, k, access);
    AccessesConcat(front, [e], k, access);
    AccessesConcat(front + back, [e], k, access);
    AccessesConcat(front, back, k, access);
  }

  /** The event at the end of `a` found in `b`, and the two lists without it. */
  lemma LastElsewhere<T>(a: seq<T>, b: seq<T>) returns (i: nat)
    requires multiset(a) == multiset(b) && a != []
    ensures i < |b| && b[i] == a[|a| - 1]
    ensures multiset(a[..|a| - 1]) == multiset(b[..i] + b[i + 1..])
  {
    var n := |a| - 1;
    MultisetWithout(a, n);
    assert a[..n] + a[n + 1..] == a[..n];
    assert a[n] in multiset(b);
    i :| 0 <= i < |b| && b[i] == a[n];
    MultisetWithout(b, i);
    Cancel(multiset(a[..n]), multiset(b[..i] + b[i + 1..]), a[n]);
  }

  lemma EmptyMultiset<T>(b: seq<T>)
    requires multiset(b) == multiset{}
    ensures b == []
  {
    assert |multiset(b)| == |b|;
  }

  /** Counts depend on which events occurred, not on their order. */
  lemma {:induction false} AccessesPermuted(a: seq<Event>, b: seq<Event>, k: Key, access: AccessClass)
    requires multiset(a) == multiset(b)
    ensures Accesses(a, k, access) == Accesses(b, k, access)
    decreases |a|
  {
    if a == [] {
      EmptyMultiset(b);
    } else {
      var i := LastElsewhere(a, b);
      AccessesPermuted(a[..|a| - 1], b[..i] + b[i + 1..], k, access);
      AccessesMoved(a, b, i, k, access);
    }
  }

  lemma SplitAt<T>(s: seq<T>, i: nat)
    requires i < |s|
    ensures s == s[..i] + [s[i]] + s[i + 1..]
    ensures i == |s| - 1 ==> s == s[..i] + [s[i]]
  {}

  lemma AccessesSnoc(a: seq<Event>, b: seq<Event>, e: Event, k: Key, access: AccessClass)
    requires Accesses(a, k, access) == Accesses(b, k, access)
    ensures Accesses(a + [e], k, access) == Accesses(b + [e], k, access)
  {
    hide Accesses;
    AccessesConcat(a, [e], k, access);
    AccessesConcat(b, [e], k, access);
  }

  lemma AccessesMoved(a: seq<Event>, b: seq<Event>, i: nat, k: Key, access: AccessClass)
    requires a != [] && i < |b| && b[i] == a[|a| - 1]
    requires Accesses(a[..|a| - 1], k, access) == Accesses(b[..i] + b[i + 1..], k, access)
    ensures Accesses(a, k, access) == Accesses(b, k, access)
  {
    hide Accesses;
    var e, front, back := b[i], b[..i], b[i + 1..];
    SplitAt(a, |a| - 1);
    SplitAt(b, i);
    AccessesMiddle(front, e, back, k, access);
    AccessesSnoc(a[..|a| - 1], front + back, e, k, access);
  }

  lemma ExactUnique(p: map<Key, Counts>, q: map<Key, Counts>, a: seq<Event>, b: seq<Event>)
    requires Exact(p, a) && Exact(q, b) && multiset(a) == multiset(b)
    ensures p == q
  {
    hide Accesses;
    forall k
      ensures k in p <==> k in q
      ensures k in p ==> p[k] == q[k]
    {
      assert ExactAt(p, a, k) && ExactAt(q, b, k);
      AccessesPermuted(a, b, k, Read);
      AccessesPermuted(a, b, k, Write);
    }
  }

  lemma Cancel<T>(a: multiset<T>, b: multiset<T>, e: T)
    requires a + multiset{e} == b + multiset{e}
    ensures a == b
  {
    assert a == (a + multiset{e}) - multiset{e};
    assert b == (b + multiset{e}) - multiset{e};
  }

  // ---------- The ranking order ----------

  /** Lexicographic order of byte strings. */
  predicate KeyLess(a: Key, b: Key) {
    if b == [] then false
    else if a == [] then true
    else a[0] < b[0] || (a[0] == b[0] && KeyLess(a[1..], b[1..]))
  }

  lemma {:induction false} KeyLessTotal(a: Key, b: Key)
    ensures KeyLess(a, b) || KeyLess(b, a) || a == b
    ensures !(KeyLess(a, b) && KeyLess(b, a))
    decreases |a|
  {
    if a != [] && b != [] {
      KeyLessTotal(a[1..], b[1..]);
      assert a == [a[0]] + a[1..] && b == [b[0]] + b[1..];
    }
  }

  lemma {:induction false} KeyLessTransitive(a: Key, b: Key, c: Key)
    requires KeyLess(a, b) && KeyLess(b, c)
    ensures KeyLess(a, c)
  {
    if a != [] && a[0] == b[0] == c[0] {
      KeyLessTransitive(a[1..], b[1..], c[1..]);
    }
  }

  /** Hotter first: total, then reads, then writes, all descending; ties by key, ascending. */
  predicate Before(x: HotKey, y: HotKey) {
    if x.counts.total != y.counts.total then x.counts.total > y.counts.total
    else if x.counts.readCount != y.counts.readCount then x.counts.readCount > y.counts.readCount
    else if x.counts.writeCount != y.counts.writeCount then x.counts.writeCount > y.counts.writeCount
    else KeyLess(x.key, y.key)
  }

  lemma BeforeTotal(x: HotKey, y: HotKey)
    ensures x != y ==> Before(x, y) || Before(y, x)
    ensures !(Before(x, y) && Before(y, x)) && !Before(x, x)
  {
    KeyLessTotal(x.key, y.key);
    KeyLessTotal(x.key, x.key);
    assert x == HotKey(x.key, x.counts) && y == HotKey(y.key, y.counts);
  }

  lemma BeforeTransitive(x: HotKey, y: HotKey, z: HotKey)
    requires Before(x, y) && Before(y, z)
    ensures Before(x, z)
  {
    if KeyLess(x.key, y.key) && KeyLess(y.key, z.key) {
      KeyLessTransitive(x.key, y.key, z.key);
    }
  }

  ghost predicate Ranked(s: seq<HotKey>) {
    forall i, j :: 0 <= i < j < |s| ==> Before(s[i], s[j])
  }

  // ---------- Sorting ----------

  function Insert(x: HotKey, s: seq<HotKey>): seq<HotKey> {
    if s == [] then [x] else if Before(x, s[0]) then [x] + s else [s[0]] + Insert(x, s[1..])
  }

  /** `sort_by` on the entries in the order the hash map yields them. */
  function SortRanking(s: seq<HotKey>): seq<HotKey> {
    if s == [] then [] else Insert(s[0], SortRanking(s[1..]))
  }

  /** `top_keys`: collect in the map's iteration order, sort, cut. */
  function TopKeys(perKey: map<Key, Counts>, order: seq<Key>, limit: nat): seq<HotKey>
    requires forall i :: 0 <= i < |order| ==> order[i] in perKey
  {
    var ranking := SortRanking(Entries(perKey, order));
    ranking[..Min(limit, |ranking|)]
  }

  function Entries(perKey: map<Key, Counts>, order: seq<Key>): seq<HotKey>
    requires forall i :: 0 <= i < |order| ==> order[i] in perKey
  {
    seq(|order|, i requires 0 <= i < |order| => HotKey(order[i], perKey[order[i]]))
  }

  /** `order` is one way of iterating over the map. */
  ghost predicate Enumerates(order: seq<Key>, perKey: map<Key, Counts>) {
    && (forall i :: 0 <= i < |order| ==> order[i] in perKey)
    && (forall k :: k in perKey ==> k in order)
    && NoRepeats(order)
  }

  ghost predicate NoRepeats<T>(s: seq<T>) {
    forall i, j :: 0 <= i < j < |s| ==> s[i] != s[j]
  }

  /** The full ranking of a table: all its entries, hottest first. */
  ghost predicate IsRanking(ranking: seq<HotKey>, perKey: map<Key, Counts>) {
    Ranked(ranking) && forall x :: x in ranking <==> x.key in perKey && x.counts == perKey[x.key]
  }

  lemma {:induction false} InsertMembers(x: HotKey, s: seq<HotKey>)
    ensures multiset(Insert(x, s)) == multiset{x} + multiset(s)
    decreases |s|
  {
    hide Before;
    if s != [] {
      assert s == [s[0]] + s[1..];
      if !Before(x, s[0]) {
        InsertMembers(x, s[1..]);
      }
    }
  }

  /** What `x` goes before goes after it, and so does all that follows. */
  lemma FirstStaysFirst(x: HotKey, s: seq<HotKey>, y: HotKey)
    requires Ranked(s) && s != []
    requires Before(x, s[0]) && y in s
    ensures Before(x, y)
  {
    hide Before;
    var j :| 0 <= j < |s| && s[j] == y;
    if j > 0 {
      BeforeTransitive(x, s[0], y);
    }
  }

  lemma PrependRanked(x: HotKey, s: seq<HotKey>)
    requires Ranked(s) && forall y :: y in s ==> Before(x, y)
    ensures Ranked([x] + s)
  {}

  lemma {:induction false} InsertRanked(x: HotKey, s: seq<HotKey>)
    requires Ranked(s) && x !in s
    ensures Ranked(Insert(x, s))
    decreases |s|
  {
    hide Before;
    if s != [] && Before(x, s[0]) {
      forall y | y in s
        ensures Before(x, y)
      {
        FirstStaysFirst(x, s, y);
      }
      PrependRanked(x, s);
    } else if s != [] {
      var tail := Insert(x, s[1..]);
      InsertRanked(x, s[1..]);
      InsertMembers(x, s[1..]);
      BeforeTotal(x, s[0]);
      forall y | y in tail
        ensures Before(s[0], y)
      {
        assert y in multiset(tail);
        assert y == x || y in s[1..];
      }
      PrependRanked(s[0], tail);
    }
  }

  lemma {:induction false} SortRanked(s: seq<HotKey>)
    requires forall i, j :: 0 <= i < j < |s| ==> s[i] != s[j]
    ensures Ranked(SortRanking(s)) && multiset(SortRanking(s)) == multiset(s)
  {
    if s != [] {
      assert s == [s[0]] + s[1..];
      SortRanked(s[1..]);
      var tail := SortRanking(s[1..]);
      assert s[0] !in s[1..];
      assert s[0] !in multiset(tail);
      InsertMembers(s[0], tail);
      InsertRanked(s[0], tail);
    }
  }

  lemma SameHead(a: seq<HotKey>, b: seq<HotKey>)
    requires Ranked(a) && Ranked(b) && a != [] && b != []
    requires a[0] in b && b[0] in a
    ensures a[0] == b[0]
  {
    hide Before;
    BeforeTotal(a[0], b[0]);
  }

  lemma SameMembers<T>(a: seq<T>, b: seq<T>)
    requires multiset(a) == multiset(b)
    ensures |a| == |b| && (a != [] ==> a[0] in b && b[0] in a)
  {
    assert |multiset(a)| == |a| && |multiset(b)| == |b|;
    if a != [] {
      assert a[0] in multiset(a) && b[0] in multiset(b);
    }
  }

  lemma FirstApart<T>(s: seq<T>)
    requires s != []
    ensures multiset(s) == multiset(s[1..]) + multiset{s[0]}
  {
    assert s == [s[0]] + s[1..];
  }

  lemma SameTails<T>(a: seq<T>, b: seq<T>)
    requires multiset(a) == multiset(b) && a != [] && b != [] && a[0] == b[0]
    ensures multiset(a[1..]) == multiset(b[1..])
  {
    FirstApart(a);
    FirstApart(b);
    Cancel(multiset(a[1..]), multiset(b[1..]), a[0]);
  }

  /** Two rankings of the same entries are the same. */
  lemma {:induction false} RankingUnique(a: seq<HotKey>, b: seq<HotKey>)
    requires Ranked(a) && Ranked(b) && multiset(a) == multiset(b)
    ensures a == b
    decreases |a|
  {
    hide Before;
    SameMembers(a, b);
    if a != [] {
      SameHead(a, b);
      SameTails(a, b);
      RankingUnique(a[1..], b[1..]);
      assert forall i :: 0 < i < |a| ==> a[i] == a[1..][i - 1] && b[i] == b[1..][i - 1];
    }
  }

  lemma {:induction false} DistinctOnce<T>(s: seq<T>, x: T)
    requires NoRepeats(s)
    ensures multiset(s)[x] == if x in s then 1 else 0
  {
    if s != [] {
      var n := |s| - 1;
      SplitAt(s, n);
      DistinctOnce(s[..n], x);
      assert multiset(s) == multiset(s[..n]) + multiset{s[n]};
    }
  }

  lemma SameSetSameMultiset<T>(a: seq<T>, b: seq<T>)
    requires NoRepeats(a) && NoRepeats(b) && forall x :: x in a <==> x in b
    ensures multiset(a) == multiset(b)
  {
    forall x
      ensures multiset(a)[x] == multiset(b)[x]
    {
      DistinctOnce(a, x);
      DistinctOnce(b, x);
    }
  }

  lemma RankedNoRepeats(s: seq<HotKey>)
    requires Ranked(s)
    ensures NoRepeats(s)
  {
    forall i, j | 0 <= i < j < |s|
      ensures s[i] != s[j]
    {
      BeforeTotal(s[i], s[j]);
    }
  }

  lemma EntriesExact(perKey: map<Key, Counts>, order: seq<Key>)
    requires Enumerates(order, perKey)
    ensures NoRepeats(Entries(perKey, order))
    ensures forall x :: x in Entries(perKey, order) <==> x.key in perKey && x.counts == perKey[x.key]
  {
    var entries := Entries(perKey, order);
    forall x: HotKey | x.key in perKey && x.counts == perKey[x.key]
      ensures x in entries
    {
      var i :| 0 <= i < |order| && order[i] == x.key;
      assert entries[i] == x;
    }
  }

  /** Sorting the entries in any iteration order yields a full ranking. */
  lemma SortedIsRanking(perKey: map<Key, Counts>, order: seq<Key>)
    requires Enumerates(order, perKey)
    ensures IsRanking(SortRanking(Entries(perKey, order)), perKey)
  {
    hide SortRanking, Ranked, NoRepeats;
    var entries := Entries(perKey, order);
    EntriesExact(perKey, order);
    SortRanked(entries);
    var sorted := SortRanking(entries);
    forall x
      ensures x in sorted <==> x in entries
    {
      assert x in sorted <==> x in multiset(sorted);
    }
  }

  /**
    `top_keys` is the unique first `limit` entries of the ranking, whatever
    order the hash map iterates in.
   */
  lemma TopKeysAreTop(perKey: map<Key, Counts>, order: seq<Key>, limit: nat, ranking: seq<HotKey>)
    requires Enumerates(order, perKey) && IsRanking(ranking, perKey)
    ensures TopKeys(perKey, order, limit) == ranking[..Min(limit, |ranking|)]
  {
    hide SortRanking, Ranked, Entries, NoRepeats;
    var sorted := SortRanking(Entries(perKey, order));
    SortedIsRanking(perKey, order);
    RankedNoRepeats(sorted);
    RankedNoRepeats(ranking);
    SameSetSameMultiset(sorted, ranking);
    RankingUnique(sorted, ranking);
  }

  // ---------- What the report says ----------

  /** The first differing byte of `a` is smaller, or `a` is a proper prefix of `b`. */
  ghost predicate Alphabetical(a: Key, b: Key) {
    exists n :: 0 <= n <= |a| && n <= |b| && a[..n] == b[..n] && SmallerAfter(a, b, n)
  }

  predicate SmallerAfter(a: Key, b: Key, n: nat)
    requires n <= |a| && n <= |b|
  {
    n < |b| && (n == |a| || a[n] < b[n])
  }

  lemma {:induction false} KeyLessMeans(a: Key, b: Key)
    requires KeyLess(a, b)
    ensures Alphabetical(a, b)
    decreases |a|
  {
    if a == [] || a[0] < b[0] {
      assert a[..0] == b[..0] && SmallerAfter(a, b, 0);
    } else {
      KeyLessMeans(a[1..], b[1..]);
      var n :| 0 <= n <= |a[1..]| && n <= |b[1..]| && a[1..][..n] == b[1..][..n] && SmallerAfter(a[1..], b[1..], n);
      assert a[..n + 1] == [a[0]] + a[1..][..n] && b[..n + 1] == [b[0]] + b[1..][..n];
      assert SmallerAfter(a, b, n + 1);
    }
  }

  /** The order `top_keys` promises, field by field. */
  ghost predicate Hotter(x: HotKey, y: HotKey) {
    && x.counts.total >= y.counts.total
    && (x.counts.total == y.counts.total ==> x.counts.readCount >= y.counts.readCount)
    && (x.counts.total == y.counts.total && x.counts.readCount == y.counts.readCount ==>
          x.counts.writeCount >= y.counts.writeCount)
    && (x.counts == y.counts ==> Alphabetical(x.key, y.key))
  }

  lemma BeforeMeans(x: HotKey, y: HotKey)
    requires Before(x, y)
    ensures Hotter(x, y)
  {
    hide KeyLess, Alphabetical;
    if x.counts == y.counts {
      KeyLessMeans(x.key, y.key);
    }
  }

  /**
    What `top_keys` reports: entries of the table with their counts, as many as
    asked for or as there are, hottest first: by total, then reads, then writes,
    all descending, then by key, ascending. No key left out is hotter than one
    listed.
   */
  lemma TopKeysAreHottest(perKey: map<Key, Counts>, order: seq<Key>, limit: nat)
    requires Enumerates(order, perKey)
    ensures var r := TopKeys(perKey, order, limit);
      && |r| == Min(limit, |perKey|)
      && (forall i :: 0 <= i < |r| ==> r[i].key in perKey && r[i].counts == perKey[r[i].key])
      && (forall i, j :: 0 <= i < j < |r| ==> Hotter(r[i], r[j]))
      && (forall i, k :: 0 <= i < |r| && k in perKey && (forall j :: 0 <= j < |r| ==> r[j].key != k) ==>
            Hotter(r[i], HotKey(k, perKey[k])))
  {
    hide SortRanking, Entries, Before, Hotter, NoRepeats;
    var sorted := SortRanking(Entries(perKey, order));
    var r := TopKeys(perKey, order, limit);
    SortedIsRanking(perKey, order);
    RankingSize(sorted, perKey);
    forall i, j | 0 <= i < j < |sorted|
      ensures Hotter(sorted[i], sorted[j])
    {
      BeforeMeans(sorted[i], sorted[j]);
    }
    forall i | 0 <= i < |sorted|
      ensures sorted[i].key in perKey && sorted[i].counts == perKey[sorted[i].key]
    {
      assert sorted[i] in sorted;
    }
    assert forall q :: 0 <= q < |r| ==> r[q] == sorted[q];
    forall i, k | 0 <= i < |r| && k in perKey && (forall j :: 0 <= j < |r| ==> r[j].key != k)
      ensures Hotter(r[i], HotKey(k, perKey[k]))
    {
      assert HotKey(k, perKey[k]) in sorted;
      var j :| 0 <= j < |sorted| && sorted[j] == HotKey(k, perKey[k]);
      assert Hotter(sorted[i], sorted[j]) && r[i] == sorted[i];
    }
  }

  lemma RankingSize(ranking: seq<HotKey>, perKey: map<Key, Counts>)
    requires IsRanking(ranking, perKey)
    ensures |ranking| == |perKey|
  {
    RankedNoRepeats(ranking);
    hide Ranked;
    var keys := KeysIn(ranking);
    forall i, j | 0 <= i < j < |keys|
      ensures keys[i] != keys[j]
    {
      assert ranking[i] in ranking && ranking[j] in ranking;
    }
    forall k
      ensures k in keys <==> k in perKey.Keys
    {
      if k in perKey {
        assert HotKey(k, perKey[k]) in ranking;
        var i :| 0 <= i < |ranking| && ranking[i] == HotKey(k, perKey[k]);
        assert keys[i] == k;
      }
    }
    DistinctCount(keys, perKey.Keys);
    assert |perKey.Keys| == |perKey|;
  }

  function KeysIn(ranking: seq<HotKey>): seq<Key> {
    seq(|ranking|, i requires 0 <= i < |ranking| => ranking[i].key)
  }

  lemma {:induction false} DistinctCount<T>(s: seq<T>, members: set<T>)
    requires NoRepeats(s) && forall x :: x in s <==> x in members
    ensures |s| == |members|
    decreases |s|
  {
    if s == [] {
      assert members == {};
    } else {
      var n := |s| - 1;
      var others := members - {s[n]};
      forall x
        ensures x in s[..n] <==> x in others
      {
        if x in others {
          var i :| 0 <= i < |s| && s[i] == x;
          assert s[..n][i] == x;
        }
      }
      DistinctCount(s[..n], others);
    }
  }

  // ---------- From commands to totals ----------

  function KeysOf(events: seq<Event>): seq<Key> {
    seq(|events|, i requires 0 <= i < |events| => events[i].key)
  }

  /** The keys a command names. */
  function KeysNamed(args: Args): seq<Key> {
    if |args| < 2 then []
    else
      match VerbOf(args[0])
      case DelVerb => args[1..]
      case GetVerb => [args[1]]
      case SetVerb => [args[1]]
      case ExpireVerb => [args[1]]
      case TtlVerb => [args[1]]
      case _ => []
  }

  lemma {:induction false} DeleteEventKeys(keys: seq<Key>)
    ensures KeysOf(DeleteEvents(keys)) == keys
  {
    if keys != [] {
      DeleteEventKeys(keys[1..]);
      var events, others := DeleteEvents(keys), DeleteEvents(keys[1..]);
      assert forall i :: 0 < i < |events| ==> events[i] == others[i - 1] && KeysOf(others)[i - 1] == others[i - 1].key;
    }
  }

  /** A command that succeeds logs every key it names, once each; one that fails logs nothing. */
  lemma LoggedKeys(args: Args, info: Bytes, m: Store, clock: nat -> nat, tick: nat)
    ensures var response := Dispatch(args, info, m, clock, tick).response;
      KeysOf(Observed(args, response)) == if IsErrorReply(response) then [] else KeysNamed(args)
  {
    hide VerbOf, EqIgnoreCase, Ascii, DeleteAll;
    if args != [] && VerbOf(args[0]).DelVerb? {
      DeleteEventKeys(args[1..]);
    }
  }

  /** The keys named by the successful commands of a session, in order. */
  function KeysServed(before: Served, commands: seq<Args>, info: Bytes, clock: nat -> nat): seq<Key>
    decreases |commands|
  {
    if commands == [] then []
    else
      var response := Dispatch(commands[0], info, before.store, clock, before.tick).response;
      (if IsErrorReply(response) then [] else KeysNamed(commands[0])) +
      KeysServed(Next(before, commands[0], info, clock), commands[1..], info, clock)
  }

  lemma {:induction false} LogNamesServedKeys(before: Served, commands: seq<Args>, info: Bytes, clock: nat -> nat)
    ensures KeysOf(ServeFrom(before, commands, info, clock).log) == KeysOf(before.log) + KeysServed(before, commands, info, clock)
    decreases |commands|
  {
    hide Dispatch, Observed, KeysNamed, IsErrorReply;
    if commands != [] {
      var args := commands[0];
      var after := Next(before, args, info, clock);
      LoggedKeys(args, info, before.store, clock, before.tick);
      LogNamesServedKeys(after, commands[1..], info, clock);
      var response := Dispatch(args, info, before.store, clock, before.tick).response;
      KeysConcat(before.log, Observed(args, response));
      var first := if IsErrorReply(response) then [] else KeysNamed(args);
      var later := KeysServed(after, commands[1..], info, clock);
      assert (KeysOf(before.log) + first) + later == KeysOf(before.log) + (first + later);
    }
  }

  lemma KeysConcat(a: seq<Event>, b: seq<Event>)
    ensures KeysOf(a + b) == KeysOf(a) + KeysOf(b)
  {}

  function Occurrences(keys: seq<Key>, k: Key): nat {
    if keys == [] then 0 else Occurrences(keys[..|keys| - 1], k) + (if keys[|keys| - 1] == k then 1 else 0)
  }

  lemma {:induction false} TotalIsOccurrences(events: seq<Event>, k: Key)
    ensures CountsOf(events, k).total == Occurrences(KeysOf(events), k)
    decreases |events|
  {
    if events != [] {
      var n := |events| - 1;
      TotalIsOccurrences(events[..n], k);
      assert KeysOf(events)[..n] == KeysOf(events[..n]);
    }
  }

  /**
    After a session with the log on, a key's total is the number of times the
    successful commands named it, and is its reads plus its writes.
   */
  lemma TotalsMatchCommands(commands: seq<Args>, info: Bytes, m: Store, clock: nat -> nat, tick: nat,
                            perKey: map<Key, Counts>, k: Key)
    requires Exact(perKey, Serve(commands, info, m, clock, tick).log)
    ensures var total := Occurrences(KeysServed(Served([], m, tick, []), commands, info, clock), k);
      && (k in perKey <==> total > 0)
      && (k in perKey ==> perKey[k].total == total && total == perKey[k].readCount + perKey[k].writeCount)
  {
    hide Accesses, ServeFrom, KeysServed, Occurrences;
    var start := Served([], m, tick, []);
    LogNamesServedKeys(start, commands, info, clock);
    assert KeysOf(start.log) + KeysServed(start, commands, info, clock) == KeysServed(start, commands, info, clock);
    var log := Serve(commands, info, m, clock, tick).log;
    TotalIsOccurrences(log, k);
    assert ExactAt(perKey, log, k);
  }

  // ---------- From commands to reads and writes ----------

  lemma {:induction false} OccurrencesConcat(a: seq<Key>, b: seq<Key>, k: Key)
    ensures Occurrences(a + b, k) == Occurrences(a, k) + Occurrences(b, k)
    decreases |b|
  {
    if b == [] {
      assert a + b == a;
    } else {
      var n := |b| - 1;
      assert (a + b)[..|a| + n] == a + b[..n];
      OccurrencesConcat(a, b[..n], k);
    }
  }

  /** Events that access these keys, all in the same way. */
  ghost predicate AccessEach(events: seq<Event>, keys: seq<Key>, access: AccessClass) {
    |events| == |keys| && forall i :: 0 <= i < |keys| ==> events[i].key == keys[i] && events[i].access == access
  }

  lemma {:induction false} AccessesOfEach(events: seq<Event>, keys: seq<Key>, how: AccessClass, k: Key, access: AccessClass)
    requires AccessEach(events, keys, how)
    ensures Accesses(events, k, access) == if how == access then Occurrences(keys, k) else 0
    decreases |events|
  {
    if events != [] {
      AccessesOfEach(events[..|events| - 1], keys[..|keys| - 1], how, k, access);
    }
  }

  lemma LogGrows(log: seq<Event>, events: seq<Event>, keys: seq<Key>, how: AccessClass, k: Key, access: AccessClass)
    requires AccessEach(events, keys, how)
    ensures Accesses(log + events, k, access) == Accesses(log, k, access) + Occurrences(if how == access then keys else [], k)
  {
    AccessesConcat(log, events, k, access);
    AccessesOfEach(events, keys, how, k, access);
  }

  /** One command adds to the log an access of every key it accesses that way, and none other. */
  lemma AccessesLogged(before: Served, args: Args, info: Bytes, clock: nat -> nat, k: Key, access: AccessClass)
    ensures Accesses(Next(before, args, info, clock).log, k, access)
         == Accesses(before.log, k, access) + Occurrences(KeysAccessed(args, access), k)
  {
    hide Next, Accesses, Occurrences, SpelledAs, IsNumber, Step, RespInteger, RespBulk, RespNull, Deletable, KeySet, AsI64;
    LogGrows(before.log, [], [], Read, k, access);
    assert before.log + [] == before.log;
    if Complaint(args).Some? {
      RefusedCommand(before, args, info, clock);
    } else {
      VerbIff(args[0]);
      if SpelledAs(args[0], "GET") {
        AcceptedGet(before, args, info, clock);
        LogGrows(before.log, [Event(GetKind, args[1], Read, None)], [args[1]], Read, k, access);
      } else if SpelledAs(args[0], "TTL") {
        AcceptedTtl(before, args, info, clock);
        LogGrows(before.log, [Event(TtlKind, args[1], Read, None)], [args[1]], Read, k, access);
      } else if SpelledAs(args[0], "SET") {
        if |args| == 3 {
          AcceptedSet(before, args, info, clock);
        } else {
          AcceptedSetEx(before, args, info, clock);
        }
        LogGrows(before.log, [Event(SetKind, args[1], Write, Some(|args[2]|))], [args[1]], Write, k, access);
      } else if SpelledAs(args[0], "EXPIRE") {
        AcceptedExpire(before, args, info, clock);
        LogGrows(before.log, [Event(ExpireKind, args[1], Write, None)], [args[1]], Write, k, access);
      } else if SpelledAs(args[0], "DEL") {
        AcceptedDel(before, args, info, clock);
        var keys := args[1..];
        LogGrows(before.log, seq(|keys|, i requires 0 <= i < |keys| => Event(DeleteKind, keys[i], Write, None)), keys, Write, k, access);
      } else {
        AcceptedPingOrInfo(before, args, info, clock);
      }
    }
  }

  /** The keys the accepted commands of a session access in one way, in order. */
  function AllAccessed(commands: seq<Args>, access: AccessClass): seq<Key> {
    if commands == [] then [] else KeysAccessed(commands[0], access) + AllAccessed(commands[1..], access)
  }

  lemma {:induction false} SessionAccesses(before: Served, commands: seq<Args>, info: Bytes, clock: nat -> nat, k: Key, access: AccessClass)
    ensures Accesses(ServeFrom(before, commands, info, clock).log, k, access)
         == Accesses(before.log, k, access) + Occurrences(AllAccessed(commands, access), k)
    decreases |commands|
  {
    hide Next, Accesses, Occurrences, KeysAccessed;
    if commands == [] {
      OccurrencesConcat([], [], k);
      assert [] + AllAccessed([], access) == [];
    } else {
      AccessesLogged(before, commands[0], info, clock, k, access);
      SessionAccesses(Next(before, commands[0], info, clock), commands[1..], info, clock, k, access);
      OccurrencesConcat(KeysAccessed(commands[0], access), AllAccessed(commands[1..], access), k);
    }
  }

  /**
    After a session with the log on, the table holds exactly the keys accepted
    commands accessed: a key's reads are its occurrences in GET and TTL, its
    writes those in SET, EXPIRE and DEL, and its total is their sum.
   */
  lemma CountsMatchCommands(commands: seq<Args>, info: Bytes, m: Store, clock: nat -> nat, tick: nat,
                            perKey: map<Key, Counts>, k: Key)
    requires Exact(perKey, Serve(commands, info, m, clock, tick).log)
    ensures var r, w := Occurrences(AllAccessed(commands, Read), k), Occurrences(AllAccessed(commands, Write), k);
      && (k in perKey <==> r + w > 0)
      && (k in perKey ==> perKey[k] == Counts(r + w, r, w))
  {
    hide ServeFrom, AllAccessed, Occurrences;
    var log := Serve(commands, info, m, clock, tick).log;
    SessionAccesses(Served([], m, tick, []), commands, info, clock, k, Read);
    SessionAccesses(Served([], m, tick, []), commands, info, clock, k, Write);
    assert ExactAt(perKey, log, k);
  }
}
