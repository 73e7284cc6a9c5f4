/**
  Byte accounting under concurrency. Any number of threads call the engine at
  once; a step is one lock section of a shard that touches no counter, or one
  atomic operation on `used_bytes` or `eviction_cursor`. Between changing a
  shard and settling the counter a thread may be interrupted by any other.
 */
module Accounting {
  import opened Prelude
  import opened Masking

  /** What the holder of a shard lock still owes the byte counter. */
  datatype Debt = Settled | OwesSub(bytes: nat) | OwesAdd(bytes: nat)

  datatype Lock = Free | Held(owner: nat, debt: Debt)

  /** A shard: entry sizes in LRU order, and its lock. */
  datatype Shard = Shard(sizes: seq<nat>, lock: Lock)

  /** Where a thread stands inside a call. */
  datatype Phase =
    | Idle
    | Writing(shard: nat)            // in write_value, before the entry is put
    | Wrote(shard: nat)              // in write_value, after the entry is put
    | Accessing(shard: nat)          // in get, ttl, expire, delete or purge_expired
    | Check                          // at the top of the eviction loop
    | Bump                           // over budget, about to advance the cursor
    | Scan(start: nat, offset: nat)  // about to lock the next shard of the scan
    | Popped(bytes: nat)             // evicted an entry, lock released, not subtracted yet

  /**
    `used` is an unbounded integer here, so that an underflow would show.
    `lastAdder` is a history variable: the thread of the latest `fetch_add`.
   */
  datatype State = State(
    shards: seq<Shard>,
    threads: seq<Phase>,
    used: int,
    cursor: nat,
    limit: Option<nat>,
    bits: nat,
    lastAdder: Option<nat>)

  datatype Step =
    | LockForWrite(t: nat, s: nat)
    | LockForAccess(t: nat, s: nat)
    | Touch(t: nat, i: nat)           // a get moves the entry it hit to the recent end
    | Remove(t: nat, i: nat)          // an expired or deleted entry leaves the held shard
    | Insert(t: nat, size: nat)
    | Replace(t: nat, i: nat, size: nat)
    | Settle(t: nat)                  // fetch_add or fetch_sub under the lock
    | Unlock(t: nat)
    | Load(t: nat)
    | BumpCursor(t: nat)
    | Visit(t: nat)                   // lock, pop_lru, unlock
    | Subtract(t: nat)                // fetch_sub after the eviction lock was released

  predicate Holds(st: State, t: nat) {
    && t < |st.threads|
    && (st.threads[t].Writing? || st.threads[t].Wrote? || st.threads[t].Accessing?)
    && st.threads[t].shard < |st.shards|
    && st.shards[st.threads[t].shard].lock.Held?
    && st.shards[st.threads[t].shard].lock.owner == t
  }

  function DebtOf(st: State, t: nat): Debt
    requires Holds(st, t)
  {
    st.shards[st.threads[t].shard].lock.debt
  }

  function VisitedShard(st: State, start: nat, offset: nat): nat
    requires |st.shards| > 0
  {
    ScanIndex(start, offset, |st.shards| - 1)
  }

  predicate Enabled(st: State, step: Step) {
    && step.t < |st.threads|
    && |st.shards| > 0
    && match step
       case LockForWrite(t, s) => st.threads[t].Idle? && s < |st.shards| && st.shards[s].lock.Free?
       case LockForAccess(t, s) => st.threads[t].Idle? && s < |st.shards| && st.shards[s].lock.Free?
       case Touch(t, i) =>
         && Holds(st, t) && st.threads[t].Accessing? && DebtOf(st, t).Settled?
         && i < |st.shards[st.threads[t].shard].sizes|
       case Remove(t, i) =>
         && Holds(st, t) && !st.threads[t].Wrote? && DebtOf(st, t).Settled?
         && i < |st.shards[st.threads[t].shard].sizes|
       case Insert(t, _) => Holds(st, t) && st.threads[t].Writing? && DebtOf(st, t).Settled?
       case Replace(t, i, _) =>
         && Holds(st, t) && st.threads[t].Writing? && DebtOf(st, t).Settled?
         && i < |st.shards[st.threads[t].shard].sizes|
       case Settle(t) => Holds(st, t) && !DebtOf(st, t).Settled?
       case Unlock(t) => Holds(st, t) && !st.threads[t].Writing? && DebtOf(st, t).Settled?
       case Load(t) => st.threads[t].Check?
       case BumpCursor(t) => st.threads[t].Bump?
       case Visit(t) =>
         && st.threads[t].Scan?
         && var s := VisitedShard(st, st.threads[t].start, st.threads[t].offset);
            s < |st.shards| && st.shards[s].lock.Free?
       case Subtract(t) => st.threads[t].Popped?
  }

  /** The state in which thread `t` holds shard `s` with the given contents and debt. */
  function Holding(st: State, t: nat, s: nat, sizes: seq<nat>, debt: Debt, phase: Phase): State
    requires t < |st.threads| && s < |st.shards|
  {
    st.(shards := st.shards[s := Shard(sizes, Held(t, debt))], threads := st.threads[t := phase])
  }

  function Moved(st: State, t: nat, phase: Phase): State
    requires t < |st.threads|
  {
    st.(threads := st.threads[t := phase])
  }

  function Apply(st: State, step: Step): State
    requires Enabled(st, step)
  {
    match step
    case LockForWrite(t, s) => Holding(st, t, s, st.shards[s].sizes, Settled, Writing(s))
    case LockForAccess(t, s) => Holding(st, t, s, st.shards[s].sizes, Settled, Accessing(s))
    case Touch(t, i) =>
      var s := st.threads[t].shard;
      var sizes := st.shards[s].sizes;
      Holding(st, t, s, Without(sizes, i) + [sizes[i]], Settled, st.threads[t])
    case Remove(t, i) =>
      var s := st.threads[t].shard;
      var sizes := st.shards[s].sizes;
      Holding(st, t, s, Without(sizes, i), OwesSub(sizes[i]), st.threads[t])
    case Insert(t, size) =>
      var s := st.threads[t].shard;
      Holding(st, t, s, st.shards[s].sizes + [size], OwesAdd(size), Wrote(s))
    case Replace(t, i, size) =>
      var s := st.threads[t].shard;
      var sizes := st.shards[s].sizes;
      var debt := if size > sizes[i] then OwesAdd(size - sizes[i])
                  else if sizes[i] > size then OwesSub(sizes[i] - size)
                  else Settled;
      Holding(st, t, s, Without(sizes, i) + [size], debt, Wrote(s))
    case Settle(t) =>
      var s := st.threads[t].shard;
      var next := Holding(st, t, s, st.shards[s].sizes, Settled, st.threads[t]);
      (match DebtOf(st, t)
       case OwesAdd(n) => next.(used := st.used + n, lastAdder := Some(t))
       case OwesSub(n) => next.(used := st.used - n)
       case Settled => next)
    case Unlock(t) =>
      var s := st.threads[t].shard;
      var phase := if st.threads[t].Wrote? && st.limit.Some? then Check else Idle;
      st.(shards := st.shards[s := Shard(st.shards[s].sizes, Free)], threads := st.threads[t := phase])
    case Load(t) =>
      Moved(st, t, if st.limit.Some? && st.used > st.limit.value then Bump else Idle)
    case BumpCursor(t) =>
      Moved(st, t, Scan(st.cursor, 0)).(cursor := (st.cursor + 1) % TWO_64)
    case Visit(t) =>
      var Scan(start, offset) := st.threads[t];
      var s := VisitedShard(st, start, offset);
      var sizes := st.shards[s].sizes;
      if sizes != [] then
        Moved(st, t, Popped(sizes[0])).(shards := st.shards[s := Shard(sizes[1..], Free)])
      else
        Moved(st, t, if offset + 1 < |st.shards| then Scan(start, offset + 1) else Idle)
    case Subtract(t) =>
      Moved(st, t, Check).(used := st.used - st.threads[t].bytes)
  }

  // ---------- The ledger ----------

  function BytesOf(shards: seq<Shard>): seq<nat> {
    seq(|shards|, i requires 0 <= i < |shards| => Sum(shards[i].sizes))
  }

  function AddOf(lock: Lock): nat {
    if lock.Held? && lock.debt.OwesAdd? then lock.debt.bytes else 0
  }

  function SubOf(lock: Lock): nat {
    if lock.Held? && lock.debt.OwesSub? then lock.debt.bytes else 0
  }

  function AddsOf(shards: seq<Shard>): seq<nat> {
    seq(|shards|, i requires 0 <= i < |shards| => AddOf(shards[i].lock))
  }

  function SubsOf(shards: seq<Shard>): seq<nat> {
    seq(|shards|, i requires 0 <= i < |shards| => SubOf(shards[i].lock))
  }

  function PopsOf(threads: seq<Phase>): seq<nat> {
    seq(|threads|, i requires 0 <= i < |threads| => if threads[i].Popped? then threads[i].bytes else 0)
  }

  /** Bytes of all entries present in the shards. */
  function Live(st: State): nat {
    Sum(BytesOf(st.shards))
  }

  /**
    The counter is the live bytes, plus what was taken out but not yet
    subtracted, less what was put in but not yet added.
   */
  ghost predicate Balanced(st: State) {
    st.used + Sum(AddsOf(st.shards)) == Live(st) + Sum(SubsOf(st.shards)) + Sum(PopsOf(st.threads))
  }

  lemma ShardsUpdate(shards: seq<Shard>, s: nat, shard: Shard)
    requires s < |shards|
    ensures Sum(BytesOf(shards[s := shard])) + Sum(shards[s].sizes) == Sum(BytesOf(shards)) + Sum(shard.sizes)
    ensures Sum(AddsOf(shards[s := shard])) + AddOf(shards[s].lock) == Sum(AddsOf(shards)) + AddOf(shard.lock)
    ensures Sum(SubsOf(shards[s := shard])) + SubOf(shards[s].lock) == Sum(SubsOf(shards)) + SubOf(shard.lock)
  {
    SumUpdate(BytesOf(shards), s, Sum(shard.sizes));
    assert BytesOf(shards[s := shard]) == BytesOf(shards)[s := Sum(shard.sizes)];
    SumUpdate(AddsOf(shards), s, AddOf(shard.lock));
    assert AddsOf(shards[s := shard]) == AddsOf(shards)[s := AddOf(shard.lock)];
    SumUpdate(SubsOf(shards), s, SubOf(shard.lock));
    assert SubsOf(shards[s := shard]) == SubsOf(shards)[s := SubOf(shard.lock)];
  }

  function PopOf(phase: Phase): nat {
    if phase.Popped? then phase.bytes else 0
  }

  lemma ThreadsUpdate(threads: seq<Phase>, t: nat, phase: Phase)
    requires t < |threads|
    ensures Sum(PopsOf(threads[t := phase])) + PopOf(threads[t]) == Sum(PopsOf(threads)) + PopOf(phase)
  {
    SumUpdate(PopsOf(threads), t, PopOf(phase));
    assert PopsOf(threads[t := phase]) == PopsOf(threads)[t := PopOf(phase)];
  }

  lemma {:induction false} SumWithout(s: seq<nat>, i: nat)
    requires i < |s|
    ensures Sum(Without(s, i)) + s[i] == Sum(s)
  {
    SumAppend(s[..i], s[i + 1..]);
    SumAppend(s[..i], s[i..]);
    assert s == s[..i] + s[i..] && s[i..][1..] == s[i + 1..];
  }

  lemma BalancedStep(st: State, step: Step)
    requires Enabled(st, step) && Balanced(st)
    ensures Balanced(Apply(st, step))
  {
    hide Sum, BytesOf, AddsOf, SubsOf, PopsOf, ScanIndex;
    var st' := Apply(st, step);
    var t := step.t;
    ThreadsUpdate(st.threads, t, st'.threads[t]);
    match step {
      case LockForWrite(_, s) => ShardsUpdate(st.shards, s, st'.shards[s]);
      case LockForAccess(_, s) => ShardsUpdate(st.shards, s, st'.shards[s]);
      case Touch(_, i) =>
        var s := st.threads[t].shard;
        ShardsUpdate(st.shards, s, st'.shards[s]);
        SumTouched(st.shards[s].sizes, i);
      case Remove(_, i) =>
        var s := st.threads[t].shard;
        ShardsUpdate(st.shards, s, st'.shards[s]);
        SumWithout(st.shards[s].sizes, i);
      case Insert(_, size) =>
        var s := st.threads[t].shard;
        ShardsUpdate(st.shards, s, st'.shards[s]);
        SumPush(st.shards[s].sizes, size);
      case Replace(_, i, size) =>
        var s := st.threads[t].shard;
        ShardsUpdate(st.shards, s, st'.shards[s]);
        SumWithout(st.shards[s].sizes, i);
        SumPush(Without(st.shards[s].sizes, i), size);
      case Settle(_) =>
        var s := st.threads[t].shard;
        ShardsUpdate(st.shards, s, st'.shards[s]);
      case Unlock(_) =>
        var s := st.threads[t].shard;
        ShardsUpdate(st.shards, s, st'.shards[s]);
      case Visit(_) =>
        var s := VisitedShard(st, st.threads[t].start, st.threads[t].offset);
        ShardsUpdate(st.shards, s, st'.shards[s]);
        SumPop(st.shards[s].sizes);
      case _ =>
    }
  }

  lemma SumPush(s: seq<nat>, x: nat)
    ensures Sum(s + [x]) == Sum(s) + x
  {
    SumAppend(s, [x]);
  }

  lemma SumTouched(s: seq<nat>, i: nat)
    requires i < |s|
    ensures Sum(Without(s, i) + [s[i]]) == Sum(s)
  {
    SumWithout(s, i);
    SumPush(Without(s, i), s[i]);
  }

  lemma SumPop(s: seq<nat>)
    ensures s != [] ==> Sum(s) == s[0] + Sum(s[1..])
  {}

  // ---------- Locks ----------

  predicate InShard(phase: Phase, s: nat) {
    (phase.Writing? || phase.Wrote? || phase.Accessing?) && phase.shard == s
  }

  /** A lock is held by a thread that is inside that shard; bytes owed are bytes present. */
  ghost predicate LockOk(st: State, s: nat)
    requires s < |st.shards|
  {
    var shard := st.shards[s];
    shard.lock.Held? ==>
      && shard.lock.owner < |st.threads|
      && InShard(st.threads[shard.lock.owner], s)
      && (shard.lock.debt.OwesAdd? ==>
            st.threads[shard.lock.owner] == Wrote(s) && shard.lock.debt.bytes <= Sum(shard.sizes))
  }

  ghost predicate LocksOk(st: State) {
    forall s :: 0 <= s < |st.shards| ==> LockOk(st, s)
  }

  lemma LocksStep(st: State, step: Step)
    requires Enabled(st, step) && LocksOk(st)
    ensures LocksOk(Apply(st, step))
  {
    hide Sum, ScanIndex;
    var st' := Apply(st, step);
    forall s | 0 <= s < |st'.shards|
      ensures LockOk(st', s)
    {
      assert LockOk(st, s);
      if step.Insert? && InShard(st.threads[step.t], s) {
        SumPush(st.shards[s].sizes, step.size);
      }
      if step.Replace? && InShard(st.threads[step.t], s) {
        SumPush(Without(st.shards[s].sizes, step.i), step.size);
      }
    }
  }

  lemma {:induction false} SumPointwise(a: seq<nat>, b: seq<nat>)
    requires |a| == |b| && forall i :: 0 <= i < |a| ==> a[i] <= b[i]
    ensures Sum(a) <= Sum(b)
  {
    if a != [] {
      SumPointwise(a[1..], b[1..]);
    }
  }

  /** What is owed to the counter as additions is present in the shards. */
  lemma AddsArePresent(st: State)
    requires LocksOk(st)
    ensures Sum(AddsOf(st.shards)) <= Live(st)
  {
    forall s | 0 <= s < |st.shards|
      ensures AddsOf(st.shards)[s] <= BytesOf(st.shards)[s]
    {
      assert LockOk(st, s);
    }
    SumPointwise(AddsOf(st.shards), BytesOf(st.shards));
  }

  // ---------- The budget ----------

  ghost predicate AddPending(st: State) {
    exists s :: 0 <= s < |st.shards| && OwesAddition(st.shards[s])
  }

  predicate OwesAddition(shard: Shard) {
    shard.lock.Held? && shard.lock.debt.OwesAdd?
  }

  /** A thread in one of these phases will still look at the counter. */
  predicate Obligated(phase: Phase) {
    phase.Wrote? || phase.Check? || phase.Bump? || phase.Scan? || phase.Popped?
  }

  /** The first `k` shards of a scan from `start` hold no bytes. */
  ghost predicate Clean(shards: seq<Shard>, start: nat, k: nat) {
    |shards| > 0 && forall o :: 0 <= o < k ==> Sum(shards[RoundRobin(start, o, |shards|)].sizes) == 0
  }

  /** The latest adder is still on duty, and what its scan has passed is empty. */
  ghost predicate OnDuty(st: State) {
    && st.lastAdder.Some?
    && st.lastAdder.value < |st.threads|
    && Obligated(st.threads[st.lastAdder.value])
    && (st.threads[st.lastAdder.value].Scan? ==>
          Clean(st.shards, st.threads[st.lastAdder.value].start, st.threads[st.lastAdder.value].offset))
  }

  /** Being over budget is always somebody's business. */
  ghost predicate Budgeted(st: State) {
    st.limit.Some? ==> AddPending(st) || Live(st) <= st.limit.value || OnDuty(st)
  }

  ghost predicate Shaped(st: State) {
    && st.bits <= 64
    && |st.shards| == Pow2(st.bits)
    && forall t :: 0 <= t < |st.threads| && st.threads[t].Scan? ==> st.threads[t].offset < |st.shards|
  }

  lemma ShapedStep(st: State, step: Step)
    requires Shaped(st) && Enabled(st, step)
    ensures Shaped(Apply(st, step))
  {
    hide ScanIndex, Pow2;
  }

  /** A step that puts no bytes into any shard. */
  ghost predicate NotGrowing(shards: seq<Shard>, shards': seq<Shard>) {
    && |shards'| == |shards|
    && forall s :: 0 <= s < |shards| ==> Sum(shards'[s].sizes) <= Sum(shards[s].sizes)
  }

  lemma NotGrowingKeeps(shards: seq<Shard>, shards': seq<Shard>, start: nat, k: nat)
    requires NotGrowing(shards, shards')
    ensures Sum(BytesOf(shards')) <= Sum(BytesOf(shards))
    ensures Clean(shards, start, k) ==> Clean(shards', start, k)
  {
    hide Sum, RoundRobin;
    SumPointwise(BytesOf(shards'), BytesOf(shards));
  }

  /** Either nothing grew, or the growth is owed to the counter. */
  lemma GrowthIsOwed(st: State, step: Step)
    requires Enabled(st, step)
    ensures NotGrowing(st.shards, Apply(st, step).shards) || AddPending(Apply(st, step))
  {
    hide Sum, ScanIndex;
    var st' := Apply(st, step);
    match step {
      case Touch(t, i) =>
        SumTouched(st.shards[st.threads[t].shard].sizes, i);
      case Remove(t, i) =>
        SumWithout(st.shards[st.threads[t].shard].sizes, i);
      case Insert(t, _) =>
        assert OwesAddition(st'.shards[st.threads[t].shard]);
      case Replace(t, i, size) =>
        var sizes := st.shards[st.threads[t].shard].sizes;
        SumWithout(sizes, i);
        SumPush(Without(sizes, i), size);
        if size > sizes[i] {
          assert OwesAddition(st'.shards[st.threads[t].shard]);
        }
      case Visit(t) =>
        SumPop(st.shards[VisitedShard(st, st.threads[t].start, st.threads[t].offset)].sizes);
      case _ =>
    }
  }

  lemma PendingPersists(st: State, step: Step)
    requires Enabled(st, step) && AddPending(st)
    requires step.Settle? ==> DebtOf(st, step.t).OwesSub?
    ensures AddPending(Apply(st, step))
  {
    hide ScanIndex;
    var s :| 0 <= s < |st.shards| && OwesAddition(st.shards[s]);
    assert Apply(st, step).shards[s] == st.shards[s];
  }

  /** The latest adder leaves the loop only when the live bytes fit. */
  lemma DutyEnds(st: State, step: Step)
    requires Shaped(st) && Enabled(st, step) && Balanced(st) && st.limit.Some?
    requires !AddPending(st) && OnDuty(st) && step.t == st.lastAdder.value
    requires !Obligated(Apply(st, step).threads[step.t])
    ensures Live(Apply(st, step)) <= st.limit.value
  {
    if step.Load? {
      forall s | 0 <= s < |st.shards|
        ensures AddsOf(st.shards)[s] == 0
      {
        assert !OwesAddition(st.shards[s]);
      }
      SumZero(AddsOf(st.shards));
    } else {
      assert step.Visit?;
      var Scan(start, offset) := st.threads[step.t];
      ScanIndexIsModulo(start, offset, st.bits);
      assert Clean(st.shards, start, |st.shards|);
      CleanScanIsEmpty(st.shards, start, st.bits);
    }
  }

  lemma CleanScanIsEmpty(shards: seq<Shard>, start: nat, bits: nat)
    requires bits <= 64 && |shards| == Pow2(bits) && Clean(shards, start, |shards|)
    ensures Sum(BytesOf(shards)) == 0
  {
    forall s | 0 <= s < |shards|
      ensures BytesOf(shards)[s] == 0
    {
      var offset := OffsetOf(start, |shards|, s);
      ScanVisitsOnce(start, bits, s, offset);
      ScanIndexIsModulo(start, offset, bits);
      assert RoundRobin(start, offset, |shards|) == s;
    }
    SumZero(BytesOf(shards));
  }

  /** A scan step over an empty shard extends the clean stretch. */
  lemma DutyContinues(st: State, step: Step)
    requires Shaped(st) && Enabled(st, step) && OnDuty(st)
    requires NotGrowing(st.shards, Apply(st, step).shards)
    requires step.t != st.lastAdder.value || Obligated(Apply(st, step).threads[step.t])
    requires step.Settle? ==> DebtOf(st, step.t).OwesSub?
    ensures OnDuty(Apply(st, step))
  {
    var st' := Apply(st, step);
    var phase' := st'.threads[st.lastAdder.value];
    if phase'.Scan? {
      if step.t == st.lastAdder.value && step.Visit? {
        ScanIndexIsModulo(phase'.start, phase'.offset - 1, st.bits);
        assert Clean(st.shards, phase'.start, phase'.offset);
      }
      NotGrowingKeeps(st.shards, st'.shards, phase'.start, phase'.offset);
    }
  }

  lemma BudgetStep(st: State, step: Step)
    requires Shaped(st) && Enabled(st, step) && Balanced(st) && LocksOk(st) && Budgeted(st)
    ensures Budgeted(Apply(st, step))
  {
    hide Sum, ScanIndex, Clean, NotGrowing, Balanced;
    var st' := Apply(st, step);
    if st.limit.Some? {
      if step.Settle? && DebtOf(st, step.t).OwesAdd? {
        assert LockOk(st, st.threads[step.t].shard);
        assert OnDuty(st');
      } else if AddPending(st) {
        PendingPersists(st, step);
      } else {
        GrowthIsOwed(st, step);
        if !AddPending(st') {
          if Live(st) <= st.limit.value {
            NotGrowingKeeps(st.shards, st'.shards, 0, 0);
          } else if step.t == st.lastAdder.value && !Obligated(st'.threads[step.t]) {
            DutyEnds(st, step);
          } else {
            DutyContinues(st, step);
          }
        }
      }
    }
  }

  // ---------- Whole runs ----------

  ghost predicate Inv(st: State) {
    Shaped(st) && Balanced(st) && LocksOk(st) && Budgeted(st)
  }

  /** Empty shards, free locks, idle threads. */
  ghost predicate Init(st: State) {
    && st.bits <= 64
    && |st.shards| == Pow2(st.bits)
    && (forall s :: 0 <= s < |st.shards| ==> st.shards[s] == Shard([], Free))
    && (forall t :: 0 <= t < |st.threads| ==> st.threads[t] == Idle)
    && st.used == 0 && st.cursor == 0 && st.lastAdder == None
  }

  lemma InitInv(st: State)
    requires Init(st)
    ensures Inv(st)
  {
    SumZero(BytesOf(st.shards));
    SumZero(AddsOf(st.shards));
    SumZero(SubsOf(st.shards));
    SumZero(PopsOf(st.threads));
  }

  lemma StepInv(st: State, step: Step)
    requires Inv(st) && Enabled(st, step)
    ensures Inv(Apply(st, step))
  {
    hide Balanced, LocksOk, Budgeted, Shaped, Apply, Enabled;
    ShapedStep(st, step);
    BalancedStep(st, step);
    LocksStep(st, step);
    BudgetStep(st, step);
  }

  /** `steps` is a possible interleaving from `st`. */
  ghost predicate Possible(st: State, steps: seq<Step>)
    decreases |steps|
  {
    steps == [] || (Enabled(st, steps[0]) && Possible(Apply(st, steps[0]), steps[1..]))
  }

  ghost function Execute(st: State, steps: seq<Step>): State
    requires Possible(st, steps)
    decreases |steps|
  {
    if steps == [] then st else Execute(Apply(st, steps[0]), steps[1..])
  }

  lemma {:induction false} RunInv(st: State, steps: seq<Step>)
    requires Inv(st) && Possible(st, steps)
    ensures Inv(Execute(st, steps)) && Execute(st, steps).limit == st.limit
    decreases |steps|
  {
    if steps != [] {
      StepInv(st, steps[0]);
      RunInv(Apply(st, steps[0]), steps[1..]);
    }
  }

  /** All calls have returned. */
  ghost predicate Quiescent(st: State) {
    forall t :: 0 <= t < |st.threads| ==> st.threads[t].Idle?
  }

  /**
    In every interleaving the ledger balances and the counter never goes below
    zero; once all calls have returned the counter is exactly the live bytes,
    and a finite limit is met.
   */
  lemma EveryInterleaving(st: State, steps: seq<Step>)
    requires Init(st) && Possible(st, steps)
    ensures var end := Execute(st, steps);
      && Balanced(end)
      && 0 <= end.used
      && (Quiescent(end) ==> end.used == Live(end))
      && (Quiescent(end) && st.limit.Some? ==> end.used <= st.limit.value)
  {
    InitInv(st);
    RunInv(st, steps);
    var end := Execute(st, steps);
    AddsArePresent(end);
    if Quiescent(end) {
      forall s | 0 <= s < |end.shards|
        ensures end.shards[s].lock.Free?
      {
        assert LockOk(end, s);
      }
      SumZero(AddsOf(end.shards));
      SumZero(SubsOf(end.shards));
      SumZero(PopsOf(end.threads));
      assert !AddPending(end);
    }
  }

  /** What the next step subtracts from the counter. */
  function Subtrahend(st: State, step: Step): nat
    requires Enabled(st, step)
  {
    match step
    case Settle(t) => if DebtOf(st, t).OwesSub? then DebtOf(st, t).bytes else 0
    case Subtract(t) => st.threads[t].bytes
    case _ => 0
  }

  /** No `fetch_sub` ever takes the counter below zero. */
  lemma NoUnderflow(st: State, steps: seq<Step>, step: Step)
    requires Init(st) && Possible(st, steps) && Enabled(Execute(st, steps), step)
    ensures Subtrahend(Execute(st, steps), step) <= Execute(st, steps).used
  {
    InitInv(st);
    RunInv(st, steps);
    var end := Execute(st, steps);
    AddsArePresent(end);
    match step {
      case Settle(t) =>
        var s := end.threads[t].shard;
        SumAtLeast(SubsOf(end.shards), s);
        assert SubsOf(end.shards)[s] == SubOf(end.shards[s].lock);
      case Subtract(t) =>
        SumAtLeast(PopsOf(end.threads), t);
        assert PopsOf(end.threads)[t] == end.threads[t].bytes;
      case _ =>
    }
  }
}
