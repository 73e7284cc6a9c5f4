/**
  The connection pool under every interleaving. Each step is one lock section
  of the pool or one private action of a caller; callers are interrupted
  anywhere in between.
 */
module PoolProtocol {
  import opened Prelude
  import opened Pool

  /** Where a caller stands. */
  datatype Phase =
    | Outside
    | Starting                            // at the top of the acquire loop
    | Checking(conn: Conn)                // popped from the idle queue, health not known yet
    | Unhealthy(conn: Conn)               // about to release the slot of a dead connection
    | Reserving                           // found the idle queue empty, about to reserve
    | Connecting                          // has reserved a slot
    | Refused                             // connecting failed, about to release the slot
    | Holding(conn: Conn, valid: bool)    // checked out

  datatype World = World(pool: PoolState, callers: seq<Phase>, serial: nat, failed: set<Conn>, config: Config)

  datatype Step =
    | Begin(t: nat)
    | Pop(t: nat)
    | Health(t: nat, ok: bool)
    | Release(t: nat)
    | Reserve(t: nat)
    | Dial(t: nat, ok: bool)
    | Exec(t: nat, ok: bool)
    | Drop(t: nat)

  predicate Enabled(w: World, step: Step) {
    && step.t < |w.callers|
    && match step
       case Begin(t) => w.callers[t].Outside?
       case Pop(t) => w.callers[t].Starting?
       case Health(t, _) => w.callers[t].Checking?
       case Release(t) => w.callers[t].Unhealthy? || w.callers[t].Refused?
       case Reserve(t) => w.callers[t].Reserving?
       case Dial(t, _) => w.callers[t].Connecting?
       case Exec(t, _) => w.callers[t].Holding?
       case Drop(t) => w.callers[t].Holding?
  }

  function Moved(w: World, t: nat, phase: Phase): World
    requires t < |w.callers|
  {
    w.(callers := w.callers[t := phase])
  }

  function Apply(w: World, step: Step): World
    requires Enabled(w, step)
  {
    var t := step.t;
    match step
    case Begin(_) => Moved(w, t, Starting)
    case Pop(_) =>
      Moved(w, t, if w.pool.idle == [] then Reserving else Checking(w.pool.idle[0])).(pool := AfterPop(w.pool))
    case Health(_, ok) =>
      Moved(w, t, if ok then Holding(w.callers[t].conn, true) else Unhealthy(w.callers[t].conn))
    case Release(_) =>
      Moved(w, t, if w.callers[t].Refused? then Outside else Starting).(pool := AfterRelease(w.pool))
    case Reserve(_) =>
      Moved(w, t, if CanReserve(w.pool, w.config) then Connecting else Outside).(pool := AfterReserve(w.pool, w.config))
    case Dial(_, ok) =>
      if ok then Moved(w, t, Holding(w.serial, true)).(serial := w.serial + 1) else Moved(w, t, Refused)
    case Exec(_, ok) =>
      if ok then w
      else Moved(w, t, Holding(w.callers[t].conn, false)).(failed := w.failed + {w.callers[t].conn})
    case Drop(_) =>
      var Holding(conn, valid) := w.callers[t];
      Moved(w, t, Outside).(pool := if valid then AfterReturn(w.pool, conn, w.config) else AfterRelease(w.pool))
  }

  // ---------- Slot accounting ----------

  /** A caller in one of these phases occupies a slot. */
  function SlotOf(phase: Phase): nat {
    if phase.Checking? || phase.Unhealthy? || phase.Connecting? || phase.Refused? || phase.Holding? then 1 else 0
  }

  function Slots(callers: seq<Phase>): seq<nat> {
    seq(|callers|, i requires 0 <= i < |callers| => SlotOf(callers[i]))
  }

  /** Slots are idle, being checked, reserved for connecting, or checked out. */
  ghost predicate Accounted(w: World) {
    && w.pool.total == |w.pool.idle| + Sum(Slots(w.callers))
    && w.pool.total <= w.config.maxTotal
    && |w.pool.idle| <= w.config.maxIdle
  }

  lemma SlotsUpdate(callers: seq<Phase>, t: nat, phase: Phase)
    requires t < |callers|
    ensures Sum(Slots(callers[t := phase])) + SlotOf(callers[t]) == Sum(Slots(callers)) + SlotOf(phase)
    ensures SlotOf(callers[t]) <= Sum(Slots(callers))
  {
    SumUpdate(Slots(callers), t, SlotOf(phase));
    SumAtLeast(Slots(callers), t);
    assert Slots(callers[t := phase]) == Slots(callers)[t := SlotOf(phase)];
  }

  lemma AccountedStep(w: World, step: Step)
    requires Enabled(w, step) && Accounted(w)
    ensures Accounted(Apply(w, step))
  {
    hide Slots, Sum;
    SlotsUpdate(w.callers, step.t, Apply(w, step).callers[step.t]);
    assert w.callers[step.t := w.callers[step.t]] == w.callers;
  }

  // ---------- Every connection is in one place ----------

  predicate Has(phase: Phase) {
    phase.Checking? || phase.Unhealthy? || phase.Holding?
  }

  ghost predicate Placed(w: World) {
    && (forall i, j :: 0 <= i < j < |w.pool.idle| ==> w.pool.idle[i] != w.pool.idle[j])
    && (forall i :: 0 <= i < |w.pool.idle| ==> w.pool.idle[i] < w.serial && w.pool.idle[i] !in w.failed)
    && (forall t :: 0 <= t < |w.callers| && Has(w.callers[t]) ==>
          w.callers[t].conn < w.serial && w.callers[t].conn !in w.pool.idle)
    && (forall t, u :: 0 <= t < u < |w.callers| && Has(w.callers[t]) && Has(w.callers[u]) ==>
          w.callers[t].conn != w.callers[u].conn)
    && (forall t :: 0 <= t < |w.callers| ==> GoodUnlessMarked(w.callers[t], w.failed))
    && (forall c :: c in w.failed ==> c < w.serial)
  }

  /** A connection that is not marked invalid has never failed. */
  predicate GoodUnlessMarked(phase: Phase, failed: set<Conn>) {
    (phase.Checking? || (phase.Holding? && phase.valid)) ==> phase.conn !in failed
  }

  lemma PlacedPop(w: World, t: nat)
    requires Enabled(w, Pop(t)) && Placed(w) && w.pool.idle != []
    ensures Placed(Apply(w, Pop(t)))
  {
    var w' := Apply(w, Pop(t));
    var front := w.pool.idle[0];
    assert forall i :: 0 <= i < |w'.pool.idle| ==> w'.pool.idle[i] == w.pool.idle[i + 1];
    assert front in w.pool.idle && front !in w'.pool.idle;
    assert forall i :: i in w'.pool.idle ==> i in w.pool.idle;
  }

  /** A caller that moves on without taking hold of another connection. */
  lemma PlacedMove(w: World, t: nat, phase: Phase)
    requires Placed(w) && t < |w.callers| && GoodUnlessMarked(phase, w.failed)
    requires Has(phase) ==> Has(w.callers[t]) && phase.conn == w.callers[t].conn
    ensures Placed(Moved(w, t, phase))
  {}

  lemma PlacedDial(w: World, t: nat)
    requires Placed(w) && t < |w.callers|
    ensures Placed(Moved(w, t, Holding(w.serial, true)).(serial := w.serial + 1))
  {
    assert w.serial !in w.pool.idle;
  }

  lemma PlacedExec(w: World, t: nat)
    requires Placed(w) && t < |w.callers| && w.callers[t].Holding?
    ensures Placed(Apply(w, Exec(t, false)))
  {
    var c := w.callers[t].conn;
    assert forall i :: 0 <= i < |w.pool.idle| ==> w.pool.idle[i] in w.pool.idle;
    assert forall u :: 0 <= u < |w.callers| && u != t && Has(w.callers[u]) ==> w.callers[u].conn != c;
  }

  lemma PlacedReturn(w: World, t: nat)
    requires Placed(w) && t < |w.callers| && w.callers[t].Holding? && w.callers[t].valid
    ensures Placed(Moved(w, t, Outside).(pool := w.pool.(idle := w.pool.idle + [w.callers[t].conn])))
  {
    var c := w.callers[t].conn;
    var idle' := w.pool.idle + [c];
    assert GoodUnlessMarked(w.callers[t], w.failed);
    assert forall i :: 0 <= i < |idle'| ==> idle'[i] == if i < |w.pool.idle| then w.pool.idle[i] else c;
    assert forall x :: x in idle' <==> x in w.pool.idle || x == c;
    assert forall u :: 0 <= u < |w.callers| && u != t && Has(w.callers[u]) ==> w.callers[u].conn != c;
  }

  /** Changing the total does not move any connection. */
  lemma PlacedRecount(w: World, total: nat)
    requires Placed(w)
    ensures Placed(w.(pool := w.pool.(total := total)))
  {}

  lemma PlacedStep(w: World, step: Step)
    requires Enabled(w, step) && Placed(w)
    ensures Placed(Apply(w, step))
  {
    var w' := Apply(w, step);
    var t := step.t;
    assert GoodUnlessMarked(w.callers[t], w.failed);
    hide Placed;
    match step {
      case Pop(_) =>
        if w.pool.idle != [] {
          PlacedPop(w, t);
        } else {
          PlacedMove(w, t, Reserving);
        }
      case Dial(_, ok) =>
        if ok {
          PlacedDial(w, t);
        } else {
          PlacedMove(w, t, Refused);
        }
      case Exec(_, ok) =>
        if !ok {
          PlacedExec(w, t);
        }
      case Drop(_) =>
        if w.callers[t].valid && |w.pool.idle| < w.config.maxIdle {
          PlacedReturn(w, t);
        } else {
          PlacedMove(w, t, Outside);
          PlacedRecount(Moved(w, t, Outside), w'.pool.total);
        }
      case _ =>
        PlacedMove(w, t, w'.callers[t]);
        PlacedRecount(Moved(w, t, w'.callers[t]), w'.pool.total);
    }
  }

  // ---------- Whole runs ----------

  ghost predicate Init(w: World) {
    && w.pool == PoolState([], 0)
    && w.failed == {}
    && forall t :: 0 <= t < |w.callers| ==> w.callers[t] == Outside
  }

  ghost predicate Possible(w: World, steps: seq<Step>)
    decreases |steps|
  {
    steps == [] || (Enabled(w, steps[0]) && Possible(Apply(w, steps[0]), steps[1..]))
  }

  ghost function Execute(w: World, steps: seq<Step>): World
    requires Possible(w, steps)
    decreases |steps|
  {
    if steps == [] then w else Execute(Apply(w, steps[0]), steps[1..])
  }

  lemma {:induction false} RunKeeps(w: World, steps: seq<Step>)
    requires Accounted(w) && Placed(w) && Possible(w, steps)
    ensures Accounted(Execute(w, steps)) && Placed(Execute(w, steps)) && Execute(w, steps).config == w.config
    decreases |steps|
  {
    hide Accounted, Placed;
    if steps != [] {
      AccountedStep(w, steps[0]);
      PlacedStep(w, steps[0]);
      RunKeeps(Apply(w, steps[0]), steps[1..]);
    }
  }

  lemma InitKeeps(w: World)
    requires Init(w)
    ensures Accounted(w) && Placed(w)
  {
    SumZero(Slots(w.callers));
  }

  /**
    In every interleaving, the total is the idle connections plus those being
    checked, connected or checked out; it stays within its bounds; and no
    connection that failed is ever in the idle queue.
   */
  lemma EveryInterleaving(w: World, steps: seq<Step>)
    requires Init(w) && Possible(w, steps)
    ensures var end := Execute(w, steps);
      && end.pool.total == |end.pool.idle| + Sum(Slots(end.callers))
      && end.pool.total <= w.config.maxTotal
      && |end.pool.idle| <= w.config.maxIdle
      && (forall c :: c in end.failed ==> c !in end.pool.idle)
  {
    InitKeeps(w);
    RunKeeps(w, steps);
  }

  /** The saturating subtractions never saturate: a slot is released only when one is counted. */
  lemma NeverSaturates(w: World, steps: seq<Step>, step: Step)
    requires Init(w) && Possible(w, steps) && Enabled(Execute(w, steps), step)
    requires step.Release? || step.Drop?
    ensures Execute(w, steps).pool.total > 0
  {
    InitKeeps(w);
    RunKeeps(w, steps);
    var end := Execute(w, steps);
    SumAtLeast(Slots(end.callers), step.t);
    assert Slots(end.callers)[step.t] == 1;
  }

  /** A step that puts a connection into the idle queue. */
  predicate Returns(w: World, step: Step)
    requires Enabled(w, step)
  {
    step.Drop? && w.callers[step.t].valid && |w.pool.idle| < w.config.maxIdle
  }

  /** A step that takes a connection out of the idle queue. */
  predicate Takes(w: World, step: Step) {
    step.Pop? && w.pool.idle != []
  }

  /** How many steps of a run put a connection into the idle queue. */
  ghost function ReturnCount(w: World, steps: seq<Step>): nat
    requires Possible(w, steps)
    decreases |steps|
  {
    if steps == [] then 0
    else (if Returns(w, steps[0]) then 1 else 0) + ReturnCount(Apply(w, steps[0]), steps[1..])
  }

  /** How many steps of a run take a connection out of the idle queue. */
  ghost function TakeCount(w: World, steps: seq<Step>): nat
    requires Possible(w, steps)
    decreases |steps|
  {
    if steps == [] then 0
    else (if Takes(w, steps[0]) then 1 else 0) + TakeCount(Apply(w, steps[0]), steps[1..])
  }

  ghost predicate Rests(t: nat, steps: seq<Step>) {
    forall i :: 0 <= i < |steps| ==> steps[i].t != t
  }

  /** What a run of other callers does to the queue and to a caller that rests. */
  lemma {:induction false} QueueBalance(w: World, steps: seq<Step>, t: nat)
    requires Possible(w, steps) && t < |w.callers| && Rests(t, steps)
    ensures var end := Execute(w, steps);
      && |end.pool.idle| + TakeCount(w, steps) == |w.pool.idle| + ReturnCount(w, steps)
      && t < |end.callers| && end.callers[t] == w.callers[t]
    decreases |steps|
  {
    if steps != [] {
      QueueBalance(Apply(w, steps[0]), steps[1..], t);
    }
  }

  lemma {:induction false} Concatenated(w: World, steps: seq<Step>, later: seq<Step>)
    requires Possible(w, steps + later)
    ensures Possible(w, steps) && Possible(Execute(w, steps), later)
    ensures Execute(w, steps + later) == Execute(Execute(w, steps), later)
    decreases |steps|
  {
    if steps == [] {
      assert steps + later == later;
    } else {
      assert (steps + later)[1..] == steps[1..] + later;
      Concatenated(Apply(w, steps[0]), steps[1..], later);
    }
  }

  /**
    What `PoolExhausted` means. A caller found the idle queue empty, others
    moved, and then its reservation was turned away. Every slot is then idle or
    with a caller, and there is an idle connection if and only if, since the
    caller looked, more connections came back to the queue than were taken
    from it.
   */
  lemma ExhaustedMeansFull(w: World, before: seq<Step>, t: nat, since: seq<Step>)
    requires Init(w) && Possible(w, before + ([Pop(t)] + since)) && Rests(t, since)
    requires Possible(w, before) && Execute(w, before).pool.idle == []
    requires !CanReserve(Execute(w, before + ([Pop(t)] + since)).pool, w.config)
    ensures Possible(w, before + [Pop(t)]) && Possible(Execute(w, before + [Pop(t)]), since)
    ensures var looked, end := Execute(w, before + [Pop(t)]), Execute(w, before + ([Pop(t)] + since));
      && Enabled(end, Reserve(t))
      && |end.pool.idle| + Sum(Slots(end.callers)) == w.config.maxTotal
      && (end.pool.idle != [] <==> ReturnCount(looked, since) > TakeCount(looked, since))
  {
    var steps := before + ([Pop(t)] + since);
    InitKeeps(w);
    RunKeeps(w, steps);
    assert steps == (before + [Pop(t)]) + since;
    Concatenated(w, before + [Pop(t)], since);
    Concatenated(w, before, [Pop(t)]);
    var found, looked := Execute(w, before), Execute(w, before + [Pop(t)]);
    assert looked == Apply(found, Pop(t)) by {
      assert [Pop(t)][1..] == [];
    }
    QueueBalance(looked, since, t);
  }

  lemma {:induction false} NoReturns(w: World, steps: seq<Step>)
    requires Possible(w, steps) && forall i :: 0 <= i < |steps| ==> !steps[i].Drop?
    ensures ReturnCount(w, steps) == 0
    decreases |steps|
  {
    if steps != [] {
      NoReturns(Apply(w, steps[0]), steps[1..]);
    }
  }

  /**
    The documented meaning, "at capacity and no idle connection", holds
    whenever nobody gave a connection back between the caller's look at the
    queue and its reservation: then callers hold every slot.
   */
  lemma ExhaustedAsDocumented(w: World, before: seq<Step>, t: nat, since: seq<Step>)
    requires Init(w) && Possible(w, before + ([Pop(t)] + since)) && Rests(t, since)
    requires Possible(w, before) && Execute(w, before).pool.idle == []
    requires !CanReserve(Execute(w, before + ([Pop(t)] + since)).pool, w.config)
    requires forall i :: 0 <= i < |since| ==> !since[i].Drop?
    ensures var end := Execute(w, before + ([Pop(t)] + since));
      end.pool.idle == [] && Sum(Slots(end.callers)) == w.config.maxTotal
  {
    ExhaustedMeansFull(w, before, t, since);
    NoReturns(Execute(w, before + [Pop(t)]), since);
  }

  /**
    A caller can be told the pool is exhausted while a connection sits idle:
    it was returned between the caller's look at the queue and its reservation.
   */
  lemma ExhaustedWithIdleConnection()
    ensures exists w, steps, t ::
      && Init(w) && Possible(w, steps)
      && Enabled(Execute(w, steps), Reserve(t))
      && !CanReserve(Execute(w, steps).pool, w.config)
      && Execute(w, steps).pool.idle != []
  {
    hide Possible, Execute;
    var last := [Begin(1), Pop(1), Drop(0)];
    SecondCallerLooksFirst();
    FirstCallerConnects(last);
    var w := TwoCallers([], 0, Outside, Outside, 0);
    var steps := [Begin(0), Pop(0), Reserve(0), Dial(0, true)] + last;
    var end := TwoCallers([0], 1, Outside, Reserving, 1);
    assert Possible(w, steps) && Execute(w, steps) == end;
    assert Init(w) && Enabled(end, Reserve(1)) && !CanReserve(end.pool, w.config) && end.pool.idle != [];
  }

  /** Two callers and one slot. */
  function TwoCallers(idle: seq<Conn>, total: nat, first: Phase, second: Phase, serial: nat): World {
    World(PoolState(idle, total), [first, second], serial, {}, Config(1, 1))
  }

  lemma FirstCallerConnects(later: seq<Step>)
    requires Possible(TwoCallers([], 1, Holding(0, true), Outside, 1), later)
    ensures var w := TwoCallers([], 0, Outside, Outside, 0);
      var steps := [Begin(0), Pop(0), Reserve(0), Dial(0, true)] + later;
      Possible(w, steps) && Execute(w, steps) == Execute(TwoCallers([], 1, Holding(0, true), Outside, 1), later)
  {
    hide Possible, Execute;
    var ready, dialing := TwoCallers([], 1, Holding(0, true), Outside, 1), TwoCallers([], 1, Connecting, Outside, 0);
    var looked, begun := TwoCallers([], 0, Reserving, Outside, 0), TwoCallers([], 0, Starting, Outside, 0);
    assert Apply(dialing, Dial(0, true)).callers == ready.callers;
    assert Apply(looked, Reserve(0)).callers == dialing.callers;
    assert Apply(begun, Pop(0)).callers == looked.callers;
    var w := TwoCallers([], 0, Outside, Outside, 0);
    assert Apply(w, Begin(0)).callers == begun.callers;
    Chain(dialing, Dial(0, true), later);
    Chain(looked, Reserve(0), [Dial(0, true)] + later);
    Chain(begun, Pop(0), [Reserve(0)] + ([Dial(0, true)] + later));
    Chain(w, Begin(0), [Pop(0)] + ([Reserve(0)] + ([Dial(0, true)] + later)));
    assert [Begin(0)] + ([Pop(0)] + ([Reserve(0)] + ([Dial(0, true)] + later)))
        == [Begin(0), Pop(0), Reserve(0), Dial(0, true)] + later;
  }

  lemma SecondCallerLooksFirst()
    ensures var w := TwoCallers([], 1, Holding(0, true), Outside, 1);
      var steps := [Begin(1), Pop(1), Drop(0)];
      Possible(w, steps) && Execute(w, steps) == TwoCallers([0], 1, Outside, Reserving, 1)
  {
    hide Possible, Execute;
    var end, looked := TwoCallers([0], 1, Outside, Reserving, 1), TwoCallers([], 1, Holding(0, true), Reserving, 1);
    var begun, w := TwoCallers([], 1, Holding(0, true), Starting, 1), TwoCallers([], 1, Holding(0, true), Outside, 1);
    assert Apply(looked, Drop(0)).callers == end.callers && Apply(looked, Drop(0)).pool.idle == [0];
    assert Apply(begun, Pop(1)).callers == looked.callers;
    assert Apply(w, Begin(1)).callers == begun.callers;
    NoSteps(end);
    Chain(looked, Drop(0), []);
    Chain(begun, Pop(1), [Drop(0)] + []);
    Chain(w, Begin(1), [Pop(1)] + ([Drop(0)] + []));
    assert [Begin(1)] + ([Pop(1)] + ([Drop(0)] + [])) == [Begin(1), Pop(1), Drop(0)];
  }

  lemma NoSteps(w: World)
    ensures Possible(w, []) && Execute(w, []) == w
  {}

  lemma Chain(w: World, step: Step, later: seq<Step>)
    requires Enabled(w, step) && Possible(Apply(w, step), later)
    ensures Possible(w, [step] + later) && Execute(w, [step] + later) == Execute(Apply(w, step), later)
  {
    assert ([step] + later)[1..] == later;
  }
}
