/**
  Command dispatch: arguments are matched to a handler, the handler calls the
  engine, the result is printed as a RESP2 reply, and the keys a successful
  command touched are logged.
 */
module Server {
  import opened Prelude
  import opened Decimal
  import opened Store
  import opened EngineState
  import opened Engine
  import opened EngineRuns
  import opened LruCache
  import opened Protocol
  import opened Replies

  /** Clock ticks are nanoseconds; the wire carries whole seconds. */
  const TICKS_PER_SECOND: nat := 1_000_000_000

  // ---------- Command names ----------

  function Lower(b: byte): byte {
    if 65 <= b <= 90 then b + 32 else b
  }

  predicate EqIgnoreCase(a: Bytes, b: Bytes) {
    |a| == |b| && forall i :: 0 <= i < |a| ==> Lower(a[i]) == Lower(b[i])
  }

  datatype Verb = PingVerb | GetVerb | SetVerb | DelVerb | ExpireVerb | TtlVerb | InfoVerb | UnknownVerb

  /** The handler chosen for a command name. */
  function VerbOf(name: Bytes): Verb {
    if EqIgnoreCase(name, Ascii("PING")) then PingVerb
    else if EqIgnoreCase(name, Ascii("GET")) then GetVerb
    else if EqIgnoreCase(name, Ascii("SET")) then SetVerb
    else if EqIgnoreCase(name, Ascii("DEL")) then DelVerb
    else if EqIgnoreCase(name, Ascii("EXPIRE")) then ExpireVerb
    else if EqIgnoreCase(name, Ascii("TTL")) then TtlVerb
    else if EqIgnoreCase(name, Ascii("INFO")) then InfoVerb
    else UnknownVerb
  }

  // ---------- Observations ----------

  datatype CommandKind = GetKind | SetKind | DeleteKind | ExpireKind | TtlKind

  datatype AccessClass = Read | Write

  datatype Event = Event(command: CommandKind, key: Key, access: AccessClass, valueSize: Option<nat>)

  /** `planned_observations`: what a command will log if it succeeds. */
  function Planned(args: Args): seq<Event> {
    if args == [] then []
    else
      match VerbOf(args[0])
      case GetVerb => if |args| == 2 then [Event(GetKind, args[1], Read, None)] else []
      case SetVerb =>
        if |args| == 3 || (|args| == 5 && EqIgnoreCase(args[3], Ascii("EX")))
        then [Event(SetKind, args[1], Write, Some(|args[2]|))] else []
      case DelVerb => DeleteEvents(args[1..])
      case ExpireVerb => if |args| == 3 then [Event(ExpireKind, args[1], Write, None)] else []
      case TtlVerb => if |args| == 2 then [Event(TtlKind, args[1], Read, None)] else []
      case _ => []
  }

  function DeleteEvents(keys: seq<Key>): seq<Event> {
    if keys == [] then [] else [Event(DeleteKind, keys[0], Write, None)] + DeleteEvents(keys[1..])
  }

  predicate IsErrorReply(response: Bytes) {
    response != [] && response[0] == 45
  }

  /** What a command logs, given its reply. */
  function Observed(args: Args, response: Bytes): seq<Event> {
    if IsErrorReply(response) then [] else Planned(args)
  }

  // ---------- Handlers, on the map the engine stands for ----------

  /** A reply, the map afterwards, and the number of the next clock reading. */
  datatype Handled = Handled(response: Bytes, store: Store, tick: nat)

  function One(m: Store, op: Op, clock: nat -> nat, tick: nat, response: Bytes): Handled {
    Handled(response, Step(m, op, clock(tick)), tick + 1)
  }

  datatype Deletion = Deletion(count: nat, store: Store)

  /** The deletions of a DEL, each with its own clock reading. */
  function DeleteAll(keys: seq<Key>, m: Store, clock: nat -> nat, tick: nat): Deletion {
    if keys == [] then Deletion(0, m)
    else
      var others := DeleteAll(keys[1..], Step(m, Delete(keys[0]), clock(tick)), clock, tick + 1);
      Deletion((if Answer(m, Delete(keys[0]), clock(tick)).removed then 1 else 0) + others.count, others.store)
  }

  lemma DeleteNext(keys: seq<Key>, i: nat, m: Store, clock: nat -> nat, tick: nat)
    requires i < |keys|
    ensures var others := DeleteAll(keys[i + 1..], Step(m, Delete(keys[i]), clock(tick)), clock, tick + 1);
      var hit := if Answer(m, Delete(keys[i]), clock(tick)).removed then 1 else 0;
      DeleteAll(keys[i..], m, clock, tick) == Deletion(hit + others.count, others.store)
  {
    assert keys[i..][1..] == keys[i + 1..];
  }

  lemma DeleteNone(m: Store, clock: nat -> nat, tick: nat)
    ensures DeleteAll([], m, clock, tick) == Deletion(0, m)
  {}

  /** The cast `as i64` of an unsigned 64-bit value. */
  function AsI64(x: nat): int {
    if x % TWO_64 <= I64_MAX then x % TWO_64 else x % TWO_64 - TWO_64
  }

  function TtlReply(status: TtlStatus): Bytes {
    match status
    case Missing => RespInteger(-2)
    case NoExpiry => RespInteger(-1)
    case ExpiresIn(remaining) => RespInteger(AsI64(remaining / TICKS_PER_SECOND))
  }

  function Reject(message: string, m: Store, tick: nat): Handled {
    Handled(RespError(Ascii(message)), m, tick)
  }

  function PingReply(args: Args, m: Store, tick: nat): Handled {
    if |args| == 1 then Handled(RespSimple(Ascii("PONG")), m, tick)
    else if |args| == 2 then Handled(RespBulk(args[1]), m, tick)
    else Reject("wrong number of arguments for PING", m, tick)
  }

  function GetReply(args: Args, m: Store, clock: nat -> nat, tick: nat): Handled {
    if |args| != 2 then Reject("wrong number of arguments for GET", m, tick)
    else
      var found := Answer(m, Get(args[1]), clock(tick)).value;
      One(m, Get(args[1]), clock, tick, if found.Some? then RespBulk(found.value) else RespNull())
  }

  function SetReply(args: Args, m: Store, clock: nat -> nat, tick: nat): Handled {
    if |args| < 3 then Reject("wrong number of arguments for SET", m, tick)
    else if |args| == 3 then One(m, Set(args[1], args[2]), clock, tick, RespSimple(Ascii("OK")))
    else if |args| == 5 && EqIgnoreCase(args[3], Ascii("EX")) then
      var seconds := ParseUnsigned(args[4], USIZE_MAX);
      if seconds.None? then Reject("invalid integer", m, tick)
      else One(m, SetWithTtl(args[1], args[2], seconds.value * TICKS_PER_SECOND), clock, tick, RespSimple(Ascii("OK")))
    else Reject("unsupported SET options", m, tick)
  }

  function DelReply(args: Args, m: Store, clock: nat -> nat, tick: nat): Handled {
    if |args| < 2 then Reject("wrong number of arguments for DEL", m, tick)
    else
      var deletion := DeleteAll(args[1..], m, clock, tick);
      Handled(RespInteger(deletion.count), deletion.store, tick + |args| - 1)
  }

  function ExpireReply(args: Args, m: Store, clock: nat -> nat, tick: nat): Handled {
    if |args| != 3 then Reject("wrong number of arguments for EXPIRE", m, tick)
    else
      var seconds := ParseUnsigned(args[2], USIZE_MAX);
      if seconds.None? then Reject("invalid integer", m, tick)
      else
        var op := Expire(args[1], seconds.value * TICKS_PER_SECOND);
        One(m, op, clock, tick, RespInteger(if Answer(m, op, clock(tick)).applied then 1 else 0))
  }

  function TtlCommandReply(args: Args, m: Store, clock: nat -> nat, tick: nat): Handled {
    if |args| != 2 then Reject("wrong number of arguments for TTL", m, tick)
    else One(m, Ttl(args[1]), clock, tick, TtlReply(Answer(m, Ttl(args[1]), clock(tick)).status))
  }

  /** `dispatch_command` */
  function Dispatch(args: Args, info: Bytes, m: Store, clock: nat -> nat, tick: nat): Handled {
    if args == [] then Reject("empty command", m, tick)
    else
      match VerbOf(args[0])
      case PingVerb => PingReply(args, m, tick)
      case GetVerb => GetReply(args, m, clock, tick)
      case SetVerb => SetReply(args, m, clock, tick)
      case DelVerb => DelReply(args, m, clock, tick)
      case ExpireVerb => ExpireReply(args, m, clock, tick)
      case TtlVerb => TtlCommandReply(args, m, clock, tick)
      case InfoVerb => Handled(RespBulk(info), m, tick)
      case UnknownVerb => Reject("unknown command", m, tick)
  }

  /** What serving a list of commands writes, one reply each, leaves behind and logs. */
  datatype Served = Served(replies: seq<Bytes>, store: Store, tick: nat, log: seq<Event>)

  function Next(before: Served, args: Args, info: Bytes, clock: nat -> nat): Served {
    var h := Dispatch(args, info, before.store, clock, before.tick);
    Served(before.replies + [h.response], h.store, h.tick, before.log + Observed(args, h.response))
  }

  function ServeFrom(before: Served, commands: seq<Args>, info: Bytes, clock: nat -> nat): Served
    decreases |commands|
  {
    if commands == [] then before else ServeFrom(Next(before, commands[0], info, clock), commands[1..], info, clock)
  }

  /** Serving a list of commands on a map. */
  function Serve(commands: seq<Args>, info: Bytes, m: Store, clock: nat -> nat, tick: nat): Served {
    ServeFrom(Served([], m, tick, []), commands, info, clock)
  }

  lemma ServeOne(before: Served, args: Args, later: seq<Args>, info: Bytes, clock: nat -> nat)
    ensures ServeFrom(before, [args] + later, info, clock) == ServeFrom(Next(before, args, info, clock), later, info, clock)
    ensures ServeFrom(before, [], info, clock) == before
  {
    assert ([args] + later)[1..] == later;
  }

  lemma {:induction false} ServeAppend(before: Served, first: seq<Args>, later: seq<Args>, info: Bytes, clock: nat -> nat)
    ensures ServeFrom(before, first + later, info, clock)
         == ServeFrom(ServeFrom(before, first, info, clock), later, info, clock)
    decreases |first|
  {
    hide Next;
    if first == [] {
      assert first + later == later;
    } else {
      assert (first + later)[1..] == first[1..] + later;
      ServeAppend(Next(before, first[0], info, clock), first[1..], later, info, clock);
    }
  }

  /** The reply a refused connection gets before it is closed. */
  function Farewell(ending: Ending): Bytes {
    if ending.Refused? then RespError(Ascii("protocol error")) else []
  }

  // ---------- The same command on a map that lost some keys ----------

  ghost predicate Monotone(clock: nat -> nat) {
    forall i: nat, j: nat :: i <= j ==> clock(i) <= clock(j)
  }

  /** One of the keys a command names is gone. */
  predicate NamesLost(args: Args, gone: set<Key>) {
    exists i :: 1 <= i < |args| && args[i] in gone
  }

  /** The reply or, if the command names a key that is gone, the one it gets when that key is missing. */
  ghost predicate ReplyOrMiss(args: Args, response: Bytes, expected: Bytes, gone: set<Key>) {
    || response == expected
    || (&& NamesLost(args, gone)
        && match VerbOf(args[0])
           case GetVerb => response == RespNull()
           case ExpireVerb => response == RespInteger(0)
           case TtlVerb => response == RespInteger(-2)
           case DelVerb => exists n: nat, k: nat :: k <= n && expected == RespInteger(n) && response == RespInteger(k)
           case _ => false)
  }

  lemma ReplyOrMissGrows(args: Args, response: Bytes, expected: Bytes, gone: set<Key>, more: set<Key>)
    requires ReplyOrMiss(args, response, expected, gone)
    ensures ReplyOrMiss(args, response, expected, gone + more)
  {
    if NamesLost(args, gone) {
      var i :| 1 <= i < |args| && args[i] in gone;
      assert args[i] in gone + more;
    }
  }

  lemma ErrorsAreMarked(message: Bytes, data: Bytes, number: int)
    ensures IsErrorReply(RespError(message)) && !IsErrorReply(RespSimple(message))
    ensures !IsErrorReply(RespInteger(number)) && !IsErrorReply(RespBulk(data)) && !IsErrorReply(RespNull())
  {}

  ghost predicate Alike(h: Handled, expected: Handled) {
    h.tick == expected.tick && IsErrorReply(h.response) == IsErrorReply(expected.response)
  }

  lemma GetAlike(args: Args, m: Store, p: Store, clock: nat -> nat, tick: nat)
    ensures Alike(GetReply(args, m, clock, tick), GetReply(args, p, clock, tick))
  {
    hide Step, Ascii, Digits;
  }

  lemma SetAlike(args: Args, m: Store, p: Store, clock: nat -> nat, tick: nat)
    ensures Alike(SetReply(args, m, clock, tick), SetReply(args, p, clock, tick))
  {
    hide Step, Ascii, EqIgnoreCase, ParseUnsigned, IsErrorReply;
  }

  lemma DelAlike(args: Args, m: Store, p: Store, clock: nat -> nat, tick: nat)
    ensures Alike(DelReply(args, m, clock, tick), DelReply(args, p, clock, tick))
  {
    hide DeleteAll, Ascii, RespInteger, IsErrorReply;
    ErrorsAreMarked([], [], DeleteAll(args[if |args| < 2 then 0 else 1..], m, clock, tick).count);
    ErrorsAreMarked([], [], DeleteAll(args[if |args| < 2 then 0 else 1..], p, clock, tick).count);
  }

  lemma ExpireAlike(args: Args, m: Store, p: Store, clock: nat -> nat, tick: nat)
    ensures Alike(ExpireReply(args, m, clock, tick), ExpireReply(args, p, clock, tick))
  {
    hide Step, Ascii, RespInteger, IsErrorReply, ParseUnsigned;
    ErrorsAreMarked([], [], 0);
    ErrorsAreMarked([], [], 1);
  }

  lemma TtlAlike(args: Args, m: Store, p: Store, clock: nat -> nat, tick: nat)
    ensures Alike(TtlCommandReply(args, m, clock, tick), TtlCommandReply(args, p, clock, tick))
  {
    hide Step, Ascii, TtlReply, IsErrorReply;
    if |args| == 2 {
      TtlIsNoError(Answer(m, Ttl(args[1]), clock(tick)).status);
      TtlIsNoError(Answer(p, Ttl(args[1]), clock(tick)).status);
    }
  }

  lemma TtlIsNoError(status: TtlStatus)
    ensures !IsErrorReply(TtlReply(status))
  {
    hide AsI64;
  }

  /** Whether a reply is an error, and how often the clock is read, does not depend on the map. */
  lemma DispatchAlike(args: Args, info: Bytes, m: Store, p: Store, clock: nat -> nat, tick: nat)
    ensures Alike(Dispatch(args, info, m, clock, tick), Dispatch(args, info, p, clock, tick))
  {
    hide VerbOf, Ascii, GetReply, SetReply, DelReply, ExpireReply, TtlCommandReply, IsErrorReply;
    GetAlike(args, m, p, clock, tick);
    SetAlike(args, m, p, clock, tick);
    DelAlike(args, m, p, clock, tick);
    ExpireAlike(args, m, p, clock, tick);
    TtlAlike(args, m, p, clock, tick);
  }

  lemma OneBelow(m: Store, p: Store, op: Op, clock: nat -> nat, tick: nat, gone: set<Key>)
    requires Monotone(clock) && Sees(m, p, clock(tick), gone)
    ensures Sees(Step(m, op, clock(tick)), Step(p, op, clock(tick)), clock(tick + 1), gone)
  {
    hide Sees, Step;
    SweptStepBelow(m, p, op, clock(tick), gone);
    SeesLater(Step(m, op, clock(tick)), Step(p, op, clock(tick)), clock(tick), clock(tick + 1), gone);
  }

  lemma SeesLater(m: Store, p: Store, now: nat, later: nat, gone: set<Key>)
    requires Sees(m, p, now, gone) && now <= later
    ensures Sees(m, p, later, gone)
  {
    LossSees(m, p, now, later, gone, {});
    assert m - {} == m && gone + {} == gone;
  }

  /** Deleting many keys counts fewer only if one of them is gone. */
  lemma {:induction false} DeletesBelow(keys: seq<Key>, m: Store, p: Store, clock: nat -> nat, tick: nat, gone: set<Key>)
    requires Monotone(clock) && Sees(m, p, clock(tick), gone)
    ensures var d, expected := DeleteAll(keys, m, clock, tick), DeleteAll(keys, p, clock, tick);
      && d.count <= expected.count
      && (d.count < expected.count ==> exists i :: 0 <= i < |keys| && keys[i] in gone)
      && Sees(d.store, expected.store, clock(tick + |keys|), gone)
    decreases |keys|
  {
    hide Sees, Step, Monotone;
    if keys != [] {
      var op := Delete(keys[0]);
      AnswerBelow(m, p, op, clock(tick), gone);
      OneBelow(m, p, op, clock, tick, gone);
      DeletesBelow(keys[1..], Step(m, op, clock(tick)), Step(p, op, clock(tick)), clock, tick + 1, gone);
      var d, expected := DeleteAll(keys, m, clock, tick), DeleteAll(keys, p, clock, tick);
      if d.count < expected.count && keys[0] !in gone {
        var i :| 0 <= i < |keys[1..]| && keys[1..][i] in gone;
        assert keys[i + 1] in gone;
      }
    }
  }

  /** The reply `h` gives and the map it leaves, against the expected ones. */
  ghost predicate AsExpected(args: Args, h: Handled, expected: Handled, clock: nat -> nat, gone: set<Key>) {
    ReplyOrMiss(args, h.response, expected.response, gone) && Sees(h.store, expected.store, clock(h.tick), gone)
  }

  lemma GetBelow(args: Args, m: Store, p: Store, clock: nat -> nat, tick: nat, gone: set<Key>)
    requires Monotone(clock) && Sees(m, p, clock(tick), gone) && args != [] && VerbOf(args[0]).GetVerb?
    ensures AsExpected(args, GetReply(args, m, clock, tick), GetReply(args, p, clock, tick), clock, gone)
  {
    hide VerbOf, Ascii, Step, Sees, Monotone, RespBulk, RespNull;
    if |args| == 2 {
      KeyCommandBelow(args, m, p, Get(args[1]), clock, tick, gone);
    }
  }

  lemma SetBelow(args: Args, m: Store, p: Store, clock: nat -> nat, tick: nat, gone: set<Key>)
    requires Monotone(clock) && Sees(m, p, clock(tick), gone)
    ensures AsExpected(args, SetReply(args, m, clock, tick), SetReply(args, p, clock, tick), clock, gone)
  {
    hide VerbOf, EqIgnoreCase, Ascii, Step, Sees, Monotone, ParseUnsigned, NamesLost;
    if |args| == 3 {
      OneBelow(m, p, Set(args[1], args[2]), clock, tick, gone);
    } else if |args| == 5 && ParseUnsigned(args[4], USIZE_MAX).Some? {
      var ttl := ParseUnsigned(args[4], USIZE_MAX).value * TICKS_PER_SECOND;
      OneBelow(m, p, SetWithTtl(args[1], args[2], ttl), clock, tick, gone);
    }
  }

  lemma ExpireBelow(args: Args, m: Store, p: Store, clock: nat -> nat, tick: nat, gone: set<Key>)
    requires Monotone(clock) && Sees(m, p, clock(tick), gone) && args != [] && VerbOf(args[0]).ExpireVerb?
    ensures AsExpected(args, ExpireReply(args, m, clock, tick), ExpireReply(args, p, clock, tick), clock, gone)
  {
    hide VerbOf, Ascii, Step, Sees, Monotone, ParseUnsigned, RespInteger;
    if |args| == 3 && ParseUnsigned(args[2], USIZE_MAX).Some? {
      var ttl := ParseUnsigned(args[2], USIZE_MAX).value * TICKS_PER_SECOND;
      KeyCommandBelow(args, m, p, Expire(args[1], ttl), clock, tick, gone);
    }
  }

  lemma TtlBelow(args: Args, m: Store, p: Store, clock: nat -> nat, tick: nat, gone: set<Key>)
    requires Monotone(clock) && Sees(m, p, clock(tick), gone) && args != [] && VerbOf(args[0]).TtlVerb?
    ensures AsExpected(args, TtlCommandReply(args, m, clock, tick), TtlCommandReply(args, p, clock, tick), clock, gone)
  {
    hide VerbOf, Ascii, Step, Sees, Monotone, RespInteger;
    if |args| == 2 {
      KeyCommandBelow(args, m, p, Ttl(args[1]), clock, tick, gone);
    }
  }

  /** A command on a map that lost some keys: the expected reply, or that of a missing key. */
  lemma DispatchBelow(args: Args, info: Bytes, m: Store, p: Store, clock: nat -> nat, tick: nat, gone: set<Key>)
    requires Monotone(clock) && Sees(m, p, clock(tick), gone)
    ensures AsExpected(args, Dispatch(args, info, m, clock, tick), Dispatch(args, info, p, clock, tick), clock, gone)
  {
    hide VerbOf, Ascii, Sees, Monotone, GetReply, SetReply, DelReply, ExpireReply, TtlCommandReply, NamesLost;
    if args != [] {
      match VerbOf(args[0]) {
        case GetVerb => GetBelow(args, m, p, clock, tick, gone);
        case SetVerb => SetBelow(args, m, p, clock, tick, gone);
        case DelVerb => DelBelow(args, m, p, clock, tick, gone);
        case ExpireVerb => ExpireBelow(args, m, p, clock, tick, gone);
        case TtlVerb => TtlBelow(args, m, p, clock, tick, gone);
        case _ =>
      }
    }
  }

  lemma KeyCommandBelow(args: Args, m: Store, p: Store, op: Op, clock: nat -> nat, tick: nat, gone: set<Key>)
    requires Monotone(clock) && Sees(m, p, clock(tick), gone)
    requires |args| >= 2 && !op.Purge? && op.key == args[1]
    ensures Sees(Step(m, op, clock(tick)), Step(p, op, clock(tick)), clock(tick + 1), gone)
    ensures var r, expected := Answer(m, op, clock(tick)), Answer(p, op, clock(tick));
      r == expected || (NamesLost(args, gone) && r == Answer(map[], op, 0))
  {
    hide Sees, Step, Monotone;
    OneBelow(m, p, op, clock, tick, gone);
    AnswerBelow(m, p, op, clock(tick), gone);
    assert args[1] in gone ==> NamesLost(args, gone);
  }

  lemma DelBelow(args: Args, m: Store, p: Store, clock: nat -> nat, tick: nat, gone: set<Key>)
    requires Monotone(clock) && Sees(m, p, clock(tick), gone) && args != [] && VerbOf(args[0]).DelVerb?
    ensures AsExpected(args, DelReply(args, m, clock, tick), DelReply(args, p, clock, tick), clock, gone)
  {
    hide VerbOf, Ascii, Sees, Monotone, DeleteAll, RespInteger;
    if |args| >= 2 {
      var keys := args[1..];
      DeletesBelow(keys, m, p, clock, tick, gone);
      var d, expected := DeleteAll(keys, m, clock, tick), DeleteAll(keys, p, clock, tick);
      if d.count < expected.count {
        var i :| 0 <= i < |keys| && keys[i] in gone;
        assert args[i + 1] in gone;
        assert NamesLost(args, gone);
      }
    }
  }

  /**
    A session in progress: the commands answered, the replies given, the
    reference session on a map that evicts nothing, and where the engine's
    eviction log and the event log stood at the start.
   */
  datatype Session = Session(commands: seq<Args>, replies: seq<Bytes>, spec: Served, evicted: nat, earlier: seq<Event>)

  ghost function Answered(s: Session, args: Args, info: Bytes, clock: nat -> nat, replies: seq<Bytes>): Session {
    s.(commands := s.commands + [args], replies := replies, spec := Next(s.spec, args, info, clock))
  }

  ghost function Resumed(s: Session, commands: seq<Args>, info: Bytes, clock: nat -> nat, replies: seq<Bytes>): Session {
    s.(commands := s.commands + commands, replies := replies, spec := ServeFrom(s.spec, commands, info, clock))
  }

  lemma AnsweredResumes(s: Session, done: seq<Args>, args: Args, info: Bytes, clock: nat -> nat, replies: seq<Bytes>, all: seq<Bytes>)
    ensures Answered(Resumed(s, done, info, clock, replies), args, info, clock, all)
         == Resumed(s, done + [args], info, clock, all)
  {
    hide Next, ServeFrom;
    ServeAppend(s.spec, done, [args], info, clock);
    ServeOne(ServeFrom(s.spec, done, info, clock), args, [], info, clock);
    ServeOne(Next(ServeFrom(s.spec, done, info, clock), args, info, clock), args, [], info, clock);
    assert [args] + [] == [args] && (s.commands + done) + [args] == s.commands + (done + [args]);
  }

  lemma ResumedTwice(s: Session, done: seq<Args>, more: seq<Args>, info: Bytes, clock: nat -> nat, replies: seq<Bytes>, all: seq<Bytes>)
    ensures Resumed(Resumed(s, done, info, clock, replies), more, info, clock, all) == Resumed(s, done + more, info, clock, all)
  {
    hide ServeFrom;
    ServeAppend(s.spec, done, more, info, clock);
    assert (s.commands + done) + more == s.commands + (done + more);
  }

  /** A map that shows what the reference does but for `gone` keys, after replies that say so. */
  ghost predicate Within(s: Session, m: Store, now: nat, gone: set<Key>)
    requires |s.replies| == |s.spec.replies| == |s.commands|
  {
    && Sees(m, s.spec.store, now, gone)
    && forall i :: 0 <= i < |s.commands| ==> ReplyOrMiss(s.commands[i], s.replies[i], s.spec.replies[i], gone)
  }

  lemma WithinStep(s: Session, m: Store, args: Args, info: Bytes, clock: nat -> nat, gone: set<Key>, lost: set<Key>)
    requires |s.replies| == |s.spec.replies| == |s.commands| && Monotone(clock)
    requires Within(s, m, clock(s.spec.tick), gone)
    ensures var h := Dispatch(args, info, m, clock, s.spec.tick);
      Within(Answered(s, args, info, clock, s.replies + [h.response]), h.store - lost, clock(h.tick), gone + lost)
  {
    hide Dispatch, Sees, Observed, ReplyOrMiss, Monotone;
    var h := Dispatch(args, info, m, clock, s.spec.tick);
    var expected := Dispatch(args, info, s.spec.store, clock, s.spec.tick);
    var after := Answered(s, args, info, clock, s.replies + [h.response]);
    DispatchBelow(args, info, m, s.spec.store, clock, s.spec.tick, gone);
    LossSees(h.store, expected.store, clock(h.tick), clock(h.tick), gone, lost);
    forall i | 0 <= i < |after.commands|
      ensures ReplyOrMiss(after.commands[i], after.replies[i], after.spec.replies[i], gone + lost)
    {
      ReplyOrMissGrows(after.commands[i], after.replies[i], after.spec.replies[i], gone, lost);
    }
  }

  lemma ObservedAlike(args: Args, response: Bytes, expected: Bytes)
    requires IsErrorReply(response) == IsErrorReply(expected)
    ensures Observed(args, response) == Observed(args, expected)
  {}

  // ---------- The server object ----------

  class Connection {
    const engine: MemoryEngine
    const clock: nat -> nat
    /** The text INFO prints. */
    const info: Bytes
    const observing: bool
    var ticks: nat
    var log: seq<Event>

    constructor (engine: MemoryEngine, clock: nat -> nat, info: Bytes, observing: bool)
      ensures this.engine == engine && this.clock == clock && this.info == info && this.observing == observing
      ensures ticks == 0 && log == []
    {
      this.engine, this.clock, this.info, this.observing := engine, clock, info, observing;
      ticks, log := 0, [];
    }

    /** Reads the clock. */
    method Now() returns (now: nat)
      modifies `ticks
      ensures now == clock(old(ticks)) && ticks == old(ticks) + 1
    {
      now := clock(ticks);
      ticks := ticks + 1;
    }

    /** The engine and the clock follow `spec`; with a byte limit, the evicted keys are missing afterwards. */
    twostate predicate Follows(spec: Handled, new response: Bytes)
      reads this, engine, engine.shards
    {
      && engine.Valid()
      && response == spec.response
      && ticks == spec.tick
      && old(engine.victims) <= engine.victims
      && engine.store == spec.store - KeysLost(engine.victims, |old(engine.victims)|)
      && (engine.maxBytes == USIZE_MAX ==> engine.store == spec.store)
    }

    method HandleGet(args: Args) returns (response: Bytes)
      requires engine.Valid()
      modifies engine, engine.shards, `ticks
      ensures Follows(GetReply(args, old(engine.store), clock, old(ticks)), response)
    {
      hide MemoryEngine.Valid, Ascii, KeysLost;
      NothingLost(engine.victims, engine.store);
      if |args| != 2 {
        return RespError(Ascii("wrong number of arguments for GET"));
      }
      var now := Now();
      var value := engine.Get(args[1], now);
      match value {
        case Some(v) => return RespBulk(v);
        case None => return RespNull();
      }
    }

    method HandleSet(args: Args) returns (response: Bytes)
      requires engine.Valid()
      modifies engine, engine.shards, `ticks
      ensures Follows(SetReply(args, old(engine.store), clock, old(ticks)), response)
    {
      hide MemoryEngine.Valid, MemoryEngine.Lists, Ascii, EqIgnoreCase, ParseUnsigned, Step, KeysLost, CacheStep;
      NothingLost(engine.victims, engine.store);
      if |args| < 3 {
        return RespError(Ascii("wrong number of arguments for SET"));
      }
      var key, value := args[1], args[2];
      if |args| == 3 {
        var now := Now();
        engine.Set(key, value, now);
        return RespSimple(Ascii("OK"));
      }
      if |args| == 5 && EqIgnoreCase(args[3], Ascii("EX")) {
        var seconds := ParseDigits(args[4], USIZE_MAX);
        if seconds.None? {
          return RespError(Ascii("invalid integer"));
        }
        var now := Now();
        engine.SetWithTtl(key, value, seconds.value * TICKS_PER_SECOND, now);
        return RespSimple(Ascii("OK"));
      }
      return RespError(Ascii("unsupported SET options"));
    }

    method HandleDel(args: Args) returns (response: Bytes)
      requires engine.Valid()
      modifies engine, engine.shards, `ticks
      ensures Follows(DelReply(args, old(engine.store), clock, old(ticks)), response)
    {
      hide MemoryEngine.Valid, Ascii, Step, DeleteAll, KeysLost;
      NothingLost(engine.victims, engine.store);
      if |args| < 2 {
        return RespError(Ascii("wrong number of arguments for DEL"));
      }
      var keys := args[1..];
      var removed: nat := 0;
      ghost var total := DeleteAll(keys, engine.store, clock, ticks);
      for i := 0 to |keys|
        invariant engine.Valid() && ticks == old(ticks) + i && engine.victims == old(engine.victims)
        invariant total.store == DeleteAll(keys[i..], engine.store, clock, ticks).store
        invariant total.count == removed + DeleteAll(keys[i..], engine.store, clock, ticks).count
      {
        DeleteNext(keys, i, engine.store, clock, ticks);
        var now := Now();
        var deleted := engine.Delete(keys[i], now);
        if deleted {
          removed := removed + 1;
        }
      }
      assert keys[|keys|..] == [];
      DeleteNone(engine.store, clock, ticks);
      return RespInteger(removed);
    }

    method HandleExpire(args: Args) returns (response: Bytes)
      requires engine.Valid()
      modifies engine, engine.shards, `ticks
      ensures Follows(ExpireReply(args, old(engine.store), clock, old(ticks)), response)
    {
      hide MemoryEngine.Valid, Ascii, ParseUnsigned, KeysLost;
      NothingLost(engine.victims, engine.store);
      if |args| != 3 {
        return RespError(Ascii("wrong number of arguments for EXPIRE"));
      }
      var seconds := ParseDigits(args[2], USIZE_MAX);
      if seconds.None? {
        return RespError(Ascii("invalid integer"));
      }
      var now := Now();
      var applied := engine.Expire(args[1], seconds.value * TICKS_PER_SECOND, now);
      return RespInteger(if applied then 1 else 0);
    }

    method HandleTtl(args: Args) returns (response: Bytes)
      requires engine.Valid()
      modifies engine, engine.shards, `ticks
      ensures Follows(TtlCommandReply(args, old(engine.store), clock, old(ticks)), response)
    {
      hide MemoryEngine.Valid, Ascii, KeysLost;
      NothingLost(engine.victims, engine.store);
      if |args| != 2 {
        return RespError(Ascii("wrong number of arguments for TTL"));
      }
      var now := Now();
      var status := engine.Ttl(args[1], now);
      return TtlReply(status);
    }

    /** `observe_command_result`: logs the planned events unless the reply is an error. */
    method Observe(args: Args, response: Bytes)
      modifies `log
      ensures log == old(log) + if observing then Observed(args, response) else []
    {
      if !IsErrorReply(response) && observing {
        log := log + Planned(args);
      }
    }

    /** `dispatch_command` */
    method DispatchCommand(args: Args) returns (response: Bytes)
      requires engine.Valid()
      modifies engine, engine.shards, this
      ensures Follows(Dispatch(args, info, old(engine.store), clock, old(ticks)), response)
      ensures log == old(log) + if observing then Observed(args, response) else []
    {
      hide MemoryEngine.Valid, Ascii, VerbOf, GetReply, SetReply, DelReply, ExpireReply, TtlCommandReply, KeysLost;
      NothingLost(engine.victims, engine.store);
      if |args| == 0 {
        return RespError(Ascii("empty command"));
      }
      match VerbOf(args[0]) {
        case PingVerb =>
          match |args| {
            case 1 => return RespSimple(Ascii("PONG"));
            case 2 => return RespBulk(args[1]);
            case _ => return RespError(Ascii("wrong number of arguments for PING"));
          }
        case GetVerb => response := HandleGet(args);
        case SetVerb => response := HandleSet(args);
        case DelVerb => response := HandleDel(args);
        case ExpireVerb => response := HandleExpire(args);
        case TtlVerb => response := HandleTtl(args);
        case InfoVerb => return RespBulk(info);
        case UnknownVerb => return RespError(Ascii("unknown command"));
      }
      Observe(args, response);
    }

    /**
      How a connection stands after serving a session. The clock and the log
      are where the reference session is. An engine that never evicts has the
      reference map and gave the reference replies. Any engine shows the
      reference map but for keys evicted since, and gave for every command the
      reference reply or that of a missing key.
     */
    ghost predicate StandsAt(session: Session)
      reads this, engine
    {
      && session.evicted <= |engine.victims|
      && ticks == session.spec.tick
      && log == session.earlier + (if observing then session.spec.log else [])
      && |session.replies| == |session.spec.replies| == |session.commands|
      && (engine.maxBytes == USIZE_MAX ==> engine.store == session.spec.store && session.replies == session.spec.replies)
      && (Monotone(clock) ==> Within(session, engine.store, clock(ticks), KeysLost(engine.victims, session.evicted)))
    }

    /** Dispatches one parsed command and appends its reply to the output. */
    method AnswerCommand(args: Args, output: Bytes, ghost session: Session) returns (out: Bytes, ghost after: Session)
      requires engine.Valid() && StandsAt(session) && output == Flatten(session.replies)
      modifies engine, engine.shards, this
      ensures engine.Valid() && StandsAt(after) && out == Flatten(after.replies)
      ensures after == Answered(session, args, info, clock, after.replies)
    {
      hide MemoryEngine.Valid, Dispatch, Observed, Within, KeysLost, Monotone;
      ghost var m, log0 := engine.store, engine.victims;
      var response := DispatchCommand(args);
      out := output + response;
      FlattenAppend(session.replies, response);
      after := Answered(session, args, info, clock, session.replies + [response]);
      DispatchAlike(args, info, m, session.spec.store, clock, session.spec.tick);
      ObservedAlike(args, response, Dispatch(args, info, session.spec.store, clock, session.spec.tick).response);
      KeysLostSplit(log0, engine.victims, session.evicted);
      if Monotone(clock) {
        WithinStep(session, m, args, info, clock, KeysLost(log0, session.evicted), KeysLost(engine.victims, |log0|));
      }
    }

    /** Serves every command the buffer holds; `open` is false once the connection must close. */
    method DrainBuffer(parser: RespParser, buffer: Bytes, output: Bytes, ghost session: Session)
      returns (open: bool, rest: Bytes, out: Bytes, ghost after: Session)
      requires engine.Valid() && parser.Valid() && StandsAt(session) && output == Flatten(session.replies)
      modifies engine, engine.shards, this, parser
      ensures engine.Valid() && parser.Valid() && StandsAt(after)
      ensures var d := Drain(old(parser.Fields()), buffer);
        && after == Resumed(session, d.commands, info, clock, after.replies)
        && open == d.ending.Waiting?
        && (open ==> d.ending == Waiting(parser.Fields(), rest))
        && out == Flatten(after.replies) + Farewell(d.ending)
    {
      hide MemoryEngine.Valid, Parse, Next, ServeFrom, Ascii, StandsAt;
      rest, out, after := buffer, output, session;
      ghost var d := Drain(parser.Fields(), buffer);
      ghost var done: seq<Args> := [];
      assert done + d.commands == d.commands;
      ServeOne(session.spec, [], [], info, clock);
      assert session.commands + done == session.commands;
      while true
        invariant engine.Valid() && parser.Valid() && StandsAt(after) && out == Flatten(after.replies)
        invariant after == Resumed(session, done, info, clock, after.replies)
        invariant done + Drain(parser.Fields(), rest).commands == d.commands
        invariant d.ending == Drain(parser.Fields(), rest).ending
        decreases |rest|
      {
        var parsed := parser.ParseCommand(rest);
        match parsed {
          case Complete(args, _, left) =>
            ghost var before := after;
            out, after := AnswerCommand(args, out, before);
            AnsweredResumes(session, done, args, info, clock, before.replies, after.replies);
            ghost var later := Drain(parser.Fields(), left).commands;
            assert done + ([args] + later) == (done + [args]) + later;
            done := done + [args];
            rest := left;
          case Incomplete(_, left) =>
            assert done + [] == done && out + Farewell(d.ending) == out;
            return true, left, out, after;
          case ProtocolError =>
            assert done + [] == done;
            out := out + RespError(Ascii("protocol error"));
            return false, rest, out, after;
          case Panic =>
            assert done + [] == done && out + Farewell(d.ending) == out;
            return false, rest, out, after;
        }
      }
    }

    /**
      The read, parse, dispatch, write loop of one connection. The bytes
      written are one reply to each of exactly the commands the byte stream
      holds, in order, and nothing depends on how the stream was cut into
      reads. An empty read is the end of the stream, so all the reads before it
      are non-empty.
     */
    method HandleConnection(chunks: seq<Bytes>) returns (output: Bytes, ghost replies: seq<Bytes>)
      requires engine.Valid() && forall i :: 0 <= i < |chunks| ==> chunks[i] != []
      modifies engine, engine.shards, this
      ensures engine.Valid()
      ensures var d := Drain(NEW_PARSER, Flatten(chunks));
        var spec := Serve(d.commands, info, old(engine.store), clock, old(ticks));
        && output == Flatten(replies) + Farewell(d.ending)
        && StandsAt(Session(d.commands, replies, spec, |old(engine.victims)|, old(log)))
    {
      hide MemoryEngine.Valid, Drain, ServeFrom, Ascii, StandsAt, Within;
      var parser := new RespParser();
      var buffer: Bytes := [];
      output := [];
      ghost var start := Session([], [], Served([], engine.store, ticks, []), |engine.victims|, log);
      ghost var session, all := start, Feed(NEW_PARSER, [], chunks);
      ghost var done: seq<Args> := [];
      StandsAtStart(start);
      ChunkIndependence(chunks, chunks);
      ServeOne(start.spec, [], [], info, clock);
      assert done + all.commands == all.commands && chunks[0..] == chunks;
      for i := 0 to |chunks|
        invariant engine.Valid() && parser.Valid() && fresh(parser) && StandsAt(session) && output == Flatten(session.replies)
        invariant session == Resumed(start, done, info, clock, session.replies)
        invariant done + Feed(parser.Fields(), buffer, chunks[i..]).commands == all.commands
        invariant all.ending == Feed(parser.Fields(), buffer, chunks[i..]).ending
      {
        assert chunks[i..][0] == chunks[i] && chunks[i..][1..] == chunks[i + 1..];
        ghost var d := Drain(parser.Fields(), buffer + chunks[i]);
        var open, rest, out;
        ghost var before := session;
        open, rest, out, session := DrainBuffer(parser, buffer + chunks[i], output, before);
        ResumedTwice(start, done, d.commands, info, clock, before.replies, session.replies);
        buffer, output := rest, out;
        if !open {
          replies := session.replies;
          assert [] + all.commands == all.commands;
          return;
        }
        ghost var later := Feed(parser.Fields(), buffer, chunks[i + 1..]).commands;
        assert done + (d.commands + later) == (done + d.commands) + later;
        assert output + [] == output;
        done := done + d.commands;
      }
      assert chunks[|chunks|..] == [] && done + [] == done && [] + done == done;
      assert output + [] == output;
      replies := session.replies;
    }

    lemma StandsAtStart(start: Session)
      requires start == Session([], [], Served([], engine.store, ticks, []), |engine.victims|, log)
      ensures StandsAt(start)
    {
      assert log + [] == log;
    }
  }
}
