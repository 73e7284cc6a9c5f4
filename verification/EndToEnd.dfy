/**
  The whole data path: requests are encoded by the client, cut into arbitrary
  reads, parsed and dispatched by the server, answered by the engine, printed,
  and read back by the client. The reference is a plain map with deadlines.
 */
module EndToEnd {
  import opened Prelude
  import opened Decimal
  import opened Store
  import opened EngineState
  import opened Engine
  import opened Protocol
  import opened Replies
  import opened ClientResp
  import opened RoundTrip
  import opened Server

  datatype Request =
    | GetKey(key: Key)
    | SetKey(key: Key, value: Value)
    | SetKeyEx(key: Key, value: Value, seconds: nat)
    | DelKeys(keys: seq<Key>)
    | ExpireKey(key: Key, seconds: nat)
    | TtlKey(key: Key)

  /** The arguments a client puts on the wire. */
  function ArgsOf(r: Request): Args {
    match r
    case GetKey(key) => [Ascii("GET"), key]
    case SetKey(key, value) => [Ascii("SET"), key, value]
    case SetKeyEx(key, value, seconds) => [Ascii("SET"), key, value, Ascii("EX"), Digits(seconds)]
    case DelKeys(keys) => [Ascii("DEL")] + keys
    case ExpireKey(key, seconds) => [Ascii("EXPIRE"), key, Digits(seconds)]
    case TtlKey(key) => [Ascii("TTL"), key]
  }

  /** The last instant the clock type can represent. */
  const INSTANT_MAX: nat := I64_MAX * TICKS_PER_SECOND + (TICKS_PER_SECOND - 1)

  /** Slices fit the machine, seconds fit a u64, and `now + ttl` is representable up to `horizon`. */
  ghost predicate Sendable(r: Request, horizon: nat) {
    match r
    case GetKey(key) => |key| <= ISIZE_MAX
    case SetKey(key, value) => |key| <= ISIZE_MAX && |value| <= ISIZE_MAX
    case SetKeyEx(key, value, seconds) =>
      |key| <= ISIZE_MAX && |value| <= ISIZE_MAX && InRange(seconds, horizon)
    case DelKeys(keys) => 0 < |keys| < ISIZE_MAX && forall i :: 0 <= i < |keys| ==> |keys[i]| <= ISIZE_MAX
    case ExpireKey(key, seconds) => |key| <= ISIZE_MAX && InRange(seconds, horizon)
    case TtlKey(key) => |key| <= ISIZE_MAX
  }

  predicate InRange(seconds: nat, horizon: nat) {
    seconds <= USIZE_MAX && horizon + seconds * TICKS_PER_SECOND <= INSTANT_MAX
  }

  /** A clock that never runs backwards and stays within `horizon`. */
  ghost predicate SteadyClock(clock: nat -> nat, horizon: nat) {
    && (forall i: nat, j: nat :: i <= j ==> clock(i) <= clock(j))
    && (forall i: nat :: clock(i) <= horizon)
  }

  // ---------- The reference ----------

  datatype Reference = Reference(reply: RespValue, store: Store, tick: nat)

  function PlainDelete(keys: seq<Key>, m: Store, clock: nat -> nat, tick: nat): (d: Deletion)
    ensures d.count <= |keys|
  {
    if keys == [] then Deletion(0, m)
    else
      var others := PlainDelete(keys[1..], m - {keys[0]}, clock, tick + 1);
      Deletion((if Visible(m, keys[0], clock(tick)).Some? then 1 else 0) + others.count, others.store)
  }

  /** One request on the plain map with deadlines. */
  function Refer(r: Request, m: Store, clock: nat -> nat, tick: nat): Reference {
    var now := clock(tick);
    match r
    case GetKey(key) =>
      var e := Visible(m, key, now);
      Reference(Bulk(if e.Some? then Some(e.value.value) else None), m, tick + 1)
    case SetKey(key, value) => Reference(Simple(Ascii("OK")), m[key := Entry(value, None)], tick + 1)
    case SetKeyEx(key, value, seconds) =>
      Reference(Simple(Ascii("OK")), m[key := Entry(value, Some(now + seconds * TICKS_PER_SECOND))], tick + 1)
    case DelKeys(keys) =>
      var d := PlainDelete(keys, m, clock, tick);
      Reference(Integer(d.count), d.store, tick + |keys|)
    case ExpireKey(key, seconds) =>
      var e := Visible(m, key, now);
      if e.Some? then Reference(Integer(1), m[key := Entry(e.value.value, Some(now + seconds * TICKS_PER_SECOND))], tick + 1)
      else Reference(Integer(0), m, tick + 1)
    case TtlKey(key) =>
      var e := Visible(m, key, now);
      var number := if e.None? then -2
                    else if e.value.deadline.None? then -1
                    else (e.value.deadline.value - now) / TICKS_PER_SECOND;
      Reference(Integer(number), m, tick + 1)
  }

  function Expected(requests: seq<Request>, m: Store, clock: nat -> nat, tick: nat): (replies: seq<RespValue>)
    ensures |replies| == |requests|
    decreases |requests|
  {
    if requests == [] then []
    else
      var first := Refer(requests[0], m, clock, tick);
      [first.reply] + Expected(requests[1..], first.store, clock, first.tick)
  }

  // ---------- Printing and reading back ----------

  /** The printed form of the replies these requests get. */
  function Print(v: RespValue): Bytes {
    match v
    case Simple(text) => RespSimple(text)
    case Integer(number) => RespInteger(number)
    case Bulk(Some(data)) => RespBulk(data)
    case _ => RespNull()
  }

  ghost predicate Printable(v: RespValue) {
    match v
    case Simple(text) => LF !in text
    case Integer(number) => I64_MIN < number <= I64_MAX
    case Bulk(Some(data)) => |data| <= ISIZE_MAX
    case Bulk(None) => true
    case _ => false
  }

  lemma PrintedIsRead(v: RespValue, more: Bytes)
    requires Printable(v)
    ensures ReadValue(Print(v) + more) == Ok(v, more)
  {
    hide ReadValue;
    match v {
      case Simple(text) => SimpleRoundTrip(text, more);
      case Integer(number) => IntegerRoundTrip(number, more);
      case Bulk(Some(data)) => BulkRoundTrip(data, more);
      case Bulk(None) => NullRoundTrip(more);
      case _ =>
    }
  }

  /** Values and deadlines within machine range, so that every reply is printable. */
  ghost predicate Fits(m: Store) {
    forall k :: k in m ==> FitsEntry(m[k])
  }

  ghost predicate FitsEntry(e: Entry) {
    |e.value| <= ISIZE_MAX && (e.deadline.Some? ==> e.deadline.value <= INSTANT_MAX)
  }

  lemma {:induction false} PlainDeleteFits(keys: seq<Key>, m: Store, clock: nat -> nat, tick: nat)
    requires Fits(m)
    ensures Fits(PlainDelete(keys, m, clock, tick).store)
    decreases |keys|
  {
    if keys != [] {
      PlainDeleteFits(keys[1..], m - {keys[0]}, clock, tick + 1);
    }
  }

  lemma OkHasNoLf()
    ensures LF !in Ascii("OK")
  {
    assert Ascii("OK")[0] == 79 && Ascii("OK")[1] == 75;
  }

  lemma ReferFits(r: Request, m: Store, clock: nat -> nat, tick: nat, horizon: nat)
    requires Fits(m) && Sendable(r, horizon) && SteadyClock(clock, horizon)
    ensures Fits(Refer(r, m, clock, tick).store) && Printable(Refer(r, m, clock, tick).reply)
  {
    OkHasNoLf();
    match r {
      case DelKeys(keys) => PlainDeleteFits(keys, m, clock, tick);
      case TtlKey(key) =>
        if key in m && m[key].deadline.Some? && !m[key].Expired(clock(tick)) {
          SecondsFit(m[key].deadline.value - clock(tick));
        }
      case _ =>
    }
  }

  lemma SecondsFit(remaining: nat)
    requires remaining <= INSTANT_MAX
    ensures remaining / TICKS_PER_SECOND <= I64_MAX && AsI64(remaining / TICKS_PER_SECOND) == remaining / TICKS_PER_SECOND
  {}

  // ---------- The server agrees with the reference ----------

  lemma Differ(a: Bytes, b: Bytes, i: nat)
    requires |a| == |b| ==> i < |a| && Lower(a[i]) != Lower(b[i])
    ensures !EqIgnoreCase(a, b)
  {}

  lemma VerbNames()
    ensures VerbOf(Ascii("GET")) == GetVerb && VerbOf(Ascii("SET")) == SetVerb
    ensures VerbOf(Ascii("DEL")) == DelVerb && VerbOf(Ascii("EXPIRE")) == ExpireVerb
    ensures VerbOf(Ascii("TTL")) == TtlVerb && EqIgnoreCase(Ascii("EX"), Ascii("EX"))
  {
    var get, set_, del := Ascii("GET"), Ascii("SET"), Ascii("DEL");
    var expire, ttl, ping := Ascii("EXPIRE"), Ascii("TTL"), Ascii("PING");
    assert get[0] == 71 && set_[0] == 83 && del[0] == 68 && ttl[0] == 84;
    Differ(get, ping, 0);
    Differ(set_, ping, 0);
    Differ(set_, get, 0);
    Differ(del, ping, 0);
    Differ(del, get, 0);
    Differ(del, set_, 0);
    Differ(expire, ping, 0);
    Differ(expire, get, 0);
    Differ(expire, set_, 0);
    Differ(expire, del, 0);
    Differ(ttl, ping, 0);
    Differ(ttl, get, 0);
    Differ(ttl, set_, 0);
    Differ(ttl, del, 0);
    Differ(ttl, expire, 0);
  }

  lemma StepStaysSame(m: Store, p: Store, op: Op, clock: nat -> nat, tick: nat, horizon: nat)
    requires SteadyClock(clock, horizon) && SameVisible(m, p, clock(tick)) && !op.Purge?
    ensures SameVisible(Step(m, op, clock(tick)), Effect(p, op, clock(tick)), clock(tick + 1))
  {
    hide Step, Effect, SameVisible;
    StepKeepsVisible(m, p, op, clock(tick));
    assert clock(tick) <= clock(tick + 1);
    StaySame(Step(m, op, clock(tick)), Effect(p, op, clock(tick)), clock(tick), clock(tick + 1));
  }

  lemma DeleteAgrees(key: Key, m: Store, p: Store, clock: nat -> nat, tick: nat, horizon: nat)
    requires SteadyClock(clock, horizon) && SameVisible(m, p, clock(tick))
    ensures Answer(m, Delete(key), clock(tick)).removed == Visible(p, key, clock(tick)).Some?
    ensures SameVisible(Step(m, Delete(key), clock(tick)), p - {key}, clock(tick + 1))
  {
    hide Step, SameVisible, SteadyClock, Visible;
    AnswerSame(m, p, Delete(key), clock(tick));
    StepStaysSame(m, p, Delete(key), clock, tick, horizon);
  }

  lemma {:induction false} DeletesAgree(keys: seq<Key>, m: Store, p: Store, clock: nat -> nat, tick: nat, horizon: nat)
    requires SteadyClock(clock, horizon) && SameVisible(m, p, clock(tick))
    ensures DeleteAll(keys, m, clock, tick).count == PlainDelete(keys, p, clock, tick).count
    ensures SameVisible(DeleteAll(keys, m, clock, tick).store, PlainDelete(keys, p, clock, tick).store, clock(tick + |keys|))
    decreases |keys|
  {
    hide Step, SameVisible, SteadyClock, Answer, Visible;
    if keys != [] {
      DeleteAgrees(keys[0], m, p, clock, tick, horizon);
      DeletesAgree(keys[1..], Step(m, Delete(keys[0]), clock(tick)), p - {keys[0]}, clock, tick + 1, horizon);
      assert tick + 1 + |keys[1..]| == tick + |keys|;
    }
  }

  /** The reply and the map a request leads to, given its arguments reach the right handler. */
  function Handle(r: Request, m: Store, clock: nat -> nat, tick: nat): Handled {
    match r
    case GetKey(_) => GetReply(ArgsOf(r), m, clock, tick)
    case SetKey(_, _) => SetReply(ArgsOf(r), m, clock, tick)
    case SetKeyEx(_, _, _) => SetReply(ArgsOf(r), m, clock, tick)
    case DelKeys(_) => DelReply(ArgsOf(r), m, clock, tick)
    case ExpireKey(_, _) => ExpireReply(ArgsOf(r), m, clock, tick)
    case TtlKey(_) => TtlCommandReply(ArgsOf(r), m, clock, tick)
  }

  lemma Routed(r: Request, info: Bytes, m: Store, clock: nat -> nat, tick: nat)
    ensures Dispatch(ArgsOf(r), info, m, clock, tick) == Handle(r, m, clock, tick)
  {
    hide VerbOf, Ascii, GetReply, SetReply, DelReply, ExpireReply, TtlCommandReply, Digits;
    VerbNames();
  }

  /** A handled request gets the reference reply and leaves a map that shows the same. */
  ghost predicate AgreesWith(h: Handled, ref: Reference, clock: nat -> nat) {
    h.response == Print(ref.reply) && h.tick == ref.tick && SameVisible(h.store, ref.store, clock(h.tick))
  }

  lemma GetAgrees(key: Key, m: Store, p: Store, clock: nat -> nat, tick: nat, horizon: nat)
    requires SteadyClock(clock, horizon) && SameVisible(m, p, clock(tick))
    ensures AgreesWith(Handle(GetKey(key), m, clock, tick), Refer(GetKey(key), p, clock, tick), clock)
  {
    hide Ascii, Step, SameVisible, SteadyClock, Visible, RespBulk, RespNull;
    AnswerSame(m, p, Get(key), clock(tick));
    StepStaysSame(m, p, Get(key), clock, tick, horizon);
  }

  lemma SetAgrees(key: Key, value: Value, m: Store, p: Store, clock: nat -> nat, tick: nat, horizon: nat)
    requires SteadyClock(clock, horizon) && SameVisible(m, p, clock(tick))
    ensures AgreesWith(Handle(SetKey(key, value), m, clock, tick), Refer(SetKey(key, value), p, clock, tick), clock)
  {
    hide Ascii, Step, SameVisible, SteadyClock, RespSimple;
    StepStaysSame(m, p, Set(key, value), clock, tick, horizon);
  }

  lemma SetExAgrees(key: Key, value: Value, seconds: nat, m: Store, p: Store, clock: nat -> nat, tick: nat, horizon: nat)
    requires SteadyClock(clock, horizon) && SameVisible(m, p, clock(tick)) && seconds <= USIZE_MAX
    ensures var r := SetKeyEx(key, value, seconds);
      AgreesWith(Handle(r, m, clock, tick), Refer(r, p, clock, tick), clock)
  {
    hide Ascii, Step, SameVisible, SteadyClock, RespSimple, Digits, ParseUnsigned, EqIgnoreCase;
    VerbNames();
    UnsignedRoundTrip(seconds);
    StepStaysSame(m, p, SetWithTtl(key, value, seconds * TICKS_PER_SECOND), clock, tick, horizon);
  }

  lemma DelAgrees(keys: seq<Key>, m: Store, p: Store, clock: nat -> nat, tick: nat, horizon: nat)
    requires SteadyClock(clock, horizon) && SameVisible(m, p, clock(tick)) && keys != []
    ensures AgreesWith(Handle(DelKeys(keys), m, clock, tick), Refer(DelKeys(keys), p, clock, tick), clock)
  {
    hide Ascii, Step, SameVisible, SteadyClock, RespInteger, DeleteAll, PlainDelete;
    assert ArgsOf(DelKeys(keys))[1..] == keys;
    DeletesAgree(keys, m, p, clock, tick, horizon);
  }

  lemma ExpireAgrees(key: Key, seconds: nat, m: Store, p: Store, clock: nat -> nat, tick: nat, horizon: nat)
    requires SteadyClock(clock, horizon) && SameVisible(m, p, clock(tick)) && seconds <= USIZE_MAX
    ensures var r := ExpireKey(key, seconds);
      AgreesWith(Handle(r, m, clock, tick), Refer(r, p, clock, tick), clock)
  {
    hide Ascii, Step, SameVisible, SteadyClock, Visible, RespInteger, Digits, ParseUnsigned;
    UnsignedRoundTrip(seconds);
    AnswerSame(m, p, Expire(key, seconds * TICKS_PER_SECOND), clock(tick));
    StepStaysSame(m, p, Expire(key, seconds * TICKS_PER_SECOND), clock, tick, horizon);
    ExpireEffect(key, seconds, p, clock, tick);
  }

  lemma TtlKeyAgrees(key: Key, m: Store, p: Store, clock: nat -> nat, tick: nat, horizon: nat)
    requires SteadyClock(clock, horizon) && SameVisible(m, p, clock(tick)) && Fits(p)
    ensures AgreesWith(Handle(TtlKey(key), m, clock, tick), Refer(TtlKey(key), p, clock, tick), clock)
  {
    hide Ascii, Step, SameVisible, SteadyClock, Visible, RespInteger, TtlReply;
    AnswerSame(m, p, Ttl(key), clock(tick));
    StepStaysSame(m, p, Ttl(key), clock, tick, horizon);
    TtlAgrees(key, p, clock(tick));
  }

  /** One request, dispatched on a map that shows what the reference map shows. */
  lemma RequestAgrees(r: Request, info: Bytes, m: Store, p: Store, clock: nat -> nat, tick: nat, horizon: nat)
    requires SteadyClock(clock, horizon) && SameVisible(m, p, clock(tick)) && Sendable(r, horizon) && Fits(p)
    ensures AgreesWith(Dispatch(ArgsOf(r), info, m, clock, tick), Refer(r, p, clock, tick), clock)
  {
    hide Dispatch, Handle, Refer, ArgsOf, AgreesWith, SameVisible, SteadyClock, Fits;
    Routed(r, info, m, clock, tick);
    match r {
      case GetKey(key) => GetAgrees(key, m, p, clock, tick, horizon);
      case SetKey(key, value) => SetAgrees(key, value, m, p, clock, tick, horizon);
      case SetKeyEx(key, value, seconds) => SetExAgrees(key, value, seconds, m, p, clock, tick, horizon);
      case DelKeys(keys) => DelAgrees(keys, m, p, clock, tick, horizon);
      case ExpireKey(key, seconds) => ExpireAgrees(key, seconds, m, p, clock, tick, horizon);
      case TtlKey(key) => TtlKeyAgrees(key, m, p, clock, tick, horizon);
    }
  }

  lemma ExpireEffect(key: Key, seconds: nat, p: Store, clock: nat -> nat, tick: nat)
    ensures Refer(ExpireKey(key, seconds), p, clock, tick).store
         == Effect(p, Expire(key, seconds * TICKS_PER_SECOND), clock(tick))
  {}

  lemma TtlAgrees(key: Key, p: Store, now: nat)
    requires Fits(p)
    ensures TtlReply(Answer(p, Ttl(key), now).status) ==
      RespInteger(if Visible(p, key, now).None? then -2
                  else if Visible(p, key, now).value.deadline.None? then -1
                  else (Visible(p, key, now).value.deadline.value - now) / TICKS_PER_SECOND)
  {
    hide RespInteger, AsI64;
    if key in p && p[key].deadline.Some? && !p[key].Expired(now) {
      SecondsFit(p[key].deadline.value - now);
    }
  }

  // ---------- Whole sessions ----------

  function ArgsOfAll(requests: seq<Request>): (commands: seq<Args>)
    ensures |commands| == |requests|
    ensures forall i :: 0 <= i < |requests| ==> commands[i] == ArgsOf(requests[i])
  {
    seq(|requests|, i requires 0 <= i < |requests| => ArgsOf(requests[i]))
  }

  lemma SendableIsAddressable(r: Request, horizon: nat)
    requires Sendable(r, horizon)
    ensures Addressable(ArgsOf(r))
  {
    match r {
      case SetKeyEx(_, _, seconds) => DigitsFit20(seconds);
      case ExpireKey(_, seconds) => DigitsFit20(seconds);
      case DelKeys(keys) =>
        forall i | 0 <= i < |ArgsOf(r)|
          ensures |ArgsOf(r)[i]| <= ISIZE_MAX
        {
          assert i > 0 ==> ArgsOf(r)[i] == keys[i - 1];
        }
      case _ =>
    }
  }

  function PrintEach(replies: seq<RespValue>): seq<Bytes> {
    if replies == [] then [] else [Print(replies[0])] + PrintEach(replies[1..])
  }

  /** The replies as one run of bytes. */
  function PrintAll(replies: seq<RespValue>): Bytes {
    Flatten(PrintEach(replies))
  }

  lemma PrintFirst(replies: seq<RespValue>)
    ensures PrintAll([]) == []
    ensures replies != [] ==> PrintAll(replies) == Print(replies[0]) + PrintAll(replies[1..])
  {
    hide Print;
    if replies != [] {
      assert PrintEach(replies)[1..] == PrintEach(replies[1..]);
    }
  }

  lemma {:induction false} SessionAgrees(requests: seq<Request>, info: Bytes, before: Served, p: Store, clock: nat -> nat, horizon: nat)
    requires SteadyClock(clock, horizon) && SameVisible(before.store, p, clock(before.tick)) && Fits(p)
    requires forall i :: 0 <= i < |requests| ==> Sendable(requests[i], horizon)
    ensures ServeFrom(before, ArgsOfAll(requests), info, clock).replies
         == before.replies + PrintEach(Expected(requests, p, clock, before.tick))
    ensures forall i :: 0 <= i < |requests| ==> Printable(Expected(requests, p, clock, before.tick)[i])
    decreases |requests|
  {
    hide Dispatch, Refer, SameVisible, SteadyClock, Fits, Sendable, Print, Printable, ArgsOf, Observed;
    var replies := Expected(requests, p, clock, before.tick);
    if requests == [] {
      assert before.replies + [] == before.replies;
    } else {
      var r, others := requests[0], requests[1..];
      RequestAgrees(r, info, before.store, p, clock, before.tick, horizon);
      ReferFits(r, p, clock, before.tick, horizon);
      var first := Refer(r, p, clock, before.tick);
      var after := Next(before, ArgsOf(r), info, clock);
      assert ArgsOfAll(requests)[1..] == ArgsOfAll(others);
      SessionAgrees(others, info, after, first.store, clock, horizon);
      assert replies[1..] == Expected(others, first.store, clock, first.tick);
      assert (before.replies + [Print(first.reply)]) + PrintEach(replies[1..]) == before.replies + PrintEach(replies);
      forall i | 0 <= i < |requests|
        ensures Printable(replies[i])
      {
        assert i > 0 ==> replies[i] == replies[1..][i - 1];
      }
    }
  }

  /** The client side of a pipeline: the requests as one run of bytes. */
  method Send(requests: seq<Request>, ghost horizon: nat) returns (wire: Bytes)
    requires forall i :: 0 <= i < |requests| ==> Sendable(requests[i], horizon)
    ensures wire == EncodePipeline(ArgsOfAll(requests))
  {
    hide EncodeCommand, ArgsOf, Sendable;
    wire := [];
    for i := 0 to |requests|
      invariant wire + EncodePipeline(ArgsOfAll(requests)[i..]) == EncodePipeline(ArgsOfAll(requests))
    {
      SendableIsAddressable(requests[i], horizon);
      ghost var todo := ArgsOfAll(requests)[i..];
      assert todo[0] == ArgsOf(requests[i]) && todo[1..] == ArgsOfAll(requests)[i + 1..];
      assert (wire + EncodeCommand(todo[0])) + EncodePipeline(todo[1..]) == wire + EncodePipeline(todo);
      wire := AppendCommand(ArgsOf(requests[i]), wire);
    }
    assert ArgsOfAll(requests)[|requests|..] == [];
    assert wire + [] == wire;
  }

  /** The client side of the replies: one read per request. */
  method Receive(wire: Bytes, count: nat, ghost replies: seq<RespValue>) returns (read: seq<RespValue>)
    requires wire == PrintAll(replies) && |replies| == count
    requires forall i :: 0 <= i < count ==> Printable(replies[i])
    ensures read == replies
  {
    hide Print, Printable, ReadValue, PrintAll;
    PrintFirst([]);
    assert replies[0..] == replies && replies[count..] == [];
    var reader := new ReplyReader(wire);
    read := [];
    for i := 0 to count
      invariant read == replies[..i] && reader.input == PrintAll(replies[i..])
    {
      PrintFirst(replies[i..]);
      PrintedIsRead(replies[i], PrintAll(replies[i + 1..]));
      assert replies[i..][0] == replies[i] && replies[i..][1..] == replies[i + 1..];
      var r := reader.ReadResponse();
      read := read + [r.value];
    }
  }

  /** A network: it delivers the bytes in order, cut into non-empty reads in whatever way. */
  ghost predicate Delivers(network: Bytes -> seq<Bytes>) {
    forall wire :: Flatten(network(wire)) == wire && forall i :: 0 <= i < |network(wire)| ==> network(wire)[i] != []
  }

  /**
    End to end: requests encoded by the client, delivered in any chunks, served
    by an engine without a byte limit, printed and read back, get exactly the
    replies of a plain map with deadlines that runs them in order.
   */
  method Exchange(server: Connection, requests: seq<Request>, network: Bytes -> seq<Bytes>, ghost horizon: nat)
    returns (replies: seq<RespValue>)
    requires server.engine.Valid() && server.engine.maxBytes == USIZE_MAX && Fits(server.engine.store)
    requires SteadyClock(server.clock, horizon) && Delivers(network)
    requires forall i :: 0 <= i < |requests| ==> Sendable(requests[i], horizon)
    modifies server, server.engine, server.engine.shards
    ensures server.engine.Valid()
    ensures replies == Expected(requests, old(server.engine.store), server.clock, old(server.ticks))
  {
    hide MemoryEngine.Valid, Fits, SteadyClock, Sendable, SameVisible, Printable, Serve, Expected, Drain, EncodePipeline, Within;
    ghost var expected := Expected(requests, server.engine.store, server.clock, server.ticks);
    var wire := Send(requests, horizon);
    StreamAgrees(requests, wire, server.info, server.engine.store, server.clock, server.ticks, horizon);
    var output, _ := server.HandleConnection(network(wire));
    replies := Receive(output, |requests|, expected);
  }

  /** Everything written for a stream that encodes the requests is the printed expected replies. */
  lemma StreamAgrees(requests: seq<Request>, wire: Bytes, info: Bytes, m: Store, clock: nat -> nat, tick: nat, horizon: nat)
    requires SteadyClock(clock, horizon) && Fits(m)
    requires forall i :: 0 <= i < |requests| ==> Sendable(requests[i], horizon)
    requires wire == EncodePipeline(ArgsOfAll(requests))
    ensures var d := Drain(NEW_PARSER, wire);
      Flatten(Serve(d.commands, info, m, clock, tick).replies) + Farewell(d.ending)
        == PrintAll(Expected(requests, m, clock, tick))
    ensures forall i :: 0 <= i < |requests| ==> Printable(Expected(requests, m, clock, tick)[i])
  {
    hide Fits, SteadyClock, Sendable, SameVisible, Printable, ServeFrom, Expected, Drain, EncodePipeline, PrintEach;
    var commands := ArgsOfAll(requests);
    forall i | 0 <= i < |commands|
      ensures Addressable(commands[i])
    {
      SendableIsAddressable(requests[i], horizon);
    }
    assert Flatten([wire]) == wire by {
      assert [wire][1..] == [] && wire + [] == wire;
    }
    ChunkIndependence([wire], [wire]);
    ChunkedPipeline(commands, [wire]);
    SameVisibleItself(m, clock(tick));
    SessionAgrees(requests, info, Served([], m, tick, []), m, clock, horizon);
    var replies := PrintEach(Expected(requests, m, clock, tick));
    assert [] + replies == replies && Flatten(replies) + [] == Flatten(replies);
  }

  lemma SameVisibleItself(m: Store, now: nat)
    ensures SameVisible(m, m, now)
  {}
}
