/** How the client turns replies into results (`KVClient::get` and its siblings). */
module Client {
  import opened Prelude
  import opened Store
  import opened ClientResp
  import opened Engine
  import opened Server
  import opened EndToEnd

  datatype ClientResult<T> = Success(value: T) | ServerError(message: Bytes) | UnexpectedResponse

  /** Time to live as the wire shows it, in whole seconds. */
  datatype ClientTtl = KeyMissing | NeverExpires | ExpiresAfter(seconds: nat)

  function GetResult(v: RespValue): ClientResult<Option<Bytes>> {
    match v
    case Bulk(data) => Success(data)
    case Error(message) => ServerError(message)
    case _ => UnexpectedResponse
  }

  function SetResult(v: RespValue): ClientResult<()> {
    match v
    case Simple(_) => Success(())
    case Error(message) => ServerError(message)
    case _ => UnexpectedResponse
  }

  function DeleteResult(v: RespValue): ClientResult<bool> {
    match v
    case Integer(count) => Success(count > 0)
    case Error(message) => ServerError(message)
    case _ => UnexpectedResponse
  }

  function ExpireResult(v: RespValue): ClientResult<bool> {
    match v
    case Integer(value) => Success(value == 1)
    case Error(message) => ServerError(message)
    case _ => UnexpectedResponse
  }

  function TtlResult(v: RespValue): ClientResult<ClientTtl> {
    match v
    case Integer(n) =>
      if n == -2 then Success(KeyMissing)
      else if n == -1 then Success(NeverExpires)
      else if n >= 0 then Success(ExpiresAfter(n))
      else UnexpectedResponse
    case Error(message) => ServerError(message)
    case _ => UnexpectedResponse
  }

  function InSeconds(status: TtlStatus): ClientTtl {
    match status
    case Missing => KeyMissing
    case NoExpiry => NeverExpires
    case ExpiresIn(remaining) => ExpiresAfter(remaining / TICKS_PER_SECOND)
  }

  /** A server error reaches the caller of any call, word for word. */
  lemma ErrorsReachCaller(message: Bytes)
    ensures GetResult(Error(message)) == ServerError(message)
    ensures SetResult(Error(message)) == ServerError(message)
    ensures DeleteResult(Error(message)) == ExpireResult(Error(message)) == ServerError(message)
    ensures TtlResult(Error(message)) == ServerError(message)
  {}

  /** Any other reply is unexpected exactly if it is not of the kind the call asks for. */
  lemma UnexpectedIff(v: RespValue)
    requires !v.Error?
    ensures GetResult(v) == UnexpectedResponse <==> !v.Bulk?
    ensures SetResult(v) == UnexpectedResponse <==> !v.Simple?
    ensures DeleteResult(v) == UnexpectedResponse <==> !v.Integer?
    ensures ExpireResult(v) == UnexpectedResponse <==> !v.Integer?
    ensures TtlResult(v) == UnexpectedResponse <==> !(v.Integer? && v.number >= -2)
  {}

  /** What integers mean: a count of deletions, an applied deadline, seconds left or one of two marks. */
  lemma IntegersMean(n: int)
    ensures DeleteResult(Integer(n)) == Success(n > 0)
    ensures ExpireResult(Integer(n)) == Success(n == 1)
    ensures n >= 0 ==> TtlResult(Integer(n)) == Success(ExpiresAfter(n))
    ensures TtlResult(Integer(-1)) == Success(NeverExpires) && TtlResult(Integer(-2)) == Success(KeyMissing)
  {}

  // ---------- Calls ----------

  /** The calls the client offers; its delete names one key. */
  predicate Offered(r: Request) {
    r.DelKeys? ==> |r.keys| == 1
  }

  datatype CallResult =
    | Fetched(got: ClientResult<Option<Bytes>>)
    | Acknowledged(done: ClientResult<()>)
    | Told(yes: ClientResult<bool>)
    | TimeLeft(left: ClientResult<ClientTtl>)

  /** What the client makes of the reply to a call. */
  function Interpret(r: Request, v: RespValue): CallResult {
    match r
    case GetKey(_) => Fetched(GetResult(v))
    case SetKey(_, _) => Acknowledged(SetResult(v))
    case SetKeyEx(_, _, _) => Acknowledged(SetResult(v))
    case DelKeys(_) => Told(DeleteResult(v))
    case ExpireKey(_, _) => Told(ExpireResult(v))
    case TtlKey(_) => TimeLeft(TtlResult(v))
  }

  /** What the engine interface answers to a call, on the map `m`. */
  function EngineSays(r: Request, m: Store, now: nat): CallResult
    requires Offered(r)
  {
    match r
    case GetKey(key) => Fetched(Success(Answer(m, Get(key), now).value))
    case SetKey(_, _) => Acknowledged(Success(()))
    case SetKeyEx(_, _, _) => Acknowledged(Success(()))
    case DelKeys(keys) => Told(Success(Answer(m, Delete(keys[0]), now).removed))
    case ExpireKey(key, seconds) => Told(Success(Answer(m, Expire(key, seconds * TICKS_PER_SECOND), now).applied))
    case TtlKey(key) => TimeLeft(Success(InSeconds(Answer(m, Ttl(key), now).status)))
  }

  /**
    What a caller of the client makes of the reference reply is the answer of
    the engine interface; a time to live is rounded down to whole seconds.
   */
  lemma CallerSeesEngineAnswer(r: Request, m: Store, clock: nat -> nat, tick: nat)
    requires Offered(r)
    ensures Interpret(r, Refer(r, m, clock, tick).reply) == EngineSays(r, m, clock(tick))
  {
    match r {
      case DelKeys(keys) => assert keys[1..] == [];
      case TtlKey(key) =>
        var e := Visible(m, key, clock(tick));
        if e.Some? && e.value.deadline.Some? {
          assert (e.value.deadline.value - clock(tick)) / TICKS_PER_SECOND >= 0;
        }
      case _ =>
    }
  }

  /** One call of the client, through the wire, the server and the engine and back. */
  method Call(server: Connection, r: Request, network: Bytes -> seq<Bytes>, ghost horizon: nat) returns (result: CallResult)
    requires Offered(r) && Sendable(r, horizon)
    requires server.engine.Valid() && server.engine.maxBytes == USIZE_MAX && Fits(server.engine.store)
    requires SteadyClock(server.clock, horizon) && Delivers(network)
    modifies server, server.engine, server.engine.shards
    ensures server.engine.Valid()
    ensures result == EngineSays(r, old(server.engine.store), server.clock(old(server.ticks)))
  {
    hide MemoryEngine.Valid, Fits, SteadyClock, Delivers, Sendable, Refer, Interpret, EngineSays;
    ghost var m, tick := server.engine.store, server.ticks;
    var replies := Exchange(server, [r], network, horizon);
    assert replies == [Refer(r, m, server.clock, tick).reply] by {
      assert [r][1..] == [];
    }
    CallerSeesEngineAnswer(r, m, server.clock, tick);
    result := Interpret(r, replies[0]);
  }
}
