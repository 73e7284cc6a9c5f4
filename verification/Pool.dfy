/**
  The client's connection pool and retry loop. A connection is known by the
  number it got when it was opened; what the network answers is arbitrary.
 */
module Pool {
  import opened Prelude

  type Conn = nat

  datatype ClientError = Io(retryable: bool) | BadReply | PoolExhausted | InvalidAddress

  datatype Result<T, E> = Ok(value: T) | Err(error: E)

  datatype ExecError = Retryable(error: ClientError) | Fatal(error: ClientError)

  predicate IsRetryableConnectError(e: ClientError) {
    e.Io? && e.retryable
  }

  /** What one pass of the retry loop came to: no connection, or a round trip on one. */
  datatype Attempt = Denied(error: ClientError) | Ran(conn: Conn, result: Result<Bytes, ExecError>) {
    /** A failure the client may try again: a passing connect error, or a retryable round trip. */
    predicate WorthRetrying() {
      match this
      case Denied(e) => IsRetryableConnectError(e)
      case Ran(_, result) => result.Err? && result.error.Retryable?
    }

    /** What the caller of the client would be told. */
    function Outcome(): Result<Bytes, ClientError> {
      match this
      case Denied(e) => Err(e)
      case Ran(_, Ok(reply)) => Ok(reply)
      case Ran(_, Err(e)) => Err(e.error)
    }

    predicate Broke(c: Conn) {
      Ran? && conn == c && result.Err?
    }
  }

  // ---------- The lock sections of the pool ----------

  datatype Config = Config(maxIdle: nat, maxTotal: nat)

  datatype PoolState = PoolState(idle: seq<Conn>, total: nat)

  function SaturatingPred(n: nat): nat {
    if n == 0 then 0 else n - 1
  }

  function AfterPop(s: PoolState): PoolState {
    if s.idle == [] then s else s.(idle := s.idle[1..])
  }

  predicate CanReserve(s: PoolState, config: Config) {
    s.total < config.maxTotal
  }

  function AfterReserve(s: PoolState, config: Config): PoolState {
    if CanReserve(s, config) then s.(total := s.total + 1) else s
  }

  function AfterRelease(s: PoolState): PoolState {
    s.(total := SaturatingPred(s.total))
  }

  function AfterReturn(s: PoolState, conn: Conn, config: Config): PoolState {
    if |s.idle| < config.maxIdle then s.(idle := s.idle + [conn]) else AfterRelease(s)
  }

  /** Opening a connection succeeds, or fails with whatever the network reports. */
  method Connect() returns (error: Option<ClientError>)
    ensures error.Some? ==> error.value.Io? || error.value.InvalidAddress?
  {
    var outcome: nat := *;
    var retryable: bool := *;
    match outcome {
      case 0 => return None;
      case 1 => return Some(InvalidAddress);
      case _ => return Some(Io(retryable));
    }
  }

  /**
    With no call in progress: every counted slot is idle or checked out, and a
    connection in the idle queue is there once, is not checked out as well, and
    has never failed.
   */
  ghost predicate PoolInv(s: PoolState, out: set<Conn>, failed: set<Conn>, serial: nat, config: Config) {
    && s.total == |s.idle| + |out| <= config.maxTotal
    && |s.idle| <= config.maxIdle
    && (forall i, j :: 0 <= i < j < |s.idle| ==> s.idle[i] != s.idle[j])
    && (forall c :: c in s.idle ==> c < serial && c !in failed && c !in out)
    && (forall c :: c in out || c in failed ==> c < serial)
  }

  lemma PoppedIdle(s: PoolState, out: set<Conn>, failed: set<Conn>, serial: nat, config: Config)
    requires PoolInv(s, out, failed, serial, config) && s.idle != []
    ensures s.idle[0] !in out && s.idle[0] !in failed
    ensures PoolInv(AfterPop(s), out + {s.idle[0]}, failed, serial, config)
    ensures PoolInv(AfterRelease(AfterPop(s)), out, failed, serial, config)
  {
    var idle' := s.idle[1..];
    assert s.idle[0] in s.idle;
    assert forall i :: 0 <= i < |idle'| ==> idle'[i] == s.idle[i + 1];
    assert forall c :: c in idle' ==> c in s.idle;
  }

  lemma ReservedSlot(s: PoolState, out: set<Conn>, failed: set<Conn>, serial: nat, config: Config)
    requires PoolInv(s, out, failed, serial, config) && CanReserve(s, config)
    ensures serial !in out && serial !in failed
    ensures PoolInv(AfterReserve(s, config), out + {serial}, failed, serial + 1, config)
    ensures AfterRelease(AfterReserve(s, config)) == s
  {}

  lemma ExhaustedIsFull(s: PoolState, out: set<Conn>, failed: set<Conn>, serial: nat, config: Config)
    requires PoolInv(s, out, failed, serial, config) && s.idle == [] && !CanReserve(s, config)
    ensures |out| == config.maxTotal
  {}

  lemma DroppedConnection(s: PoolState, out: set<Conn>, failed: set<Conn>, serial: nat, config: Config, conn: Conn)
    requires PoolInv(s, out, failed, serial, config) && conn in out
    ensures conn !in failed ==> PoolInv(AfterReturn(s, conn, config), out - {conn}, failed, serial, config)
    ensures PoolInv(AfterRelease(s), out - {conn}, failed, serial, config)
  {
    var idle' := s.idle + [conn];
    assert forall c :: c in idle' <==> c in s.idle || c == conn;
    assert forall i :: 0 <= i < |s.idle| ==> s.idle[i] in s.idle;
  }

  /**
    How an acquisition uses the idle queue: oldest first. It hands out the
    connection it popped last, or opens a new one, or fails, and does either of
    these only when the queue has run out.
   */
  ghost predicate TakenInOrder(idle: seq<Conn>, idle': seq<Conn>, r: Result<Conn, ClientError>, serial: nat, serial': nat) {
    && IsTail(idle', idle)
    && match r
       case Err(_) => idle' == [] && serial' == serial
       case Ok(c) =>
         || (idle' == [] && c == serial && serial' == serial + 1)
         || (IsTail([c] + idle', idle) && serial' == serial)
  }

  ghost predicate IsTail(tail: seq<Conn>, whole: seq<Conn>) {
    |tail| <= |whole| && tail == whole[|whole| - |tail|..]
  }

  lemma WholeTail(whole: seq<Conn>)
    ensures IsTail(whole, whole)
  {}

  lemma PopTail(tail: seq<Conn>, whole: seq<Conn>)
    requires IsTail(tail, whole)
    ensures tail != [] ==> IsTail(tail[1..], whole) && [tail[0]] + tail[1..] == tail
  {}

  // ---------- The pool object, one call at a time ----------

  class ConnectionPool {
    const config: Config
    var idle: seq<Conn>
    var total: nat
    /** Connections handed out and not yet dropped. */
    ghost var out: set<Conn>
    /** Connections on which a command has failed. */
    ghost var failed: set<Conn>
    /** Number of the next connection to be opened. */
    var serial: nat
    /** How often `acquire` was called. */
    ghost var acquired: nat
    /** Denied acquisitions and round trips, in order. */
    ghost var history: seq<Attempt>

    ghost function State(): PoolState
      reads this
    {
      PoolState(idle, total)
    }

    ghost predicate Valid()
      reads this
    {
      PoolInv(State(), out, failed, serial, config)
    }

    constructor (config: Config)
      ensures Valid() && this.config == config && idle == [] && total == 0 && out == {} && failed == {}
      ensures acquired == 0 && history == []
    {
      this.config := config;
      idle, total, out, failed, serial, acquired, history := [], 0, {}, {}, 0, 0, [];
    }

    method PopIdle() returns (conn: Option<Conn>)
      modifies `idle
      ensures State() == AfterPop(old(State()))
      ensures if old(idle) == [] then conn == None && idle == [] else conn == Some(old(idle)[0]) && idle == old(idle)[1..]
    {
      if |idle| == 0 {
        return None;
      }
      conn := Some(idle[0]);
      idle := idle[1..];
    }

    method TryReserve() returns (ok: bool)
      modifies `total
      ensures State() == AfterReserve(old(State()), config) && ok == CanReserve(old(State()), config)
      ensures ok <==> old(total) < config.maxTotal
      ensures total == old(total) + if ok then 1 else 0
    {
      if total >= config.maxTotal {
        return false;
      }
      total := total + 1;
      return true;
    }

    method ReleaseSlot()
      modifies `total
      ensures State() == AfterRelease(old(State()))
      ensures total == Max(old(total) - 1, 0)
    {
      total := if total == 0 then 0 else total - 1;
    }

    method ReturnConnection(conn: Conn)
      modifies `idle, `total
      ensures State() == AfterReturn(old(State()), conn, config)
      ensures if |old(idle)| < config.maxIdle then idle == old(idle) + [conn] && total == old(total)
              else idle == old(idle) && total == Max(old(total) - 1, 0)
    {
      if |idle| < config.maxIdle {
        idle := idle + [conn];
      } else {
        total := if total == 0 then 0 else total - 1;
      }
    }

    /**
      `acquire`: reuses the first healthy idle connection, discarding unhealthy
      ones, or opens a new one if a slot is free. Only when every slot is
      checked out does it report exhaustion.
     */
    method Acquire() returns (r: Result<Conn, ClientError>)
      requires Valid()
      modifies this
      ensures Valid() && failed == old(failed)
      ensures TakenInOrder(old(idle), idle, r, old(serial), serial)
      ensures r.Ok? ==> r.value !in old(out) && r.value !in failed && out == old(out) + {r.value}
      ensures r.Err? ==> out == old(out)
      ensures r == Err(PoolExhausted) ==> idle == [] && |out| == config.maxTotal
      ensures acquired == old(acquired) + 1
      ensures history == old(history) + if r.Err? then [Denied(r.error)] else []
    {
      hide PoolInv, IsTail;
      acquired := acquired + 1;
      WholeTail(idle);
      while true
        invariant Valid() && out == old(out) && failed == old(failed)
        invariant acquired == old(acquired) + 1 && history == old(history) && serial == old(serial)
        invariant IsTail(idle, old(idle))
        decreases |idle|
      {
        ghost var before := State();
        PopTail(idle, old(idle));
        var conn := PopIdle();
        if conn.Some? {
          PoppedIdle(before, out, failed, serial, config);
          var healthy: bool := *;
          if healthy {
            out := out + {conn.value};
            return Ok(conn.value);
          }
          ReleaseSlot();
          continue;
        }
        var reserved := TryReserve();
        if !reserved {
          ExhaustedIsFull(before, out, failed, serial, config);
          history := history + [Denied(PoolExhausted)];
          return Err(PoolExhausted);
        }
        ReservedSlot(before, out, failed, serial, config);
        var error := Connect();
        if error.None? {
          r := Ok(serial);
          out := out + {serial};
          serial := serial + 1;
          return;
        }
        ReleaseSlot();
        history := history + [Denied(error.value)];
        return Err(error.value);
      }
    }

    /** Dropping a checked-out connection: back to the idle queue if it is still good, else its slot is freed. */
    method Drop(conn: Conn, valid: bool)
      requires Valid() && conn in out && (conn in failed ==> !valid)
      modifies this
      ensures Valid() && out == old(out) - {conn} && failed == old(failed)
      ensures !valid ==> idle == old(idle)
      ensures acquired == old(acquired) && history == old(history)
    {
      hide PoolInv;
      DroppedConnection(State(), out, failed, serial, config, conn);
      if valid {
        ReturnConnection(conn);
      } else {
        ReleaseSlot();
      }
      out := out - {conn};
    }
  }

  /** One round trip on a connection: a reply, or a failure that may or may not be worth retrying. */
  method Transmit() returns (r: Result<Bytes, ExecError>)
    ensures r.Err? ==> r.error.error.Io? || r.error.error.BadReply?
  {
    var outcome: nat := *;
    var reply: Bytes, flag: bool := *, *;
    match outcome {
      case 0 => return Ok(reply);
      case 1 => return Err(Retryable(Io(flag)));
      case 2 => return Err(Retryable(BadReply));
      case 3 => return Err(Fatal(BadReply));
      case _ => return Err(Fatal(Io(flag)));
    }
  }

  /** A checked-out connection that goes back to its pool when dropped. */
  class PooledConnection {
    const pool: ConnectionPool
    var conn: Option<Conn>
    var valid: bool

    /** While it holds a connection, that connection is checked out, and good unless marked. */
    ghost predicate Valid()
      reads this, pool
    {
      && pool.Valid()
      && (conn.Some? ==> conn.value in pool.out && (conn.value in pool.failed <==> !valid))
    }

    constructor (pool: ConnectionPool, conn: Conn)
      requires pool.Valid() && conn in pool.out && conn !in pool.failed
      ensures Valid() && this.pool == pool && this.conn == Some(conn) && valid
    {
      this.pool, this.conn, valid := pool, Some(conn), true;
    }

    /** Executes a command; a failure marks the connection as not to be reused. */
    method Exec() returns (r: Result<Bytes, ExecError>)
      requires Valid() && conn.Some?
      modifies this, pool`failed, pool`history
      ensures Valid() && conn == old(conn)
      ensures r.Err? ==> !valid && pool.failed == old(pool.failed) + {conn.value} && !r.error.error.PoolExhausted?
      ensures r.Ok? ==> valid == old(valid) && pool.failed == old(pool.failed)
      ensures pool.history == old(pool.history) + [Ran(conn.value, r)]
    {
      r := Transmit();
      pool.history := pool.history + [Ran(conn.value, r)];
      if r.Err? {
        valid := false;
        pool.failed := pool.failed + {conn.value};
      }
    }

    method Drop()
      requires Valid()
      modifies this, pool
      ensures Valid() && conn == None
      ensures pool.failed == old(pool.failed)
      ensures pool.out == if old(conn).Some? then old(pool.out) - {old(conn).value} else old(pool.out)
      ensures old(conn).Some? && !old(valid) ==> pool.idle == old(pool.idle)
      ensures pool.acquired == old(pool.acquired) && pool.history == old(pool.history)
    {
      var taken := conn;
      conn := None;
      if taken.None? {
        return;
      }
      pool.Drop(taken.value, valid);
    }
  }

  /**
    A complete run of the retry loop: all but the last attempt failed in a way
    worth retrying, no connection was tried twice, and the last attempt was a
    success, or a failure not worth retrying, or the end of the budget.
   */
  ghost predicate RetriedWithin(attempts: seq<Attempt>, maxRetries: nat) {
    && 1 <= |attempts| <= maxRetries + 1
    && Retries(attempts[..|attempts| - 1])
    && (attempts[|attempts| - 1].WorthRetrying() ==> |attempts| == maxRetries + 1)
    && TriedOnce(attempts)
  }

  /**
    The attempt that ends a call decides its result: the reply, or the error of
    a connection denied or a round trip failed. With budget left it is not one
    worth retrying.
   */
  ghost predicate Ends(last: Attempt, r: Result<Bytes, ClientError>, budget: bool) {
    match last
    case Ran(_, Ok(reply)) => r == Ok(reply)
    case Denied(e) => r == Err(e) && (budget ==> e != Io(true))
    case Ran(_, Err(Retryable(e))) => r == Err(e) && !budget
    case Ran(_, Err(Fatal(e))) => r == Err(e)
  }

  /** The attempts after which the client tries again: a passing connect error, or a retryable round trip. */
  ghost predicate GoesOn(a: Attempt) {
    a == Denied(Io(true)) || (a.Ran? && a.result.Err? && a.result.error.Retryable?)
  }

  /** The constructors, one by one: which attempts may be followed by another. */
  lemma WorthRetryingIff(a: Attempt)
    ensures a.WorthRetrying() <==> GoesOn(a)
  {}

  ghost predicate Retries(attempts: seq<Attempt>) {
    forall i :: 0 <= i < |attempts| ==> attempts[i].WorthRetrying()
  }

  ghost predicate TriedOnce(attempts: seq<Attempt>) {
    forall i, j :: 0 <= i < j < |attempts| && attempts[i].Ran? && attempts[j].Ran? ==> attempts[i].conn != attempts[j].conn
  }

  /** The connections on which these attempts failed, and no others, were added to `before`. */
  ghost predicate FailedBy(attempts: seq<Attempt>, before: set<Conn>, after: set<Conn>) {
    forall c :: c in after <==> c in before || exists i :: 0 <= i < |attempts| && attempts[i].Broke(c)
  }

  lemma FailedByOne(a: Attempt, before: set<Conn>)
    ensures FailedBy([a], before, if a.Ran? && a.result.Err? then before + {a.conn} else before)
  {
    assert [a][0] == a;
  }

  lemma FailedMore(attempts: seq<Attempt>, before: set<Conn>, mid: set<Conn>, a: Attempt, after: set<Conn>)
    requires FailedBy(attempts, before, mid) && FailedBy([a], mid, after)
    ensures FailedBy(attempts + [a], before, after)
  {
    var all := attempts + [a];
    forall c
      ensures c in after <==> c in before || exists i :: 0 <= i < |all| && all[i].Broke(c)
    {
      assert [a][0] == a && all[|attempts|] == a;
      if c in mid && c !in before {
        var i :| 0 <= i < |attempts| && attempts[i].Broke(c);
        assert all[i].Broke(c);
      }
      if c in after && c !in mid {
        assert all[|attempts|].Broke(c);
      }
    }
  }

  /** A retryable attempt leaves its connection, if it had one, among the failed. */
  lemma TriedMore(attempts: seq<Attempt>, before: set<Conn>, mid: set<Conn>, a: Attempt)
    requires TriedOnce(attempts) && Retries(attempts) && FailedBy(attempts, before, mid)
    requires a.Ran? ==> a.conn !in mid
    ensures TriedOnce(attempts + [a])
  {
    forall i | 0 <= i < |attempts| && attempts[i].Ran?
      ensures attempts[i].conn in mid
    {
      assert attempts[i].Broke(attempts[i].conn);
    }
  }

  class KVClient {
    const pool: ConnectionPool
    const maxRetries: nat

    constructor (pool: ConnectionPool, maxRetries: nat)
      ensures this.pool == pool && this.maxRetries == maxRetries
    {
      this.pool, this.maxRetries := pool, maxRetries;
    }

    /** One pass of the retry loop: acquire, execute, drop. */
    method TryOnce() returns (r: Result<Bytes, ClientError>, retryable: bool, ghost a: Attempt)
      requires pool.Valid()
      modifies pool
      ensures pool.Valid() && pool.out == old(pool.out)
      ensures pool.acquired == old(pool.acquired) + 1 && pool.history == old(pool.history) + [a]
      ensures r == a.Outcome() && retryable == a.WorthRetrying()
      ensures match a
        case Denied(e) => r == Err(e) && (retryable <==> e == Io(true))
        case Ran(_, Ok(reply)) => r == Ok(reply) && !retryable
        case Ran(_, Err(Retryable(e))) => r == Err(e) && retryable
        case Ran(_, Err(Fatal(e))) => r == Err(e) && !retryable
      ensures FailedBy([a], old(pool.failed), pool.failed) && (a.Ran? ==> a.conn !in old(pool.failed))
      ensures r == Err(PoolExhausted) ==> !retryable && pool.idle == [] && |pool.out| == pool.config.maxTotal
    {
      hide ConnectionPool.Valid, TakenInOrder, FailedBy;
      var acquired := pool.Acquire();
      if acquired.Err? {
        a := Denied(acquired.error);
        FailedByOne(a, pool.failed);
        return Err(acquired.error), IsRetryableConnectError(acquired.error), a;
      }
      var conn := new PooledConnection(pool, acquired.value);
      var result := conn.Exec();
      conn.Drop();
      a := Ran(acquired.value, result);
      FailedByOne(a, old(pool.failed));
      match result {
        case Ok(reply) => return Ok(reply), false, a;
        case Err(Retryable(e)) => return Err(e), true, a;
        case Err(Fatal(e)) => return Err(e), false, a;
      }
    }

    /**
      `exec_with_retry`: one budget of retries covers failed acquisitions and
      failed round trips alike. Whatever happens, every connection it checked
      out is given back, those that failed are not reused, and it gives up only
      on a failure that is not worth retrying or when the budget is spent.
     */
    method ExecWithRetry() returns (r: Result<Bytes, ClientError>)
      requires pool.Valid()
      modifies pool
      ensures pool.Valid() && pool.out == old(pool.out)
      ensures old(pool.history) < pool.history
      ensures var attempts := pool.history[|old(pool.history)|..];
        && pool.acquired == old(pool.acquired) + |attempts|
        && RetriedWithin(attempts, maxRetries)
        && Ends(attempts[|attempts| - 1], r, |attempts| <= maxRetries)
        && (forall i :: 0 <= i < |attempts| - 1 ==> GoesOn(attempts[i]))
        && FailedBy(attempts, old(pool.failed), pool.failed)
      ensures forall c :: c in pool.failed ==> c !in pool.idle
      ensures r == Err(PoolExhausted) ==> pool.idle == [] && |pool.out| == pool.config.maxTotal
    {
      hide FailedBy, TriedOnce;
      var attempts := 0;
      ghost var tried: seq<Attempt> := [];
      NothingTried(pool.failed);
      while true
        invariant pool.Valid() && pool.out == old(pool.out)
        invariant attempts == |tried| <= maxRetries && Retries(tried) && TriedOnce(tried)
        invariant pool.history == old(pool.history) + tried && pool.acquired == old(pool.acquired) + attempts
        invariant FailedBy(tried, old(pool.failed), pool.failed)
        decreases maxRetries - attempts
      {
        ghost var before := pool.failed;
        var retryable;
        ghost var a;
        r, retryable, a := TryOnce();
        FailedMore(tried, old(pool.failed), before, a, pool.failed);
        TriedMore(tried, old(pool.failed), before, a);
        tried := tried + [a];
        if r.Ok? || attempts >= maxRetries || !retryable {
          assert pool.history[|old(pool.history)|..] == tried && tried[..|tried| - 1] == tried[..attempts];
          return;
        }
        attempts := attempts + 1;
      }
    }
  }

  lemma NothingTried(failed: set<Conn>)
    ensures FailedBy([], failed, failed) && TriedOnce([])
  {}
}
