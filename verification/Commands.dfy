/**
  What the server answers to any list of arguments, spelled out: which commands
  are refused, with which words, and what the accepted ones do, whatever the
  case of their names and however their numbers are written.
 */
module Commands {
  import opened Prelude
  import opened Decimal
  import opened Store
  import opened Protocol
  import opened Replies
  import opened Server

  // ---------- Command names ----------

  /** `name` is `word`, which is in capitals, in any mix of cases. */
  predicate SpelledAs(name: Bytes, word: string) {
    |name| == |word| && forall i :: 0 <= i < |name| ==> name[i] == word[i] as int || name[i] == word[i] as int + 32
  }

  predicate Capitals(word: string) {
    forall i :: 0 <= i < |word| ==> 'A' <= word[i] <= 'Z'
  }

  lemma SpelledIff(name: Bytes, word: string)
    requires Capitals(word)
    ensures EqIgnoreCase(name, Ascii(word)) <==> SpelledAs(name, word)
  {
    if |name| == |word| {
      forall i | 0 <= i < |name|
        ensures Lower(name[i]) == Lower(Ascii(word)[i]) <==> name[i] == word[i] as int || name[i] == word[i] as int + 32
      {
        assert Ascii(word)[i] == word[i] as int;
      }
    }
  }

  lemma NamesDiffer(name: Bytes, a: string, b: string)
    requires Capitals(a) && Capitals(b) && |a| == |b| > 0 && a[0] != b[0]
    ensures !(SpelledAs(name, a) && SpelledAs(name, b))
  {
    assert 'A' <= a[0] <= 'Z' && 'A' <= b[0] <= 'Z';
    if SpelledAs(name, a) {
      assert name[0] == a[0] as int || name[0] == a[0] as int + 32;
    }
  }

  /** Each verb has exactly one name, in any mix of cases. */
  lemma VerbIff(name: Bytes)
    ensures VerbOf(name) == PingVerb <==> SpelledAs(name, "PING")
    ensures VerbOf(name) == GetVerb <==> SpelledAs(name, "GET")
    ensures VerbOf(name) == SetVerb <==> SpelledAs(name, "SET")
    ensures VerbOf(name) == DelVerb <==> SpelledAs(name, "DEL")
    ensures VerbOf(name) == ExpireVerb <==> SpelledAs(name, "EXPIRE")
    ensures VerbOf(name) == TtlVerb <==> SpelledAs(name, "TTL")
    ensures VerbOf(name) == InfoVerb <==> SpelledAs(name, "INFO")
    ensures EqIgnoreCase(name, Ascii("EX")) <==> SpelledAs(name, "EX")
  {
    hide EqIgnoreCase;
    SpelledIff(name, "PING");
    SpelledIff(name, "GET");
    SpelledIff(name, "SET");
    SpelledIff(name, "DEL");
    SpelledIff(name, "EXPIRE");
    SpelledIff(name, "TTL");
    SpelledIff(name, "INFO");
    SpelledIff(name, "EX");
    hide SpelledAs;
    NamesDiffer(name, "PING", "INFO");
    NamesDiffer(name, "GET", "SET");
    NamesDiffer(name, "GET", "DEL");
    NamesDiffer(name, "GET", "TTL");
    NamesDiffer(name, "SET", "DEL");
    NamesDiffer(name, "SET", "TTL");
    NamesDiffer(name, "DEL", "TTL");
    DifferentLengths(name);
  }

  lemma DifferentLengths(name: Bytes)
    ensures SpelledAs(name, "EXPIRE") ==> |name| == 6
    ensures SpelledAs(name, "PING") || SpelledAs(name, "INFO") ==> |name| == 4
    ensures SpelledAs(name, "GET") || SpelledAs(name, "SET") || SpelledAs(name, "DEL") || SpelledAs(name, "TTL") ==> |name| == 3
  {}

  // ---------- Refused commands ----------

  /** A number the server accepts: one or more digits. */
  predicate IsNumber(text: Bytes) {
    text != [] && forall i :: 0 <= i < |text| ==> 48 <= text[i] <= 57
  }

  /** The words a command is refused with, if it is. */
  function Complaint(args: Args): Option<string> {
    if args == [] then Some("empty command")
    else if SpelledAs(args[0], "PING") then
      if |args| > 2 then Some("wrong number of arguments for PING") else None
    else if SpelledAs(args[0], "GET") then
      if |args| != 2 then Some("wrong number of arguments for GET") else None
    else if SpelledAs(args[0], "SET") then
      if |args| < 3 then Some("wrong number of arguments for SET")
      else if |args| == 3 then None
      else if |args| != 5 || !SpelledAs(args[3], "EX") then Some("unsupported SET options")
      else if !IsNumber(args[4]) then Some("invalid integer")
      else None
    else if SpelledAs(args[0], "DEL") then
      if |args| < 2 then Some("wrong number of arguments for DEL") else None
    else if SpelledAs(args[0], "EXPIRE") then
      if |args| != 3 then Some("wrong number of arguments for EXPIRE")
      else if !IsNumber(args[2]) then Some("invalid integer")
      else None
    else if SpelledAs(args[0], "TTL") then
      if |args| != 2 then Some("wrong number of arguments for TTL") else None
    else if SpelledAs(args[0], "INFO") then None
    else Some("unknown command")
  }

  /** An error line, byte for byte. */
  function ErrorLine(words: string): Bytes {
    Ascii("-ERR ") + Ascii(words) + CRLF
  }

  lemma ErrorPrinted(words: string)
    ensures RespError(Ascii(words)) == ErrorLine(words) && IsErrorReply(ErrorLine(words))
  {
    assert Ascii("-ERR ") == [45, 69, 82, 82, 32];
  }

  lemma NumberIff(text: Bytes)
    ensures ParseUnsigned(text, USIZE_MAX) == if IsNumber(text) then Some(Min(DecimalValue(text), USIZE_MAX)) else None
  {}

  /**
    A refused command gets its complaint as an error line; map, clock and log
    stay as they were.
   */
  lemma RefusedCommand(before: Served, args: Args, info: Bytes, clock: nat -> nat)
    requires Complaint(args).Some?
    ensures Next(before, args, info, clock) == before.(replies := before.replies + [ErrorLine(Complaint(args).value)])
  {
    hide EqIgnoreCase, SpelledAs, IsNumber, ErrorLine, RespError, IsErrorReply, VerbOf, Planned, ParseUnsigned, Ascii;
    ErrorPrinted(Complaint(args).value);
    if args != [] {
      VerbIff(args[0]);
      if |args| >= 3 {
        NumberIff(args[2]);
      }
      if |args| == 5 {
        VerbIff(args[3]);
        NumberIff(args[4]);
      }
    }
    assert before.log + [] == before.log;
  }

  // ---------- Accepted commands ----------

  /** The session after a command that makes one call of the engine. */
  function AfterCall(before: Served, op: Op, reply: Bytes, events: seq<Event>, clock: nat -> nat): Served {
    Served(before.replies + [reply], Step(before.store, op, clock(before.tick)), before.tick + 1, before.log + events)
  }

  /** Seconds as the server reads them, in clock ticks. */
  function TicksOf(text: Bytes): nat
    requires IsNumber(text)
  {
    Min(DecimalValue(text), USIZE_MAX) * TICKS_PER_SECOND
  }

  /** GET replies with the value the key shows, or with the null bulk string; it logs a read. */
  lemma AcceptedGet(before: Served, args: Args, info: Bytes, clock: nat -> nat)
    requires |args| == 2 && SpelledAs(args[0], "GET")
    ensures var shown := Visible(before.store, args[1], clock(before.tick));
      Next(before, args, info, clock) ==
        AfterCall(before, Get(args[1]), if shown.Some? then RespBulk(shown.value.value) else RespNull(),
                  [Event(GetKind, args[1], Read, None)], clock)
  {
    VerbIff(args[0]);
    hide SpelledAs, VerbOf, Step, Digits;
  }

  lemma OkPrinted()
    ensures RespSimple(Ascii("OK")) == Ascii("+OK") + CRLF && !IsErrorReply(RespSimple(Ascii("OK")))
  {
    assert Ascii("+OK") == [43] + Ascii("OK");
  }

  /** SET replies OK and logs a write with the size of the value. */
  lemma AcceptedSet(before: Served, args: Args, info: Bytes, clock: nat -> nat)
    requires |args| == 3 && SpelledAs(args[0], "SET")
    ensures Next(before, args, info, clock) ==
      AfterCall(before, Set(args[1], args[2]), Ascii("+OK") + CRLF, [Event(SetKind, args[1], Write, Some(|args[2]|))], clock)
  {
    VerbIff(args[0]);
    OkPrinted();
    hide SpelledAs, VerbOf, Step, RespSimple, IsErrorReply, Ascii;
  }

  /** SET with EX does the same, with a deadline so many seconds from now. */
  lemma AcceptedSetEx(before: Served, args: Args, info: Bytes, clock: nat -> nat)
    requires |args| == 5 && SpelledAs(args[0], "SET") && SpelledAs(args[3], "EX") && IsNumber(args[4])
    ensures Next(before, args, info, clock) ==
      AfterCall(before, SetWithTtl(args[1], args[2], TicksOf(args[4])), Ascii("+OK") + CRLF,
                [Event(SetKind, args[1], Write, Some(|args[2]|))], clock)
  {
    VerbIff(args[0]);
    VerbIff(args[3]);
    NumberIff(args[4]);
    OkPrinted();
    hide SpelledAs, VerbOf, Step, EqIgnoreCase, ParseUnsigned, IsNumber, RespSimple, IsErrorReply, Ascii;
  }

  /** EXPIRE replies 1 if the key shows, which then gets the deadline, else 0; it logs a write either way. */
  lemma AcceptedExpire(before: Served, args: Args, info: Bytes, clock: nat -> nat)
    requires |args| == 3 && SpelledAs(args[0], "EXPIRE") && IsNumber(args[2])
    ensures Next(before, args, info, clock) ==
      AfterCall(before, Expire(args[1], TicksOf(args[2])),
                RespInteger(if Visible(before.store, args[1], clock(before.tick)).Some? then 1 else 0),
                [Event(ExpireKind, args[1], Write, None)], clock)
  {
    VerbIff(args[0]);
    NumberIff(args[2]);
    ErrorsAreMarked([], [], 0);
    ErrorsAreMarked([], [], 1);
    hide SpelledAs, VerbOf, Step, ParseUnsigned, IsNumber, RespInteger, IsErrorReply;
  }

  /** -2 for a missing key, -1 for one without deadline, else the whole seconds left. */
  function SecondsLeft(m: Store, key: Key, now: nat): int {
    var shown := Visible(m, key, now);
    if shown.None? then -2
    else if shown.value.deadline.None? then -1
    else AsI64((shown.value.deadline.value - now) / TICKS_PER_SECOND)
  }

  lemma TtlPrinted(m: Store, key: Key, now: nat)
    ensures var reply := TtlReply(Answer(m, Ttl(key), now).status);
      reply == RespInteger(SecondsLeft(m, key, now)) && !IsErrorReply(reply)
  {
    TtlIsNoError(Answer(m, Ttl(key), now).status);
    hide RespInteger, IsErrorReply, AsI64;
  }

  /** TTL replies with the seconds left and logs a read. */
  lemma AcceptedTtl(before: Served, args: Args, info: Bytes, clock: nat -> nat)
    requires |args| == 2 && SpelledAs(args[0], "TTL")
    ensures Next(before, args, info, clock) ==
      AfterCall(before, Ttl(args[1]), RespInteger(SecondsLeft(before.store, args[1], clock(before.tick))),
                [Event(TtlKind, args[1], Read, None)], clock)
  {
    VerbIff(args[0]);
    TtlPrinted(before.store, args[1], clock(before.tick));
    hide SpelledAs, VerbOf, Step, RespInteger, IsErrorReply, TtlReply, SecondsLeft;
  }

  /** The keys of a DEL that show when their turn comes, each with its own clock reading. */
  function Deletable(keys: seq<Key>, m: Store, clock: nat -> nat, tick: nat): nat {
    if keys == [] then 0
    else
      (if Visible(m, keys[0], clock(tick)).Some? then 1 else 0) + Deletable(keys[1..], m - {keys[0]}, clock, tick + 1)
  }

  function KeySet(keys: seq<Key>): set<Key> {
    set i | 0 <= i < |keys| :: keys[i]
  }

  lemma {:induction false} DeleteAllIs(keys: seq<Key>, m: Store, clock: nat -> nat, tick: nat)
    ensures DeleteAll(keys, m, clock, tick) == Deletion(Deletable(keys, m, clock, tick), m - KeySet(keys))
    decreases |keys|
  {
    if keys == [] {
      assert m - KeySet(keys) == m;
    } else {
      assert Step(m, Delete(keys[0]), clock(tick)) == m - {keys[0]};
      DeleteAllIs(keys[1..], m - {keys[0]}, clock, tick + 1);
      KeySetSplits(keys);
      assert (m - {keys[0]}) - KeySet(keys[1..]) == m - KeySet(keys);
    }
  }

  lemma KeySetSplits(keys: seq<Key>)
    requires keys != []
    ensures KeySet(keys) == {keys[0]} + KeySet(keys[1..])
  {
    forall k | k in KeySet(keys)
      ensures k == keys[0] || k in KeySet(keys[1..])
    {
      var i :| 0 <= i < |keys| && keys[i] == k;
      assert i > 0 ==> keys[1..][i - 1] == k;
    }
    assert forall i :: 0 <= i < |keys[1..]| ==> keys[1..][i] == keys[i + 1];
  }

  lemma {:induction false} DeleteEventsAre(keys: seq<Key>)
    ensures DeleteEvents(keys) == seq(|keys|, i requires 0 <= i < |keys| => Event(DeleteKind, keys[i], Write, None))
  {
    if keys != [] {
      DeleteEventsAre(keys[1..]);
    }
  }

  /** DEL replies with the number of keys that showed, removes all it names, and logs a write of each. */
  lemma AcceptedDel(before: Served, args: Args, info: Bytes, clock: nat -> nat)
    requires |args| >= 2 && SpelledAs(args[0], "DEL")
    ensures var keys := args[1..];
      Next(before, args, info, clock) ==
        Served(before.replies + [RespInteger(Deletable(keys, before.store, clock, before.tick))],
               before.store - KeySet(keys), before.tick + |keys|,
               before.log + seq(|keys|, i requires 0 <= i < |keys| => Event(DeleteKind, keys[i], Write, None)))
  {
    VerbIff(args[0]);
    DeleteAllIs(args[1..], before.store, clock, before.tick);
    DeleteEventsAre(args[1..]);
    ErrorsAreMarked([], [], Deletable(args[1..], before.store, clock, before.tick));
    hide SpelledAs, VerbOf, DeleteAll, DeleteEvents, KeySet, RespInteger, IsErrorReply, Deletable;
  }

  /** PING and INFO touch nothing and log nothing. */
  lemma AcceptedPingOrInfo(before: Served, args: Args, info: Bytes, clock: nat -> nat)
    requires args != [] && (SpelledAs(args[0], "PING") || SpelledAs(args[0], "INFO")) && Complaint(args).None?
    ensures var reply := if SpelledAs(args[0], "INFO") then RespBulk(info)
                         else if |args| == 1 then Ascii("+PONG") + CRLF
                         else RespBulk(args[1]);
      Next(before, args, info, clock) == before.(replies := before.replies + [reply])
  {
    VerbIff(args[0]);
    hide SpelledAs, VerbOf, RespBulk, IsErrorReply;
    assert Ascii("+PONG") == [43] + Ascii("PONG");
    assert before.log + [] == before.log;
  }

  /** A command is answered with an error exactly when there is a complaint. */
  lemma ErrorIff(before: Served, args: Args, info: Bytes, clock: nat -> nat)
    ensures var reply := Dispatch(args, info, before.store, clock, before.tick).response;
      reply != [] && reply[0] == 45 <==> Complaint(args).Some?
  {
    var reply := Dispatch(args, info, before.store, clock, before.tick).response;
    var after := Next(before, args, info, clock);
    assert after.replies[|before.replies|] == reply;
    if Complaint(args).Some? {
      RefusedCommand(before, args, info, clock);
      ErrorPrinted(Complaint(args).value);
    } else {
      hide Next, RespInteger, RespBulk, RespNull;
      AcceptedReply(before, args, info, clock);
    }
  }

  lemma AcceptedReply(before: Served, args: Args, info: Bytes, clock: nat -> nat)
    requires Complaint(args).None?
    ensures var after := Next(before, args, info, clock);
      |after.replies| == |before.replies| + 1 && !IsErrorReply(after.replies[|before.replies|])
  {
    hide SpelledAs, IsNumber, Next, RespInteger, RespBulk, RespNull, RespSimple, Deletable, AsI64, Step, IsErrorReply;
    VerbIff(args[0]);
    ErrorsAreMarked([], info, 0);
    ErrorsAreMarked([], [], 1);
    PongPrinted();
    if SpelledAs(args[0], "GET") {
      AcceptedGet(before, args, info, clock);
      var shown := Visible(before.store, args[1], clock(before.tick));
      ErrorsAreMarked([], if shown.Some? then shown.value.value else [], 0);
    } else if SpelledAs(args[0], "SET") {
      OkPrinted();
      if |args| == 3 {
        AcceptedSet(before, args, info, clock);
      } else {
        AcceptedSetEx(before, args, info, clock);
      }
    } else if SpelledAs(args[0], "DEL") {
      AcceptedDel(before, args, info, clock);
      ErrorsAreMarked([], [], Deletable(args[1..], before.store, clock, before.tick));
    } else if SpelledAs(args[0], "EXPIRE") {
      AcceptedExpire(before, args, info, clock);
    } else if SpelledAs(args[0], "TTL") {
      AcceptedTtl(before, args, info, clock);
      ErrorsAreMarked([], [], SecondsLeft(before.store, args[1], clock(before.tick)));
    } else {
      AcceptedPingOrInfo(before, args, info, clock);
      ErrorsAreMarked([], if |args| == 2 then args[1] else [], 0);
    }
  }

  lemma PongPrinted()
    ensures !IsErrorReply(Ascii("+PONG") + CRLF)
  {}

  /** A refused connection is told so before it is closed; nothing else is written at the end. */
  lemma FarewellIs(ending: Ending)
    ensures Farewell(ending) == if ending.Refused? then ErrorLine("protocol error") else []
  {
    ErrorPrinted("protocol error");
  }

  // ---------- What a command reads and writes ----------

  /** The keys an accepted command accesses in one way: GET and TTL read, SET, EXPIRE and DEL write. */
  function KeysAccessed(args: Args, access: AccessClass): seq<Key> {
    if Complaint(args).Some? then []
    else if SpelledAs(args[0], "GET") || SpelledAs(args[0], "TTL") then
      if access.Read? then [args[1]] else []
    else if SpelledAs(args[0], "SET") || SpelledAs(args[0], "EXPIRE") then
      if access.Write? then [args[1]] else []
    else if SpelledAs(args[0], "DEL") then
      if access.Write? then args[1..] else []
    else []
  }
}
