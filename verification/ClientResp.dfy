/**
  The client's side of RESP2: commands are encoded into an output buffer,
  replies are read recursively from a byte stream.
 */
module ClientResp {
  import opened Prelude
  import opened Decimal
  import opened Protocol

  // ---------- Commands ----------

  function EncodeBulk(data: Bytes): Bytes {
    [DOLLAR] + Digits(|data|) + CRLF + data + CRLF
  }

  function EncodeBulks(args: Args): Bytes {
    if args == [] then [] else EncodeBulk(args[0]) + EncodeBulks(args[1..])
  }

  /** The wire form of a command. */
  function EncodeCommand(args: Args): Bytes {
    [STAR] + Digits(|args|) + CRLF + EncodeBulks(args)
  }

  /** Slices are no longer than the machine allows. */
  ghost predicate Addressable(args: Args) {
    |args| <= ISIZE_MAX && forall i :: 0 <= i < |args| ==> |args[i]| <= ISIZE_MAX
  }

  lemma {:induction false} EncodeBulksAppend(args: Args, last: Bytes)
    ensures EncodeBulks(args + [last]) == EncodeBulks(args) + EncodeBulk(last)
  {
    hide EncodeBulk;
    if args == [] {
      assert args + [last] == [last];
      assert EncodeBulks([last]) == EncodeBulk(last) + EncodeBulks([last][1..]);
    } else {
      assert (args + [last])[1..] == args[1..] + [last];
      EncodeBulksAppend(args[1..], last);
      assert EncodeBulk(args[0]) + (EncodeBulks(args[1..]) + EncodeBulk(last))
          == (EncodeBulk(args[0]) + EncodeBulks(args[1..])) + EncodeBulk(last);
    }
  }

  /** `encode_command`: appends the wire form to the caller's buffer. */
  method AppendCommand(args: Args, buffer: Bytes) returns (out: Bytes)
    requires Addressable(args)
    ensures out == buffer + EncodeCommand(args)
  {
    hide EncodeBulks, Digits;
    out := buffer + [STAR];
    out := PushUsize(out, |args|);
    out := out + CRLF;
    ghost var header := out;
    EncodeNothing();
    for i := 0 to |args|
      invariant out == header + EncodeBulks(args[..i])
    {
      ghost var before := out;
      out := out + [DOLLAR];
      out := PushUsize(out, |args[i]|);
      out := out + CRLF;
      out := out + args[i];
      out := out + CRLF;
      assert out == before + EncodeBulk(args[i]);
      EncodeBulksAppend(args[..i], args[i]);
      assert args[..i + 1] == args[..i] + [args[i]];
    }
    assert args[..|args|] == args;
  }

  lemma EncodeNothing()
    ensures EncodeBulks([]) == []
  {}

  // ---------- Replies ----------

  datatype RespValue =
    | Simple(text: Bytes)
    | Error(text: Bytes)
    | Integer(number: int)
    | Bulk(data: Option<Bytes>)
    | Array(items: seq<RespValue>)

  /** A framing error, or the stream ended inside a bulk string. */
  datatype ReadError = BadFrame | UnexpectedEof

  datatype Read<T> = Ok(value: T, rest: Bytes) | Err(error: ReadError)

  const PLUS: byte := 43
  const MINUS: byte := 45
  const COLON: byte := 58

  /** Length of the prefix `read_until(LF)` takes: up to and with the first LF, else everything. */
  function UntilLf(input: Bytes): (n: nat)
    ensures n <= |input| && (input != [] ==> n > 0)
    ensures forall i :: 0 <= i < n - 1 ==> input[i] != LF
    ensures n < |input| ==> n > 0 && input[n - 1] == LF
  {
    if input == [] then 0 else if input[0] == LF then 1 else 1 + UntilLf(input[1..])
  }

  /** Reading leaves a tail of the stream. */
  predicate IsTail(rest: Bytes, input: Bytes) {
    |rest| <= |input| && rest == input[|input| - |rest|..]
  }

  lemma TailOfTail(a: Bytes, b: Bytes, c: Bytes)
    requires IsTail(a, b) && IsTail(b, c)
    ensures IsTail(a, c)
  {
    assert forall i :: 0 <= i < |a| ==> a[i] == b[|b| - |a| + i] == c[|c| - |b| + (|b| - |a| + i)];
  }

  /** `read_line`: only the byte before the last one is checked to be CR. */
  function TakeLine(input: Bytes): (r: Read<Bytes>)
    ensures r.Ok? ==> |r.rest| < |input| && IsTail(r.rest, input)
  {
    var n := UntilLf(input);
    if n < 2 || input[n - 2] != CR then Err(BadFrame) else Ok(input[..n - 2], input[n..])
  }

  function TakeBulk(input: Bytes, len: int): (r: Read<RespValue>)
    ensures r.Ok? ==> IsTail(r.rest, input)
  {
    if len < 0 then Ok(Bulk(None), input)
    else if |input| < len + 2 then Err(UnexpectedEof)
    else if input[len..len + 2] != CRLF then Err(BadFrame)
    else Ok(Bulk(Some(input[..len])), input[len + 2..])
  }

  /** `read_response` */
  function ReadValue(input: Bytes): (r: Read<RespValue>)
    ensures r.Ok? ==> |r.rest| < |input| && IsTail(r.rest, input)
    decreases |input|, 0
  {
    match TakeLine(input)
    case Err(e) => Err(e)
    case Ok(line, rest) =>
      if line == [] then Err(BadFrame)
      else if line[0] == PLUS then Ok(Simple(line[1..]), rest)
      else if line[0] == MINUS then Ok(Error(line[1..]), rest)
      else
        match ParseSigned(line[1..])
        case None => Err(BadFrame)
        case Some(n) =>
          if line[0] == COLON then Ok(Integer(n), rest)
          else if line[0] == DOLLAR then
            var bulk := TakeBulk(rest, n);
            if bulk.Ok? then
              TailOfTail(bulk.rest, rest, input);
              bulk
            else bulk
          else if line[0] == STAR then
            if n <= 0 then Ok(Array([]), rest)
            else
              match ReadItems(rest, n)
              case Err(e) => Err(e)
              case Ok(items, left) =>
                TailOfTail(left, rest, input);
                Ok(Array(items), left)
          else Err(BadFrame)
  }

  function ReadItems(input: Bytes, n: nat): (r: Read<seq<RespValue>>)
    ensures r.Ok? ==> IsTail(r.rest, input) && (n > 0 ==> |r.rest| < |input|)
    decreases |input|, n
  {
    if n == 0 then Ok([], input)
    else
      match ReadValue(input)
      case Err(e) => Err(e)
      case Ok(first, rest) =>
        match ReadItems(rest, n - 1)
        case Err(e) => Err(e)
        case Ok(others, left) =>
          TailOfTail(left, rest, input);
          Ok([first] + others, left)
  }

  datatype Reply<T> = Value(value: T) | Failed(error: ReadError)

  /** What a read that is specified by `spec` does to the stream. */
  ghost predicate Consumed<T>(spec: Read<T>, r: Reply<T>, before: Bytes, after: Bytes) {
    match spec
    case Ok(v, rest) => r == Value(v) && after == rest
    case Err(e) => r == Failed(e) && |after| <= |before|
  }

  /** The buffered reader a connection reads its replies from. */
  class ReplyReader {
    var input: Bytes
    var lineBuf: Bytes

    constructor (input: Bytes)
      ensures this.input == input
    {
      this.input, lineBuf := input, [];
    }

    method ReadLine() returns (r: Reply<Bytes>)
      modifies this
      ensures Consumed(TakeLine(old(input)), r, old(input), input)
      ensures r.Value? ==> lineBuf == r.value
    {
      var n := 0;
      ghost var until := UntilLf(input);
      while n < |input| && (n == 0 || input[n - 1] != LF)
        invariant 0 <= n <= until
      {
        n := n + 1;
      }
      lineBuf, input := input[..n], input[n..];
      if n == 0 {
        return Failed(BadFrame);
      }
      if n < 2 || lineBuf[n - 2] != CR {
        return Failed(BadFrame);
      }
      lineBuf := lineBuf[..n - 2];
      assert lineBuf == old(input)[..n - 2];
      return Value(lineBuf);
    }

    method ParseBulkLen(len: int) returns (r: Reply<RespValue>)
      modifies this
      ensures Consumed(TakeBulk(old(input), len), r, old(input), input)
    {
      if len < 0 {
        return Value(Bulk(None));
      }
      if |input| < len {
        input := [];
        return Failed(UnexpectedEof);
      }
      var data := input[..len];
      input := input[len..];
      if |input| < 2 {
        input := [];
        return Failed(UnexpectedEof);
      }
      var crlf := input[..2];
      input := input[2..];
      if crlf != CRLF {
        return Failed(BadFrame);
      }
      lineBuf := [];
      return Value(Bulk(Some(data)));
    }

    method ReadResponse() returns (r: Reply<RespValue>)
      modifies this
      ensures Consumed(ReadValue(old(input)), r, old(input), input)
      decreases |input|, 0
    {
      var line := ReadLine();
      if line.Failed? {
        return Failed(line.error);
      }
      if |lineBuf| == 0 {
        return Failed(BadFrame);
      }
      var kind, body := lineBuf[0], lineBuf[1..];
      if kind == PLUS {
        return Value(Simple(body));
      }
      if kind == MINUS {
        return Value(Error(body));
      }
      if kind != COLON && kind != DOLLAR && kind != STAR {
        return Failed(BadFrame);
      }
      var number := ParseI64(body);
      if number.None? {
        return Failed(BadFrame);
      }
      if kind == COLON {
        return Value(Integer(number.value));
      }
      if kind == DOLLAR {
        r := ParseBulkLen(number.value);
      } else {
        r := ParseArrayLen(number.value);
      }
    }

    method ParseArrayLen(len: int) returns (r: Reply<RespValue>)
      modifies this
      ensures len <= 0 ==> r == Value(Array([])) && input == old(input)
      ensures len > 0 ==>
        match ReadItems(old(input), len)
        case Ok(items, rest) => r == Value(Array(items)) && input == rest
        case Err(e) => r == Failed(e) && |input| <= |old(input)|
      decreases |input|, 1
    {
      if len <= 0 {
        return Value(Array([]));
      }
      hide ReadItems, ReadValue;
      var items: seq<RespValue> := [];
      PrependNothing(ReadItems(input, len));
      for i := 0 to len
        invariant |input| <= |old(input)|
        invariant ReadItems(old(input), len) == Prepended(items, ReadItems(input, len - i))
      {
        UnrollItems(items, input, len - i);
        var item := ReadResponse();
        if item.Failed? {
          return Failed(item.error);
        }
        items := items + [item.value];
      }
      NoItems(input);
      assert items + [] == items;
      return Value(Array(items));
    }
  }

  lemma NoItems(input: Bytes)
    ensures ReadItems(input, 0) == Ok([], input)
  {}

  lemma PrependNothing(r: Read<seq<RespValue>>)
    ensures Prepended([], r) == r
  {
    if r.Ok? {
      assert [] + r.value == r.value;
    }
  }

  lemma UnrollItems(items: seq<RespValue>, input: Bytes, n: nat)
    requires n > 0
    ensures Prepended(items, ReadItems(input, n)) ==
      match ReadValue(input)
      case Err(e) => Err(e)
      case Ok(first, rest) => Prepended(items + [first], ReadItems(rest, n - 1))
  {
    if ReadValue(input).Ok? {
      var Ok(first, rest) := ReadValue(input);
      if ReadItems(rest, n - 1).Ok? {
        var others := ReadItems(rest, n - 1).value;
        assert items + ([first] + others) == (items + [first]) + others;
      }
    }
  }

  function Prepended(items: seq<RespValue>, r: Read<seq<RespValue>>): Read<seq<RespValue>> {
    match r
    case Ok(others, rest) => Ok(items + others, rest)
    case Err(e) => Err(e)
  }

  // ---------- Reading is local ----------

  /** The bytes a successful read took from the stream. */
  function Taken<T>(input: Bytes, r: Read<T>): Bytes
    requires r.Ok? && IsTail(r.rest, input)
  {
    input[..|input| - |r.rest|]
  }

  predicate EndsInLf(s: Bytes) {
    s != [] && s[|s| - 1] == LF
  }

  lemma {:induction false} UntilLfPrefix(line: Bytes, more: Bytes)
    requires EndsInLf(line) && forall i :: 0 <= i < |line| - 1 ==> line[i] != LF
    ensures UntilLf(line + more) == |line|
  {
    assert (line + more)[|line| - 1] == LF;
  }

  lemma TakeLineLocal(input: Bytes, more: Bytes)
    requires TakeLine(input).Ok? && EndsInLf(Taken(input, TakeLine(input)))
    ensures TakeLine(Taken(input, TakeLine(input)) + more) == Ok(TakeLine(input).value, more)
  {
    var line := Taken(input, TakeLine(input));
    UntilLfPrefix(line, more);
    assert (line + more)[..|line| - 2] == input[..|line| - 2];
    assert (line + more)[|line|..] == more;
  }

  /** Two reads in a row take the concatenation of what each takes. */
  lemma TakenTwice(input: Bytes, rest: Bytes, left: Bytes)
    requires IsTail(rest, input) && IsTail(left, rest)
    ensures IsTail(left, input) && |left| <= |rest| <= |input|
    ensures input[..|input| - |left|] == input[..|input| - |rest|] + rest[..|rest| - |left|]
    ensures input == input[..|input| - |rest|] + rest
    ensures EndsInLf(rest[..|rest| - |left|]) ==> EndsInLf(input[..|input| - |left|])
    ensures |left| < |rest| && EndsInLf(input[..|input| - |left|]) ==> EndsInLf(rest[..|rest| - |left|])
  {
    TailOfTail(left, rest, input);
  }

  /** An unterminated line can only be the last thing in the stream. */
  lemma TakeLineEnds(input: Bytes)
    requires TakeLine(input).Ok?
    ensures EndsInLf(Taken(input, TakeLine(input))) || TakeLine(input).rest == []
  {}

  lemma {:induction false} ReadValueEnds(input: Bytes)
    requires ReadValue(input).Ok?
    ensures EndsInLf(Taken(input, ReadValue(input))) || ReadValue(input).rest == []
    decreases |input|, 0
  {
    hide TakeLine, ParseSigned, EndsInLf, IsTail;
    TakeLineEnds(input);
    var Ok(line, rest) := TakeLine(input);
    TakenTwice(input, rest, ReadValue(input).rest);
    if line[0] == STAR && ParseSigned(line[1..]).value > 0 {
      ReadItemsEnd(rest, ParseSigned(line[1..]).value);
    } else if line[0] == DOLLAR {
      TakeBulkLocal(rest, ParseSigned(line[1..]).value, []);
    }
  }

  /** Reading one item after another, spelled out. */
  lemma ItemsUnfold(input: Bytes, n: nat)
    requires n > 0 && ReadItems(input, n).Ok?
    ensures ReadValue(input).Ok? && ReadItems(ReadValue(input).rest, n - 1).Ok?
    ensures ReadItems(input, n).rest == ReadItems(ReadValue(input).rest, n - 1).rest
    ensures ReadItems(input, n).value == [ReadValue(input).value] + ReadItems(ReadValue(input).rest, n - 1).value
    ensures n == 1 ==> ReadItems(input, n).rest == ReadValue(input).rest
  {
    NoItems(ReadValue(input).rest);
  }

  lemma {:induction false} ReadItemsEnd(input: Bytes, n: nat)
    requires n > 0 && ReadItems(input, n).Ok?
    ensures EndsInLf(Taken(input, ReadItems(input, n))) || ReadItems(input, n).rest == []
    decreases |input|, n
  {
    hide ReadValue, ReadItems, EndsInLf, IsTail;
    ItemsUnfold(input, n);
    ReadValueEnds(input);
    var rest := ReadValue(input).rest;
    TakenTwice(input, rest, ReadItems(input, n).rest);
    if n > 1 {
      ReadItemsEnd(rest, n - 1);
    }
  }

  lemma TakeBulkLocal(input: Bytes, len: int, more: Bytes)
    requires TakeBulk(input, len).Ok?
    ensures TakeBulk(Taken(input, TakeBulk(input, len)) + more, len) == Ok(TakeBulk(input, len).value, more)
    ensures len >= 0 ==> EndsInLf(Taken(input, TakeBulk(input, len)))
  {
    var taken := Taken(input, TakeBulk(input, len));
    if len >= 0 {
      assert taken == input[..len + 2];
      assert input[len..len + 2][1] == input[len + 1];
      assert (taken + more)[len..len + 2] == input[len..len + 2];
      assert (taken + more)[..len] == input[..len];
      assert (taken + more)[len + 2..] == more;
    } else {
      assert taken + more == more;
    }
  }

  lemma NoTail(head: Bytes, tail: Bytes, more: Bytes)
    ensures tail == [] ==> head + tail == head && tail + more == more
    ensures (head + tail) + more == head + (tail + more)
  {}

  /**
    A reply that ends in LF is read the same, and takes the same bytes,
    whatever follows it.
   */
  lemma {:induction false} ReadValueLocal(input: Bytes, more: Bytes)
    requires ReadValue(input).Ok? && EndsInLf(Taken(input, ReadValue(input)))
    ensures ReadValue(Taken(input, ReadValue(input)) + more) == Ok(ReadValue(input).value, more)
    decreases |input|, 0
  {
    hide TakeLine, TakeBulk, ParseSigned, IsTail, EndsInLf;
    var Ok(line, rest) := TakeLine(input);
    var Ok(value, left) := ReadValue(input);
    TakenTwice(input, rest, left);
    var head, tail := Taken(input, TakeLine(input)), rest[..|rest| - |left|];
    NoTail(head, tail, more);
    TakeLineEnds(input);
    assert EndsInLf(head);
    TakeLineLocal(input, tail + more);
    if line[0] == DOLLAR {
      TakeBulkLocal(rest, ParseSigned(line[1..]).value, more);
    } else if line[0] == STAR && ParseSigned(line[1..]).value > 0 {
      ReadItemsLocal(rest, ParseSigned(line[1..]).value, more);
    }
  }

  lemma {:induction false} ReadItemsLocal(input: Bytes, n: nat, more: Bytes)
    requires n > 0 && ReadItems(input, n).Ok? && EndsInLf(Taken(input, ReadItems(input, n)))
    ensures ReadItems(Taken(input, ReadItems(input, n)) + more, n) == Ok(ReadItems(input, n).value, more)
    decreases |input|, n
  {
    hide ReadValue, IsTail, EndsInLf;
    ItemsUnfold(input, n);
    var rest, left := ReadValue(input).rest, ReadItems(input, n).rest;
    TakenTwice(input, rest, left);
    var head, tail := Taken(input, ReadValue(input)), rest[..|rest| - |left|];
    NoTail(head, tail, more);
    ReadValueEnds(input);
    assert EndsInLf(head);
    ReadValueLocal(input, tail + more);
    if n > 1 {
      ReadItemsLocal(rest, n - 1, more);
    }
  }

  // ---------- ... unless the last line was never terminated ----------

  lemma UntilLfEats(input: Bytes, more: Bytes)
    requires LF !in input && more != []
    ensures UntilLf(input + more) > |input|
  {
    assert forall i :: 0 <= i < |input| ==> (input + more)[i] == input[i] != LF;
  }

  lemma TakeLineEats(input: Bytes, more: Bytes)
    requires TakeLine(input).Ok? && !EndsInLf(Taken(input, TakeLine(input))) && more != []
    ensures TakeLine(input + more).Ok? ==> |TakeLine(input + more).rest| < |more|
  {
    var n := UntilLf(input);
    assert n == |input|;
    assert LF !in input;
    UntilLfEats(input, more);
  }

  /** A reply read off an unterminated line runs on into whatever follows. */
  lemma {:induction false} ReadValueEats(input: Bytes, more: Bytes)
    requires ReadValue(input).Ok? && !EndsInLf(Taken(input, ReadValue(input))) && more != []
    ensures ReadValue(input + more).Ok? ==> |ReadValue(input + more).rest| < |more|
    decreases |input|, 0
  {
    hide TakeLine, ParseSigned, EndsInLf, IsTail;
    var Ok(line, rest) := TakeLine(input);
    var head := Taken(input, TakeLine(input));
    var n := ParseSigned(line[1..]);
    TakenTwice(input, rest, ReadValue(input).rest);
    TakeLineEnds(input);
    if line[0] == STAR && n.value > 0 {
      assert input + more == head + (rest + more);
      TakeLineLocal(input, rest + more);
      ReadItemsEat(rest, n.value, more);
    } else {
      if line[0] == DOLLAR {
        TakeBulkLocal(rest, n.value, []);
      }
      TakeLineEats(input, more);
      TailShrinks(input + more);
    }
  }

  lemma TailShrinks(input: Bytes)
    ensures ReadValue(input).Ok? ==> TakeLine(input).Ok? && |ReadValue(input).rest| <= |TakeLine(input).rest|
  {}

  lemma {:induction false} ReadItemsEat(input: Bytes, n: nat, more: Bytes)
    requires n > 0 && ReadItems(input, n).Ok? && !EndsInLf(Taken(input, ReadItems(input, n))) && more != []
    ensures ReadItems(input + more, n).Ok? ==> |ReadItems(input + more, n).rest| < |more|
    decreases |input|, n
  {
    hide ReadValue, ReadItems, EndsInLf, IsTail;
    ItemsUnfold(input, n);
    var rest := ReadValue(input).rest;
    var head := Taken(input, ReadValue(input));
    TakenTwice(input, rest, ReadItems(input, n).rest);
    if ReadItems(input + more, n).Ok? {
      ItemsUnfold(input + more, n);
    }
    if n > 1 {
      ReadValueEnds(input);
      assert input + more == head + (rest + more);
      ReadValueLocal(input, rest + more);
      ReadItemsEat(rest, n - 1, more);
    } else {
      ReadValueEats(input, more);
    }
  }

  /** A reply read off `input` that stays the same whatever bytes follow it. */
  ghost predicate Local(input: Bytes)
    requires ReadValue(input).Ok?
  {
    var r := ReadValue(input);
    forall more :: ReadValue(Taken(input, r) + more) == Ok(r.value, more)
  }

  /**
    Locality, exactly: a reply is read the same whatever bytes follow it if and
    only if the last byte taken is LF.
   */
  lemma ReadIsLocalIff(input: Bytes)
    requires ReadValue(input).Ok?
    ensures Local(input) <==> EndsInLf(Taken(input, ReadValue(input)))
  {
    var r := ReadValue(input);
    var taken := Taken(input, r);
    if EndsInLf(taken) {
      forall more
        ensures ReadValue(taken + more) == Ok(r.value, more)
      {
        ReadValueLocal(input, more);
      }
    } else {
      ReadValueEnds(input);
      assert taken == input;
      ReadValueEats(input, CRLF);
      assert ReadValue(taken + CRLF) != Ok(r.value, CRLF);
    }
  }

  /**
    The same condition on the input: a reply is local exactly when the input
    ends in LF or goes on after the reply. So an input that ends in LF is always
    read safely.
   */
  lemma LocalWhenTerminated(input: Bytes)
    requires ReadValue(input).Ok?
    ensures Local(input) <==> EndsInLf(input) || ReadValue(input).rest != []
  {
    hide ReadValue, Local;
    ReadIsLocalIff(input);
    ReadValueEnds(input);
    var r := ReadValue(input);
    if r.rest == [] {
      assert Taken(input, r) == input;
    }
  }

  /**
    For replies of one line, the condition is the guard of the branch that
    fails: the line reader must find an LF.
   */
  lemma LocalWhenOneLine(input: Bytes)
    requires ReadValue(input).Ok? && input[0] in {PLUS, MINUS, COLON}
    ensures Local(input) <==> LF in input
  {
    hide ReadValue, UntilLf, Local;
    OneLineTaken(input);
    ReadIsLocalIff(input);
    var n := UntilLf(input);
    assert Taken(input, ReadValue(input)) == input[..n];
    if LF in input {
      assert EndsInLf(input[..n]);
    }
  }

  lemma OneLineTaken(input: Bytes)
    requires ReadValue(input).Ok? && input[0] in {PLUS, MINUS, COLON}
    ensures ReadValue(input).rest == input[UntilLf(input)..]
  {
    hide ParseSigned, ReadItems, TakeBulk;
  }

  /** The case the line reader lets through: `+OK`, CR, and one stray byte at the end of the stream. */
  lemma UnterminatedLineAccepted()
    ensures ReadValue([PLUS, 79, 75, CR, 88]) == Ok(Simple([79, 75]), [])
    ensures ReadValue([PLUS, 79, 75, CR, 88] + CRLF) == Ok(Simple([79, 75, CR, 88]), [])
  {
    var short := [PLUS, 79, 75, CR, 88];
    var long := short + CRLF;
    assert long == [PLUS, 79, 75, CR, 88, CR, LF];
    assert UntilLf(short) == 5 by {
      assert forall i :: 0 <= i < 5 ==> short[i] != LF;
    }
    assert UntilLf(long) == 7 by {
      assert forall i :: 0 <= i < 6 ==> long[i] != LF;
    }
    assert short[..3][1..] == [79, 75];
    assert long[..5][1..] == [79, 75, CR, 88];
  }
}
