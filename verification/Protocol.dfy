/**
  The server's resumable RESP2 parser (`RespParser`): it consumes a growing
  buffer and keeps its place between reads.
 */
module Protocol {
  import opened Prelude
  import opened Decimal

  type Args = seq<Bytes>

  datatype Phase = ArrayLen | BulkLen | BulkData

  /** The fields of the parser. */
  datatype Parser = Parser(phase: Phase, args: Args, remaining: nat, bulkLen: nat) {
    /** Inside a frame at least one argument is outstanding. */
    predicate WellFormed() {
      phase.ArrayLen? || remaining > 0
    }
  }

  const NEW_PARSER := Parser(ArrayLen, [], 0, 0)

  const STAR: byte := 42
  const DOLLAR: byte := 36
  const SPACE: byte := 32

  // ---------- Lines ----------

  /** A line ends at `i` when bytes `i` and `i + 1` are CR LF. */
  predicate EndsAt(buf: Bytes, i: nat) {
    i + 1 < |buf| && buf[i] == CR && buf[i + 1] == LF
  }

  /** The first line end at or after `from`, if the buffer holds one. */
  function FindLine(buf: Bytes, from: nat): (r: Option<nat>)
    ensures r.Some? ==> from <= r.value && EndsAt(buf, r.value)
    ensures r.Some? ==> forall j :: from <= j < r.value ==> !EndsAt(buf, j)
    ensures r.None? ==> forall j: nat :: from <= j ==> !EndsAt(buf, j)
    decreases |buf| - from
  {
    if from + 1 >= |buf| then None
    else if EndsAt(buf, from) then Some(from)
    else FindLine(buf, from + 1)
  }

  /** `read_line`: the bytes before the first CR LF, which is consumed. */
  method ReadLine(buf: Bytes) returns (line: Option<Bytes>, rest: Bytes)
    ensures match FindLine(buf, 0)
      case None => line == None && rest == buf
      case Some(i) => line == Some(buf[..i]) && rest == buf[i + 2..]
  {
    var idx := 1;
    while idx < |buf|
      invariant 1 <= idx
      invariant FindLine(buf, 0) == FindLine(buf, idx - 1)
    {
      if buf[idx] == LF && buf[idx - 1] == CR {
        return Some(buf[..idx - 1]), buf[idx + 1..];
      }
      idx := idx + 1;
    }
    return None, buf;
  }

  // ---------- Inline commands ----------

  /** Splits on spaces and keeps the non-empty pieces. */
  function SplitWords(data: Bytes, word: Bytes): Args {
    if data == [] then (if word == [] then [] else [word])
    else if data[0] == SPACE then (if word == [] then [] else [word]) + SplitWords(data[1..], [])
    else SplitWords(data[1..], word + [data[0]])
  }

  // ---------- One transition ----------

  datatype Move =
    | NeedMore
    | Continue(parser: Parser, rest: Bytes)
    | Command(args: Args, parser: Parser, rest: Bytes)
    | Malformed
    | Overflow      // `bulk_len + 2` wrapped, and the data is cut beyond the buffer

  function Transition(p: Parser, buf: Bytes): (m: Move)
    requires p.WellFormed()
    ensures m.Continue? || m.Command? ==> m.parser.WellFormed() && |m.rest| < |buf|
  {
    match p.phase
    case ArrayLen =>
      (match FindLine(buf, 0)
       case None => NeedMore
       case Some(i) =>
         var line, rest := buf[..i], buf[i + 2..];
         if line == [] || line[0] != STAR then
           var words := SplitWords(line, []);
           if words == [] then Malformed else Command(words, p, rest)
         else
           match ParseUnsigned(line[1..], USIZE_MAX)
           case None => Malformed
           case Some(count) =>
             if count == 0 then Command([], Parser(ArrayLen, [], 0, p.bulkLen), rest)
             else Continue(Parser(BulkLen, [], count, p.bulkLen), rest))
    case BulkLen =>
      (match FindLine(buf, 0)
       case None => NeedMore
       case Some(i) =>
         var line, rest := buf[..i], buf[i + 2..];
         if line == [] || line[0] != DOLLAR then Malformed
         else
           match ParseUnsigned(line[1..], USIZE_MAX)
           case None => Malformed
           case Some(len) => Continue(p.(phase := BulkData, bulkLen := len), rest))
    case BulkData =>
      if |buf| < (p.bulkLen + 2) % TWO_64 then NeedMore
      else if p.bulkLen + 2 > USIZE_MAX then Overflow
      else if !EndsAt(buf, p.bulkLen) then Malformed
      else
        var args, rest := p.args + [buf[..p.bulkLen]], buf[p.bulkLen + 2..];
        if p.remaining == 1 then Command(args, Parser(ArrayLen, [], 0, p.bulkLen), rest)
        else Continue(Parser(BulkLen, args, p.remaining - 1, p.bulkLen), rest)
  }

  datatype Parsed =
    | Incomplete(parser: Parser, rest: Bytes)
    | Complete(args: Args, parser: Parser, rest: Bytes)
    | ProtocolError
    | Panic

  /** `parse`: transitions until a command, an error, or the end of the input. */
  function Parse(p: Parser, buf: Bytes): (r: Parsed)
    requires p.WellFormed()
    ensures r.Incomplete? ==> r.parser.WellFormed() && |r.rest| <= |buf|
    ensures r.Complete? ==> r.parser.WellFormed() && |r.rest| < |buf|
    decreases |buf|
  {
    match Transition(p, buf)
    case NeedMore => Incomplete(p, buf)
    case Continue(p', rest) => Parse(p', rest)
    case Command(args, p', rest) => Complete(args, p', rest)
    case Malformed => ProtocolError
    case Overflow => Panic
  }

  /** The parser object. */
  class RespParser {
    var state: Phase
    var args: Args
    var remaining: nat
    var bulkLen: nat

    ghost function Fields(): Parser
      reads this
    {
      Parser(state, args, remaining, bulkLen)
    }

    ghost predicate Valid()
      reads this
    {
      Fields().WellFormed()
    }

    constructor ()
      ensures Valid() && Fields() == NEW_PARSER
    {
      state, args, remaining, bulkLen := ArrayLen, [], 0, 0;
    }

    /** The effect of a transition on the parser's fields. */
    twostate predicate Follows(m: Move)
      reads this
    {
      && Valid()
      && Fields() == if m.Continue? || m.Command? then m.parser else old(Fields())
    }

    /** Expecting `*<count>` or an inline command. */
    method AtArrayLen(buf: Bytes) returns (m: Move)
      requires Valid() && state.ArrayLen?
      modifies this
      ensures m == Transition(old(Fields()), buf) && Follows(m)
    {
      var line, rest := ReadLine(buf);
      if line.None? {
        return NeedMore;
      }
      if |line.value| == 0 || line.value[0] != STAR {
        var words := SplitWords(line.value, []);
        if |words| == 0 {
          return Malformed;
        }
        return Command(words, Parser(state, args, remaining, bulkLen), rest);
      }
      var count := ParseDigits(line.value[1..], USIZE_MAX);
      if count.None? {
        return Malformed;
      }
      args, remaining := [], count.value;
      if remaining == 0 {
        state := ArrayLen;
        return Command([], Parser(state, args, remaining, bulkLen), rest);
      }
      state := BulkLen;
      return Continue(Parser(state, args, remaining, bulkLen), rest);
    }

    /** Expecting `$<len>`. */
    method AtBulkLen(buf: Bytes) returns (m: Move)
      requires Valid() && state.BulkLen?
      modifies this
      ensures m == Transition(old(Fields()), buf) && Follows(m)
    {
      var line, rest := ReadLine(buf);
      if line.None? {
        return NeedMore;
      }
      if |line.value| == 0 || line.value[0] != DOLLAR {
        return Malformed;
      }
      var len := ParseDigits(line.value[1..], USIZE_MAX);
      if len.None? {
        return Malformed;
      }
      bulkLen, state := len.value, BulkData;
      return Continue(Parser(state, args, remaining, bulkLen), rest);
    }

    /**
      Expecting `bulkLen` bytes of data and CR LF. The sum wraps as in a release
      build; buffers are shorter than 2^64 bytes, so cutting off a length that
      made it wrap panics.
     */
    method AtBulkData(buf: Bytes) returns (m: Move)
      requires Valid() && state.BulkData?
      modifies this
      ensures m == Transition(old(Fields()), buf) && Follows(m)
    {
      if |buf| < (bulkLen + 2) % TWO_64 {
        return NeedMore;
      }
      if bulkLen + 2 > USIZE_MAX {
        return Overflow;
      }
      var data := buf[..bulkLen];
      if buf[bulkLen] != CR || buf[bulkLen + 1] != LF {
        return Malformed;
      }
      args, remaining := args + [data], remaining - 1;
      var rest := buf[bulkLen + 2..];
      if remaining == 0 {
        var taken := args;
        state, args := ArrayLen, [];
        return Command(taken, Parser(state, args, remaining, bulkLen), rest);
      }
      state := BulkLen;
      return Continue(Parser(state, args, remaining, bulkLen), rest);
    }

    /** `parse`: runs until one command is complete, the input runs out, or it is malformed. */
    method ParseCommand(buf: Bytes) returns (r: Parsed)
      requires Valid()
      modifies this
      ensures r == Parse(old(Fields()), buf)
      ensures Valid() && (r.Complete? || r.Incomplete? ==> Fields() == r.parser)
    {
      hide Transition;
      var rest := buf;
      while true
        invariant Valid()
        invariant Parse(old(Fields()), buf) == Parse(Fields(), rest)
        decreases |rest|
      {
        var m: Move;
        match state {
          case ArrayLen => m := AtArrayLen(rest);
          case BulkLen => m := AtBulkLen(rest);
          case BulkData => m := AtBulkData(rest);
        }
        match m {
          case NeedMore => return Incomplete(Parser(state, args, remaining, bulkLen), rest);
          case Continue(_, left) => rest := left;
          case Command(words, p, left) => return Complete(words, p, left);
          case Malformed => return ProtocolError;
          case Overflow => return Panic;
        }
      }
    }
  }

  // ---------- A frame holds as many arguments as it declares ----------

  /** The count an array header announces, if the buffer starts with one. */
  function DeclaredCount(buf: Bytes): Option<nat> {
    match FindLine(buf, 0)
    case None => None
    case Some(i) => if i == 0 || buf[0] != STAR then None else ParseUnsigned(buf[1..i], USIZE_MAX)
  }

  /** Arguments already read plus those still expected. */
  function FrameSize(p: Parser): nat {
    |p.args| + p.remaining
  }

  /** No transition inside a frame changes its size; the last one delivers that many arguments. */
  lemma TransitionKeepsSize(p: Parser, buf: Bytes)
    requires p.WellFormed() && !p.phase.ArrayLen?
    ensures var m := Transition(p, buf);
      && (m.Continue? ==> !m.parser.phase.ArrayLen? && FrameSize(m.parser) == FrameSize(p))
      && (m.Command? ==> |m.args| == FrameSize(p) && m.parser.phase.ArrayLen?)
  {}

  /** From inside a frame, wherever the input breaks off, its size is what it was. */
  lemma {:induction false} ParseKeepsSize(p: Parser, buf: Bytes)
    requires p.WellFormed() && !p.phase.ArrayLen?
    ensures match Parse(p, buf)
      case Complete(args, _, _) => |args| == FrameSize(p)
      case Incomplete(q, _) => !q.phase.ArrayLen? && FrameSize(q) == FrameSize(p)
      case _ => true
    decreases |buf|
  {
    hide Transition;
    TransitionKeepsSize(p, buf);
    var m := Transition(p, buf);
    if m.Continue? {
      ParseKeepsSize(m.parser, m.rest);
    }
  }

  /**
    A command that starts with an array header has exactly the declared number
    of arguments; while it is incomplete, the arguments held and those
    outstanding add up to that number.
   */
  lemma FrameHoldsDeclared(p: Parser, buf: Bytes)
    requires p.phase.ArrayLen? && DeclaredCount(buf).Some?
    ensures match Parse(p, buf)
      case Complete(args, _, _) => |args| == DeclaredCount(buf).value
      case Incomplete(q, _) => !q.phase.ArrayLen? && FrameSize(q) == DeclaredCount(buf).value
      case _ => true
  {
    hide ParseUnsigned, FindLine, SplitWords;
    var i := FindLine(buf, 0).value;
    assert buf[..i][1..] == buf[1..i];
    var m := Transition(p, buf);
    if m.Continue? {
      ParseKeepsSize(m.parser, m.rest);
    }
  }

  // ---------- Parsing does not depend on how the bytes arrive ----------

  /** More input never changes a transition that was already possible. */
  function Extended(m: Move, more: Bytes): Move {
    match m
    case Continue(p, rest) => Continue(p, rest + more)
    case Command(args, p, rest) => Command(args, p, rest + more)
    case _ => m
  }

  lemma FindLineStable(buf: Bytes, more: Bytes)
    requires FindLine(buf, 0).Some?
    ensures FindLine(buf + more, 0) == FindLine(buf, 0)
    ensures var i := FindLine(buf, 0).value;
      (buf + more)[..i] == buf[..i] && (buf + more)[i + 2..] == buf[i + 2..] + more
  {
    var i := FindLine(buf, 0).value;
    assert EndsAt(buf + more, i);
    assert forall j :: 0 <= j < i ==> EndsAt(buf + more, j) == EndsAt(buf, j);
  }

  lemma TransitionStable(p: Parser, buf: Bytes, more: Bytes)
    requires p.WellFormed() && !Transition(p, buf).NeedMore?
    ensures Transition(p, buf + more) == Extended(Transition(p, buf), more)
  {
    hide FindLine, SplitWords, ParseUnsigned;
    if p.phase.BulkData? {
      if p.bulkLen + 2 <= |buf| {
        assert (buf + more)[..p.bulkLen] == buf[..p.bulkLen];
        assert (buf + more)[p.bulkLen + 2..] == buf[p.bulkLen + 2..] + more;
      }
    } else {
      FindLineStable(buf, more);
    }
  }

  lemma {:induction false} ParseSplit(p: Parser, buf: Bytes, more: Bytes)
    requires p.WellFormed()
    ensures Parse(p, buf + more) ==
      match Parse(p, buf)
      case Incomplete(p', rest) => Parse(p', rest + more)
      case Complete(args, p', rest) => Complete(args, p', rest + more)
      case other => other
    decreases |buf|
  {
    hide Transition;
    var m := Transition(p, buf);
    if !m.NeedMore? {
      TransitionStable(p, buf, more);
      if m.Continue? {
        ParseSplit(m.parser, m.rest, more);
      }
    }
  }

  /** How a connection stands after the parser has eaten its input. */
  datatype Ending = Waiting(parser: Parser, rest: Bytes) | Refused | Crashed

  datatype Drained = Drained(commands: seq<Args>, ending: Ending) {
    function After(earlier: seq<Args>): Drained {
      Drained(earlier + commands, ending)
    }
  }

  /** The inner loop of a connection: parse until the input runs out. */
  function Drain(p: Parser, buf: Bytes): (d: Drained)
    requires p.WellFormed()
    ensures d.ending.Waiting? ==> d.ending.parser.WellFormed()
    decreases |buf|
  {
    match Parse(p, buf)
    case Incomplete(p', rest) => Drained([], Waiting(p', rest))
    case Complete(args, p', rest) => Drain(p', rest).After([args])
    case ProtocolError => Drained([], Refused)
    case Panic => Drained([], Crashed)
  }

  /** The outer loop: one read after the other, until one is refused. */
  function Feed(p: Parser, buf: Bytes, chunks: seq<Bytes>): Drained
    requires p.WellFormed()
    decreases |chunks|
  {
    if chunks == [] then Drained([], Waiting(p, buf))
    else
      var d := Drain(p, buf + chunks[0]);
      if d.ending.Waiting? then Feed(d.ending.parser, d.ending.rest, chunks[1..]).After(d.commands) else d
  }

  lemma {:induction false} DrainSplit(p: Parser, buf: Bytes, more: Bytes)
    requires p.WellFormed()
    ensures var d := Drain(p, buf);
      Drain(p, buf + more) ==
        if d.ending.Waiting? then Drain(d.ending.parser, d.ending.rest + more).After(d.commands) else d
    decreases |buf|
  {
    hide Parse;
    ParseSplit(p, buf, more);
    match Parse(p, buf) {
      case Complete(args, p', rest) =>
        DrainSplit(p', rest, more);
        var tail := Drain(p', rest);
        if tail.ending.Waiting? {
          var last := Drain(tail.ending.parser, tail.ending.rest + more).commands;
          assert [args] + (tail.commands + last) == ([args] + tail.commands) + last;
        }
      case Incomplete(p', rest) =>
        assert [] + Drain(p', rest + more).commands == Drain(p', rest + more).commands;
      case _ =>
    }
  }

  /** A waiting parser yields nothing until more bytes arrive. */
  ghost predicate Quiet(p: Parser, buf: Bytes)
    requires p.WellFormed()
  {
    Drain(p, buf) == Drained([], Waiting(p, buf))
  }

  lemma {:induction false} DrainIsQuiet(p: Parser, buf: Bytes)
    requires p.WellFormed() && Drain(p, buf).ending.Waiting?
    ensures Quiet(Drain(p, buf).ending.parser, Drain(p, buf).ending.rest)
    decreases |buf|
  {
    match Parse(p, buf) {
      case Complete(_, p', rest) => DrainIsQuiet(p', rest);
      case Incomplete(p', rest) => ParseIsQuiet(p, buf);
      case _ =>
    }
  }

  lemma {:induction false} ParseIsQuiet(p: Parser, buf: Bytes)
    requires p.WellFormed() && Parse(p, buf).Incomplete?
    ensures Parse(Parse(p, buf).parser, Parse(p, buf).rest) == Parse(p, buf)
    decreases |buf|
  {
    var m := Transition(p, buf);
    if m.Continue? {
      ParseIsQuiet(m.parser, m.rest);
    }
  }

  lemma {:induction false} FeedIsDrain(p: Parser, buf: Bytes, chunks: seq<Bytes>)
    requires p.WellFormed() && Quiet(p, buf)
    ensures Feed(p, buf, chunks) == Drain(p, buf + Flatten(chunks))
    decreases |chunks|
  {
    hide Drain;
    if chunks == [] {
      assert buf + Flatten(chunks) == buf;
    } else {
      var d := Drain(p, buf + chunks[0]);
      assert buf + Flatten(chunks) == (buf + chunks[0]) + Flatten(chunks[1..]);
      DrainSplit(p, buf + chunks[0], Flatten(chunks[1..]));
      if d.ending.Waiting? {
        DrainIsQuiet(p, buf + chunks[0]);
        FeedIsDrain(d.ending.parser, d.ending.rest, chunks[1..]);
      }
    }
  }

  /**
    However a byte stream is cut into reads, the connection sees the same
    commands, ends the same way and, if still open, is left with the same
    parser state and unread bytes.
   */
  lemma ChunkIndependence(chunks: seq<Bytes>, chunks': seq<Bytes>)
    requires Flatten(chunks) == Flatten(chunks')
    ensures Feed(NEW_PARSER, [], chunks) == Feed(NEW_PARSER, [], chunks') == Drain(NEW_PARSER, Flatten(chunks))
  {
    assert Quiet(NEW_PARSER, []);
    FeedIsDrain(NEW_PARSER, [], chunks);
    FeedIsDrain(NEW_PARSER, [], chunks');
    assert [] + Flatten(chunks) == Flatten(chunks);
  }
}
