/** What one side of the wire writes, the other side reads back. */
module RoundTrip {
  import opened Prelude
  import opened Decimal
  import opened Protocol
  import opened ClientResp
  import opened Replies

  // ---------- Commands: client encoder, server parser ----------

  /** A line free of CR, or free of LF, ends at the terminator put behind it. */
  lemma LineFound(line: Bytes, more: Bytes)
    requires CR !in line || LF !in line
    ensures FindLine(line + CRLF + more, 0) == Some(|line|)
    ensures (line + CRLF + more)[..|line|] == line && (line + CRLF + more)[|line| + 2..] == more
  {
    var buf := line + CRLF + more;
    assert EndsAt(buf, |line|);
    assert forall j :: 0 <= j < |line| ==> buf[j] == line[j] && buf[j] in line;
    assert buf[|line|] == CR;
  }

  lemma NoCrInDigits(n: nat, first: byte)
    requires first != CR
    ensures CR !in [first] + Digits(n) && ([first] + Digits(n))[1..] == Digits(n)
  {}

  /** A length line is read back as the length. */
  lemma LengthLine(first: byte, n: nat, more: Bytes)
    requires first != CR && n <= ISIZE_MAX
    ensures var buf := [first] + Digits(n) + CRLF + more;
      && FindLine(buf, 0) == Some(1 + |Digits(n)|)
      && buf[..1 + |Digits(n)|][0] == first
      && ParseUnsigned(buf[..1 + |Digits(n)|][1..], USIZE_MAX) == Some(n)
      && buf[1 + |Digits(n)| + 2..] == more
  {
    var line := [first] + Digits(n);
    NoCrInDigits(n, first);
    LineFound(line, more);
    UnsignedRoundTrip(n);
  }

  lemma BulkHeaderRead(p: Parser, data: Bytes, more: Bytes)
    requires p.WellFormed() && p.phase.BulkLen? && |data| <= ISIZE_MAX
    ensures Transition(p, EncodeBulk(data) + more) == Continue(p.(phase := BulkData, bulkLen := |data|), data + CRLF + more)
  {
    LengthLine(DOLLAR, |data|, data + CRLF + more);
    assert EncodeBulk(data) + more == [DOLLAR] + Digits(|data|) + CRLF + (data + CRLF + more);
  }

  lemma BulkDataRead(p: Parser, data: Bytes, more: Bytes)
    requires p.WellFormed() && p.phase.BulkData? && p.bulkLen == |data| <= USIZE_MAX - 2
    ensures Transition(p, data + CRLF + more) ==
      if p.remaining == 1 then Command(p.args + [data], Parser(ArrayLen, [], 0, |data|), more)
      else Continue(Parser(BulkLen, p.args + [data], p.remaining - 1, |data|), more)
  {
    var buf := data + CRLF + more;
    assert EndsAt(buf, |data|) && buf[..|data|] == data && buf[|data| + 2..] == more;
  }

  /** The parser's state after a complete command. */
  function AfterCommand(p: Parser, args: Args): Parser {
    Parser(ArrayLen, [], 0, if args == [] then p.bulkLen else |args[|args| - 1]|)
  }

  lemma {:induction false} BulksRead(p: Parser, todo: Args, more: Bytes)
    requires p.phase.BulkLen? && p.remaining == |todo| > 0 && Addressable(todo)
    ensures Parse(p, EncodeBulks(todo) + more) == Complete(p.args + todo, AfterCommand(p, todo), more)
    decreases |todo|
  {
    hide Transition, EncodeBulk;
    var data, others := todo[0], todo[1..];
    var left := EncodeBulks(others) + more;
    assert EncodeBulks(todo) + more == EncodeBulk(data) + left;
    BulkHeaderRead(p, data, left);
    var q := p.(phase := BulkData, bulkLen := |data|);
    assert Parse(p, EncodeBulks(todo) + more) == Parse(q, data + CRLF + left);
    BulkDataRead(q, data, left);
    if |todo| == 1 {
      assert others == [] && left == more && p.args + todo == p.args + [data];
    } else {
      var next := Parser(BulkLen, p.args + [data], p.remaining - 1, |data|);
      assert Parse(q, data + CRLF + left) == Parse(next, left);
      BulksRead(next, others, more);
      assert (p.args + [data]) + others == p.args + todo;
    }
  }

  /**
    A command is parsed back exactly, whatever its arguments hold, and the
    bytes that follow it stay unread.
   */
  lemma CommandRoundTrip(p: Parser, args: Args, more: Bytes)
    requires p.phase.ArrayLen? && Addressable(args)
    ensures Parse(p, EncodeCommand(args) + more) == Complete(args, AfterCommand(p, args), more)
  {
    hide EncodeBulks, FindLine, ParseUnsigned;
    var body := EncodeBulks(args) + more;
    var buf := EncodeCommand(args) + more;
    assert buf == [STAR] + Digits(|args|) + CRLF + body;
    LengthLine(STAR, |args|, body);
    if args == [] {
      EncodeNothing();
      assert body == more;
    } else {
      var next := Parser(BulkLen, [], |args|, p.bulkLen);
      assert Transition(p, buf) == Continue(next, body);
      BulksRead(next, args, more);
      assert [] + args == args;
    }
  }

  function EncodePipeline(commands: seq<Args>): Bytes {
    if commands == [] then [] else EncodeCommand(commands[0]) + EncodePipeline(commands[1..])
  }

  function AfterPipeline(p: Parser, commands: seq<Args>): (q: Parser)
    requires p.phase.ArrayLen?
    ensures q.phase.ArrayLen?
    decreases |commands|
  {
    if commands == [] then p else AfterPipeline(AfterCommand(p, commands[0]), commands[1..])
  }

  /** A pipeline of commands is parsed back in order. */
  lemma {:induction false} PipelineRoundTrip(p: Parser, commands: seq<Args>, more: Bytes)
    requires p.phase.ArrayLen? && forall i :: 0 <= i < |commands| ==> Addressable(commands[i])
    ensures Drain(p, EncodePipeline(commands) + more) == Drain(AfterPipeline(p, commands), more).After(commands)
    decreases |commands|
  {
    hide Parse, EncodeCommand;
    if commands == [] {
      assert EncodePipeline(commands) + more == more;
      assert [] + Drain(p, more).commands == Drain(p, more).commands;
    } else {
      var left := EncodePipeline(commands[1..]) + more;
      assert EncodePipeline(commands) + more == EncodeCommand(commands[0]) + left;
      CommandRoundTrip(p, commands[0], left);
      var q := AfterCommand(p, commands[0]);
      PipelineRoundTrip(q, commands[1..], more);
      var last := Drain(AfterPipeline(q, commands[1..]), more).commands;
      assert [commands[0]] + (commands[1..] + last) == commands + last;
    }
  }

  /** ... and however the pipeline is cut into reads, exactly those commands come out. */
  lemma ChunkedPipeline(commands: seq<Args>, chunks: seq<Bytes>)
    requires forall i :: 0 <= i < |commands| ==> Addressable(commands[i])
    requires Flatten(chunks) == EncodePipeline(commands)
    ensures Feed(NEW_PARSER, [], chunks) == Drained(commands, Waiting(AfterPipeline(NEW_PARSER, commands), []))
  {
    ChunkIndependence(chunks, chunks);
    PipelineRoundTrip(NEW_PARSER, commands, []);
    assert EncodePipeline(commands) + [] == EncodePipeline(commands);
    var q := AfterPipeline(NEW_PARSER, commands);
    assert Drain(q, []) == Drained([], Waiting(q, []));
    assert commands + [] == commands;
  }

  // ---------- Replies: server printers, client reader ----------

  lemma ReplyLine(line: Bytes, more: Bytes)
    requires LF !in line
    ensures TakeLine(line + CRLF + more) == Ok(line, more)
  {
    var head := line + CRLF;
    UntilLfPrefix(head, more);
    assert (head + more)[..|line|] == line && (head + more)[|line| + 2..] == more;
  }

  /** A line that hides an LF is cut short, so more than `more` is left over. */
  lemma BrokenLine(line: Bytes, more: Bytes)
    requires LF in line
    ensures var r := TakeLine(line + CRLF + more);
      r.Ok? ==> |r.rest| > |more| && (r.value != [] ==> r.value[0] == line[0])
  {
    var buf := line + CRLF + more;
    var i :| 0 <= i < |line| && line[i] == LF;
    assert buf[i] == LF;
    assert UntilLf(buf) <= i + 1;
  }

  /** A simple string is read back, and exactly it is consumed, iff it holds no LF. */
  lemma SimpleRoundTrip(message: Bytes, more: Bytes)
    ensures ReadValue(RespSimple(message) + more) == Ok(Simple(message), more) <==> LF !in message
  {
    hide TakeLine;
    var line := [PLUS] + message;
    assert RespSimple(message) + more == line + CRLF + more;
    assert line[1..] == message;
    if LF in message {
      BrokenLine(line, more);
    } else {
      ReplyLine(line, more);
    }
  }

  const ERR_PREFIX: Bytes := [69, 82, 82, 32]

  /** An error reply is read back, with its `ERR ` prefix, iff the message holds no LF. */
  lemma ErrorRoundTrip(message: Bytes, more: Bytes)
    ensures ReadValue(RespError(message) + more) == Ok(Error(ERR_PREFIX + message), more) <==> LF !in message
  {
    hide TakeLine;
    var line := [MINUS] + (ERR_PREFIX + message);
    assert RespError(message) + more == line + CRLF + more;
    assert line[1..] == ERR_PREFIX + message;
    if LF in message {
      var i :| 0 <= i < |message| && message[i] == LF;
      assert line[5 + i] == LF;
      BrokenLine(line, more);
    } else {
      ReplyLine(line, more);
    }
  }

  lemma NoLfInDigits(n: nat)
    ensures LF !in Digits(n)
  {}

  /** An integer reply is read back iff it is not `i64::MIN`. */
  lemma IntegerRoundTrip(value: int, more: Bytes)
    requires I64_MIN <= value <= I64_MAX
    ensures ReadValue(RespInteger(value) + more) == Ok(Integer(if value == I64_MIN then -I64_MAX else value), more)
  {
    hide TakeLine, ParseSigned;
    var line := [COLON] + SignedDigits(value);
    NoLfInDigits(if value < 0 then -value else value);
    assert RespInteger(value) + more == line + CRLF + more;
    assert line[1..] == SignedDigits(value);
    ReplyLine(line, more);
    SignedRoundTrip(value);
  }

  /** A bulk reply is read back whatever bytes it holds. */
  lemma BulkRoundTrip(data: Bytes, more: Bytes)
    requires |data| <= ISIZE_MAX
    ensures ReadValue(RespBulk(data) + more) == Ok(Bulk(Some(data)), more)
  {
    hide TakeLine, ParseSigned;
    var line := [DOLLAR] + Digits(|data|);
    var body := data + CRLF + more;
    NoLfInDigits(|data|);
    assert RespBulk(data) + more == line + CRLF + body;
    assert line[1..] == Digits(|data|);
    ReplyLine(line, body);
    SignedRoundTrip(|data|);
    assert SignedDigits(|data|) == Digits(|data|);
    assert body[|data|..|data| + 2] == CRLF && body[..|data|] == data && body[|data| + 2..] == more;
  }

  /** The null reply. */
  lemma NullRoundTrip(more: Bytes)
    ensures ReadValue(RespNull() + more) == Ok(Bulk(None), more)
  {
    hide TakeLine;
    var line := [DOLLAR, MINUS, 49];
    assert RespNull() + more == line + CRLF + more;
    ReplyLine(line, more);
    assert line[1..] == [MINUS, 49] && line[1..][1..] == [49];
    assert DecimalValue([49]) == 1 by {
      assert [49][..0] == [];
    }
  }

  // ---------- Inline commands ----------

  ghost predicate PlainWord(word: Bytes) {
    word != [] && SPACE !in word && LF !in word
  }

  function JoinWords(words: Args): Bytes {
    if words == [] then [] else if |words| == 1 then words[0] else words[0] + [SPACE] + JoinWords(words[1..])
  }

  lemma {:induction false} SplitPlain(word: Bytes, taken: Bytes, more: Bytes)
    requires SPACE !in word
    ensures SplitWords(word + more, taken) == SplitWords(more, taken + word)
    decreases |word|
  {
    if word == [] {
      assert word + more == more && taken + word == taken;
    } else {
      assert (word + more)[1..] == word[1..] + more;
      assert (taken + [word[0]]) + word[1..] == taken + word;
      SplitPlain(word[1..], taken + [word[0]], more);
    }
  }

  lemma {:induction false} SplitJoined(words: Args)
    requires forall i :: 0 <= i < |words| ==> PlainWord(words[i])
    ensures SplitWords(JoinWords(words), []) == words
    ensures LF !in JoinWords(words)
    decreases |words|
  {
    if words != [] {
      var word := words[0];
      assert PlainWord(word);
      assert [] + word == word;
      if |words| == 1 {
        SplitPlain(word, [], []);
        assert word + [] == word;
      } else {
        var others := JoinWords(words[1..]);
        SplitJoined(words[1..]);
        SplitPlain(word, [], [SPACE] + others);
        assert word + ([SPACE] + others) == word + [SPACE] + others;
        assert ([SPACE] + others)[1..] == others;
        assert [word] + words[1..] == words;
      }
    }
  }

  /** A line of words with runs of spaces before, between and after them. */
  function Spaced(gaps: seq<Bytes>, words: Args): Bytes
    requires |gaps| == |words| + 1
  {
    if words == [] then gaps[0] else gaps[0] + words[0] + Spaced(gaps[1..], words[1..])
  }

  ghost predicate AllSpaces(gap: Bytes) {
    forall i :: 0 <= i < |gap| ==> gap[i] == SPACE
  }

  /** Gaps are spaces, and between words there is at least one; words hold no space and are not empty. */
  ghost predicate Separated(gaps: seq<Bytes>, words: Args) {
    && |gaps| == |words| + 1
    && (forall i :: 0 <= i < |gaps| ==> AllSpaces(gaps[i]))
    && (forall i :: 0 < i < |words| ==> gaps[i] != [])
    && (forall i :: 0 <= i < |words| ==> words[i] != [] && SPACE !in words[i])
  }

  lemma {:induction false} SplitGap(gap: Bytes, more: Bytes)
    requires AllSpaces(gap)
    ensures SplitWords(gap + more, []) == SplitWords(more, [])
    decreases |gap|
  {
    if gap == [] {
      assert gap + more == more;
    } else {
      assert (gap + more)[1..] == gap[1..] + more;
      SplitGap(gap[1..], more);
    }
  }

  /** What follows a word is the end of the line or a space. */
  lemma SplitAfterWord(word: Bytes, more: Bytes)
    requires word != [] && SPACE !in word && (more == [] || more[0] == SPACE)
    ensures SplitWords(word + more, []) == [word] + SplitWords(more, [])
  {
    SplitPlain(word, [], more);
    assert [] + word == word;
  }

  lemma {:induction false} SeparatedSplits(gaps: seq<Bytes>, words: Args)
    requires Separated(gaps, words)
    ensures SplitWords(Spaced(gaps, words), []) == words
    decreases |words|
  {
    if words == [] {
      SplitGap(gaps[0], []);
      assert gaps[0] + [] == gaps[0];
    } else {
      var others := Spaced(gaps[1..], words[1..]);
      SeparatedSplits(gaps[1..], words[1..]);
      SplitGap(gaps[0], words[0] + others);
      assert gaps[0] + (words[0] + others) == Spaced(gaps, words);
      assert others == [] || others[0] == SPACE by {
        assert AllSpaces(gaps[1]);
      }
      SplitAfterWord(words[0], others);
      assert [words[0]] + words[1..] == words;
    }
  }

  /** One more space in front. */
  lemma WidenGap(gaps: seq<Bytes>, words: Args) returns (wider: seq<Bytes>)
    requires Separated(gaps, words)
    ensures Separated(wider, words) && Spaced(wider, words) == [SPACE] + Spaced(gaps, words) && wider[0] != []
  {
    wider := [[SPACE] + gaps[0]] + gaps[1..];
    assert wider[1..] == gaps[1..];
    assert AllSpaces(gaps[0]) && AllSpaces(wider[0]);
    assert forall i :: 0 < i < |gaps| ==> wider[i] == gaps[i];
    if words != [] {
      assert ([SPACE] + gaps[0]) + words[0] + Spaced(gaps[1..], words[1..])
          == [SPACE] + (gaps[0] + words[0] + Spaced(gaps[1..], words[1..]));
    }
  }

  /** One more word in front, with nothing before it. */
  lemma PrependWord(word: Bytes, gaps: seq<Bytes>, words: Args)
    requires Separated(gaps, words) && word != [] && SPACE !in word && (words != [] ==> gaps[0] != [])
    ensures Separated([[]] + gaps, [word] + words)
    ensures Spaced([[]] + gaps, [word] + words) == word + Spaced(gaps, words)
  {
    var all, more := [word] + words, [[]] + gaps;
    assert more[1..] == gaps && all[1..] == words;
    assert forall i :: 0 < i < |more| ==> more[i] == gaps[i - 1];
    assert forall i :: 0 < i < |all| ==> all[i] == words[i - 1];
    assert [] + word == word;
  }

  lemma NoWords()
    ensures Separated([[]], []) && Spaced([[]], []) == []
  {}

  /** The gaps of a line; `word` is the part of its first word already passed. */
  lemma {:induction false} SplitSeparates(line: Bytes, word: Bytes) returns (gaps: seq<Bytes>)
    requires SPACE !in word
    ensures Separated(gaps, SplitWords(line, word)) && Spaced(gaps, SplitWords(line, word)) == word + line
    decreases |line|
  {
    hide Separated, Spaced;
    if line == [] {
      NoWords();
      gaps := [[]];
      if word != [] {
        PrependWord(word, gaps, []);
        gaps := [[]] + gaps;
        assert [word] + [] == [word] && word + [] == word;
      }
    } else if line[0] == SPACE {
      var later := SplitSeparates(line[1..], []);
      var words := SplitWords(line[1..], []);
      gaps := WidenGap(later, words);
      assert [SPACE] + ([] + line[1..]) == line;
      if word != [] {
        PrependWord(word, gaps, words);
        gaps := [[]] + gaps;
      } else {
        assert [] + words == words;
      }
    } else {
      gaps := SplitSeparates(line[1..], word + [line[0]]);
      assert word + line == (word + [line[0]]) + line[1..];
    }
  }

  /**
    The words of any line, exactly: they are its maximal runs of bytes other
    than spaces, in order, however many spaces stand around them.
   */
  lemma SplitIff(line: Bytes, words: Args)
    ensures SplitWords(line, []) == words <==> exists gaps :: Separated(gaps, words) && Spaced(gaps, words) == line
  {
    if SplitWords(line, []) == words {
      var gaps := SplitSeparates(line, []);
      assert [] + line == line;
    }
    if gaps :| Separated(gaps, words) && Spaced(gaps, words) == line {
      SeparatedSplits(gaps, words);
    }
  }

  /** Words typed on one line come out as the arguments of one command. */
  lemma InlineRoundTrip(p: Parser, words: Args, more: Bytes)
    requires p.phase.ArrayLen? && words != [] && words[0] != [] && words[0][0] != STAR
    requires forall i :: 0 <= i < |words| ==> PlainWord(words[i])
    ensures Parse(p, JoinWords(words) + CRLF + more) == Complete(words, p, more)
  {
    hide FindLine;
    SplitJoined(words);
    assert JoinWords(words)[0] == words[0][0];
    LineFound(JoinWords(words), more);
  }
}
