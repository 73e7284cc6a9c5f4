/**
  The language the server's parser accepts, stated over the bytes: which
  streams hold a command, which are refused, and which are still incomplete.
 */
module Grammar {
  import opened Prelude
  import opened Decimal
  import opened Protocol
  import opened RoundTrip

  // ---------- Words of the grammar ----------

  /** One or more digits. */
  predicate Numeral(text: Bytes) {
    text != [] && AllDigits(text)
  }

  /** The number a header announces; numbers too large for `usize` saturate. */
  function Announced(digits: Bytes): nat
    requires Numeral(digits)
  {
    Min(DecimalValue(digits), USIZE_MAX)
  }

  /** The first line of a buffer that holds a whole one, without its CR LF. */
  function LineOf(buf: Bytes): Option<Bytes> {
    var i := FindLine(buf, 0);
    if i.Some? then Some(buf[..i.value]) else None
  }

  function AfterLine(buf: Bytes): Bytes
    requires LineOf(buf).Some?
  {
    buf[FindLine(buf, 0).value + 2..]
  }

  predicate IsHeader(line: Bytes, first: byte) {
    line != [] && line[0] == first && Numeral(line[1..])
  }

  /** A bulk string: `$`, its length in digits, CR LF, its bytes, CR LF. */
  ghost predicate BulkText(piece: Bytes, data: Bytes) {
    |data| + 2 <= USIZE_MAX && exists digits :: BulkWith(digits, piece, data)
  }

  predicate BulkWith(digits: Bytes, piece: Bytes, data: Bytes) {
    Numeral(digits) && DecimalValue(digits) == |data| && piece == [DOLLAR] + digits + CRLF + data + CRLF
  }

  /** A complete header line that is not `$` and digits, or data not followed by CR LF. */
  predicate BadBulk(buf: Bytes) {
    && LineOf(buf).Some?
    && var line := LineOf(buf).value;
       || !IsHeader(line, DOLLAR)
       || (var len := Announced(line[1..]);
           len + 2 <= |AfterLine(buf)| && len + 2 <= USIZE_MAX && AfterLine(buf)[len..len + 2] != CRLF)
  }

  /** A header whose length plus two wraps around. */
  predicate HugeBulk(buf: Bytes) {
    && LineOf(buf).Some?
    && var line := LineOf(buf).value;
       && IsHeader(line, DOLLAR)
       && Announced(line[1..]) + 2 > USIZE_MAX
       && (Announced(line[1..]) + 2) % TWO_64 <= |AfterLine(buf)|
  }

  ghost predicate Bulks(pieces: seq<Bytes>, args: Args) {
    |pieces| == |args| && forall i :: 0 <= i < |args| ==> BulkText(pieces[i], args[i])
  }

  lemma BulksUnfold(pieces: seq<Bytes>, args: Args)
    requires Bulks(pieces, args) && args != []
    ensures BulkText(pieces[0], args[0]) && Bulks(pieces[1..], args[1..])
  {}

  lemma BulksPrepend(piece: Bytes, data: Bytes, pieces: seq<Bytes>, args: Args)
    requires BulkText(piece, data) && Bulks(pieces, args)
    ensures Bulks([piece] + pieces, [data] + args)
    ensures Flatten([piece] + pieces) == piece + Flatten(pieces)
  {
    assert ([piece] + pieces)[1..] == pieces;
  }

  // ---------- One bulk string ----------

  lemma HeaderFound(first: byte, digits: Bytes, more: Bytes)
    requires first != CR && Numeral(digits)
    ensures var buf := [first] + digits + CRLF + more;
      && LineOf(buf) == Some([first] + digits) && AfterLine(buf) == more
      && FindLine(buf, 0) == Some(1 + |digits|)
      && IsHeader([first] + digits, first) && ([first] + digits)[1..] == digits
  {
    LineFound([first] + digits, more);
  }

  /** A good header line announces its length. */
  lemma HeaderTaken(p: Parser, buf: Bytes)
    requires p.WellFormed() && p.phase.BulkLen? && LineOf(buf).Some?
    ensures var line := LineOf(buf).value;
      Transition(p, buf) ==
        if IsHeader(line, DOLLAR) then Continue(p.(phase := BulkData, bulkLen := Announced(line[1..])), AfterLine(buf))
        else Malformed
  {
    hide FindLine;
  }

  /** A well-formed bulk string is taken as one argument. */
  lemma BulkTaken(p: Parser, piece: Bytes, data: Bytes, more: Bytes)
    requires p.WellFormed() && p.phase.BulkLen? && BulkText(piece, data)
    ensures Parse(p, piece + more) ==
      if p.remaining == 1 then Complete(p.args + [data], Parser(ArrayLen, [], 0, |data|), more)
      else Parse(Parser(BulkLen, p.args + [data], p.remaining - 1, |data|), more)
  {
    hide Transition, Numeral, LineOf, AfterLine, IsHeader;
    var digits :| BulkWith(digits, piece, data);
    var body := data + CRLF + more;
    HeaderFound(DOLLAR, digits, body);
    assert piece + more == [DOLLAR] + digits + CRLF + body;
    HeaderTaken(p, piece + more);
    BulkDataRead(p.(phase := BulkData, bulkLen := |data|), data, more);
  }

  /** What the data step makes of the bytes after a header. */
  lemma DataCases(p: Parser, body: Bytes)
    requires p.WellFormed() && p.phase.BulkData?
    ensures p.bulkLen + 2 <= USIZE_MAX && |body| < p.bulkLen + 2 ==> Parse(p, body).Incomplete?
    ensures p.bulkLen + 2 <= USIZE_MAX && |body| >= p.bulkLen + 2 && body[p.bulkLen..p.bulkLen + 2] != CRLF ==>
      Parse(p, body) == ProtocolError
    ensures p.bulkLen + 2 > USIZE_MAX ==>
      Parse(p, body) == if |body| >= (p.bulkLen + 2) % TWO_64 then Panic else Incomplete(p, body)
  {
    if p.bulkLen + 2 <= |body| {
      assert body[p.bulkLen..p.bulkLen + 2] == [body[p.bulkLen], body[p.bulkLen + 1]];
    }
  }

  /** The ways a buffer fails to start with a whole bulk string. */
  lemma BulkNotTaken(p: Parser, buf: Bytes)
    requires p.WellFormed() && p.phase.BulkLen?
    ensures BadBulk(buf) ==> Parse(p, buf) == ProtocolError
    ensures HugeBulk(buf) ==> Parse(p, buf) == Panic
    ensures LineOf(buf).None? ==> Parse(p, buf) == Incomplete(p, buf)
  {
    if LineOf(buf).Some? {
      HeaderTaken(p, buf);
      hide Transition, LineOf, AfterLine, Numeral, IsHeader;
      var line := LineOf(buf).value;
      if IsHeader(line, DOLLAR) {
        DataCases(p.(phase := BulkData, bulkLen := Announced(line[1..])), AfterLine(buf));
      }
    }
  }

  /** A buffer whose header is good and whose data is terminated starts with a bulk string. */
  lemma BulkSplits(buf: Bytes) returns (piece: Bytes, data: Bytes, more: Bytes)
    requires LineOf(buf).Some? && IsHeader(LineOf(buf).value, DOLLAR)
    requires var len := Announced(LineOf(buf).value[1..]);
      len + 2 <= USIZE_MAX && len + 2 <= |AfterLine(buf)| && AfterLine(buf)[len..len + 2] == CRLF
    ensures BulkText(piece, data) && buf == piece + more && |more| < |buf|
  {
    hide LineOf, AfterLine;
    var line, body := LineOf(buf).value, AfterLine(buf);
    var len := Announced(line[1..]);
    LineSplits(buf);
    data, more := body[..len], body[len + 2..];
    piece := [DOLLAR] + line[1..] + CRLF + data + CRLF;
    assert BulkWith(line[1..], piece, data);
    assert line == [DOLLAR] + line[1..];
    assert body == data + CRLF + more;
    assert buf == piece + more;
  }

  /** Every buffer starts with a whole bulk string, or with a bad or huge one, or with an incomplete one. */
  lemma BulkCases(p: Parser, buf: Bytes) returns (good: bool, piece: Bytes, data: Bytes, more: Bytes)
    requires p.WellFormed() && p.phase.BulkLen?
    ensures good ==> BulkText(piece, data) && buf == piece + more && |more| < |buf|
    ensures !good && !BadBulk(buf) && !HugeBulk(buf) ==> Parse(p, buf).Incomplete?
  {
    hide BulkText, Numeral, Transition, LineOf, AfterLine;
    good, piece, data, more := false, [], [], [];
    BulkNotTaken(p, buf);
    if LineOf(buf).Some? && IsHeader(LineOf(buf).value, DOLLAR) {
      var body, len := AfterLine(buf), Announced(LineOf(buf).value[1..]);
      if len + 2 <= USIZE_MAX && len + 2 <= |body| && body[len..len + 2] == CRLF {
        good := true;
        piece, data, more := BulkSplits(buf);
      } else {
        HeaderTaken(p, buf);
        DataCases(p.(phase := BulkData, bulkLen := len), body);
      }
    }
  }

  lemma LineSplits(buf: Bytes)
    requires LineOf(buf).Some?
    ensures buf == LineOf(buf).value + CRLF + AfterLine(buf)
  {
    var i := FindLine(buf, 0).value;
    assert EndsAt(buf, i);
    assert buf == buf[..i] + [buf[i], buf[i + 1]] + buf[i + 2..];
  }

  // ---------- The arguments of a frame ----------

  /** The bulk strings a buffer starts with, up to as many as are expected, and what that makes of it. */
  lemma {:induction false} FrameOf(p: Parser, buf: Bytes) returns (pieces: seq<Bytes>, args: Args, tail: Bytes)
    requires p.WellFormed() && p.phase.BulkLen?
    ensures Bulks(pieces, args) && buf == Flatten(pieces) + tail && |args| <= p.remaining
    ensures |args| == p.remaining ==>
      Parse(p, buf).Complete? && Parse(p, buf).args == p.args + args && Parse(p, buf).rest == tail
    ensures |args| < p.remaining ==>
      if BadBulk(tail) then Parse(p, buf) == ProtocolError
      else if HugeBulk(tail) then Parse(p, buf) == Panic
      else Parse(p, buf).Incomplete?
    decreases |buf|
  {
    hide Parse, BulkText, BadBulk, HugeBulk;
    var good, piece, data, more := BulkCases(p, buf);
    BulkNotTaken(p, buf);
    if !good {
      pieces, args, tail := [], [], buf;
      assert Flatten(pieces) + tail == buf;
    } else {
      BulkTaken(p, piece, data, more);
      if p.remaining == 1 {
        pieces, args, tail := [piece], [data], more;
        BulksPrepend(piece, data, [], []);
        assert [piece] + [] == [piece] && [data] + [] == [data] && piece + [] == piece;
      } else {
        var q := Parser(BulkLen, p.args + [data], p.remaining - 1, |data|);
        pieces, args, tail := FrameOf(q, more);
        BulksPrepend(piece, data, pieces, args);
        assert buf == (piece + Flatten(pieces)) + tail;
        assert q.args + args == p.args + ([data] + args);
        pieces, args := [piece] + pieces, [data] + args;
      }
    }
  }

  /** And conversely: what the parser makes of given bulk strings and what follows them. */
  lemma {:induction false} FrameParsed(p: Parser, pieces: seq<Bytes>, args: Args, tail: Bytes)
    requires p.WellFormed() && p.phase.BulkLen? && Bulks(pieces, args) && |args| <= p.remaining
    ensures var r := Parse(p, Flatten(pieces) + tail);
      && (|args| == p.remaining ==> r.Complete? && r.args == p.args + args && r.rest == tail)
      && (|args| < p.remaining ==> (BadBulk(tail) ==> r == ProtocolError) && (HugeBulk(tail) ==> r == Panic))
    decreases |args|
  {
    hide Parse, BulkText, BadBulk, HugeBulk;
    if args == [] {
      assert Flatten(pieces) + tail == tail;
      BulkNotTaken(p, tail);
    } else {
      BulksUnfold(pieces, args);
      var more := Flatten(pieces[1..]) + tail;
      assert Flatten(pieces) + tail == pieces[0] + more;
      BulkTaken(p, pieces[0], args[0], more);
      assert args == [args[0]] + args[1..];
      if p.remaining > 1 {
        var q := Parser(BulkLen, p.args + [args[0]], p.remaining - 1, |args[0]|);
        FrameParsed(q, pieces[1..], args[1..], tail);
        assert q.args + args[1..] == p.args + args;
      } else {
        assert pieces[1..] == [] && args[1..] == [] && more == tail;
      }
    }
  }

  // ---------- Commands ----------

  /** An array command: `*`, the number of arguments, CR LF, and that many bulk strings. */
  ghost predicate ArrayCommand(text: Bytes, args: Args) {
    exists digits, pieces :: ArrayWith(digits, pieces, text, args)
  }

  ghost predicate ArrayWith(digits: Bytes, pieces: seq<Bytes>, text: Bytes, args: Args) {
    && Numeral(digits) && Announced(digits) == |args|
    && Bulks(pieces, args)
    && text == [STAR] + digits + CRLF + Flatten(pieces)
  }

  /** An inline command: one line, not starting with `*`, that holds at least one word. */
  ghost predicate InlineCommand(text: Bytes, args: Args) {
    exists line :: InlineWith(line, text, args)
  }

  ghost predicate InlineWith(line: Bytes, text: Bytes, args: Args) {
    && text == line + CRLF && FindLine(text, 0) == Some(|line|)
    && (line != [] ==> line[0] != STAR)
    && args == SplitWords(line, []) && args != []
  }

  ghost predicate CommandText(text: Bytes, args: Args) {
    ArrayCommand(text, args) || InlineCommand(text, args)
  }

  /** `*` followed by something other than digits. */
  predicate BadHeader(buf: Bytes) {
    LineOf(buf).Some? && LineOf(buf).value != [] && LineOf(buf).value[0] == STAR && !Numeral(LineOf(buf).value[1..])
  }

  /** A line without a single byte other than spaces. */
  predicate BlankLine(buf: Bytes) {
    LineOf(buf).Some? && forall i :: 0 <= i < |LineOf(buf).value| ==> LineOf(buf).value[i] == SPACE
  }

  /** An array header, fewer well-formed bulk strings than it announces, and then `tail`. */
  ghost predicate BreaksOff(buf: Bytes, digits: Bytes, pieces: seq<Bytes>, args: Args, tail: Bytes) {
    && Numeral(digits) && |args| < Announced(digits)
    && Bulks(pieces, args)
    && buf == [STAR] + digits + CRLF + Flatten(pieces) + tail
  }

  /** A stream the parser refuses. */
  ghost predicate Refusable(buf: Bytes) {
    || BadHeader(buf)
    || BlankLine(buf)
    || (exists digits, pieces, args, tail :: BreaksOff(buf, digits, pieces, args, tail) && BadBulk(tail))
  }

  /** A stream on which the parser panics. */
  ghost predicate Overflows(buf: Bytes) {
    exists digits, pieces, args, tail :: BreaksOff(buf, digits, pieces, args, tail) && HugeBulk(tail)
  }

  lemma {:induction false} NoWordsIff(line: Bytes, word: Bytes)
    ensures SplitWords(line, word) == [] <==> word == [] && forall i :: 0 <= i < |line| ==> line[i] == SPACE
    decreases |line|
  {
    if line != [] {
      NoWordsIff(line[1..], if line[0] == SPACE then [] else word + [line[0]]);
      assert forall i :: 0 < i < |line| ==> line[i] == line[1..][i - 1];
    }
  }

  // ---------- From the start of a command ----------

  lemma InlineParsed(p: Parser, buf: Bytes)
    requires p.phase.ArrayLen? && LineOf(buf).Some? && (LineOf(buf).value != [] ==> LineOf(buf).value[0] != STAR)
    ensures var words := SplitWords(LineOf(buf).value, []);
      Parse(p, buf) == if words == [] then ProtocolError else Complete(words, p, AfterLine(buf))
  {
    hide FindLine, SplitWords;
  }

  lemma HeaderParsed(p: Parser, buf: Bytes)
    requires p.phase.ArrayLen? && LineOf(buf).Some? && LineOf(buf).value != [] && LineOf(buf).value[0] == STAR
    ensures var digits := LineOf(buf).value[1..];
      Parse(p, buf) ==
        if !Numeral(digits) then ProtocolError
        else if Announced(digits) == 0 then Complete([], Parser(ArrayLen, [], 0, p.bulkLen), AfterLine(buf))
        else Parse(Parser(BulkLen, [], Announced(digits), p.bulkLen), AfterLine(buf))
  {
    hide FindLine, SplitWords;
  }

  lemma HeaderSplits(digits: Bytes, more: Bytes)
    requires Numeral(digits)
    ensures var buf := [STAR] + digits + CRLF + more;
      LineOf(buf) == Some([STAR] + digits) && AfterLine(buf) == more && ([STAR] + digits)[1..] == digits
  {
    HeaderFound(STAR, digits, more);
  }

  /** A command text is parsed as its arguments, and what follows stays unread. */
  lemma CommandParsed(p: Parser, text: Bytes, args: Args, more: Bytes)
    requires p.phase.ArrayLen? && CommandText(text, args)
    ensures var r := Parse(p, text + more);
      r.Complete? && r.args == args && r.rest == more && r.parser.phase.ArrayLen?
  {
    hide Parse, FindLine, SplitWords, Numeral;
    if ArrayCommand(text, args) {
      var digits, pieces :| ArrayWith(digits, pieces, text, args);
      HeaderSplits(digits, Flatten(pieces) + more);
      assert text + more == [STAR] + digits + CRLF + (Flatten(pieces) + more);
      HeaderParsed(p, text + more);
      if args == [] {
        assert Flatten(pieces) + more == more;
      } else {
        var q := Parser(BulkLen, [], |args|, p.bulkLen);
        FrameParsed(q, pieces, args, more);
        assert q.args + args == args;
        CompleteEndsFrame(q, Flatten(pieces) + more);
      }
    } else {
      var line :| InlineWith(line, text, args);
      FindLineStable(text, more);
      assert (text + more)[..|line|] == line && (text + more)[|line| + 2..] == more;
      InlineParsed(p, text + more);
    }
  }

  lemma {:induction false} CompleteEndsFrame(p: Parser, buf: Bytes)
    requires p.WellFormed() && !p.phase.ArrayLen?
    ensures Parse(p, buf).Complete? ==> Parse(p, buf).parser.phase.ArrayLen?
    decreases |buf|
  {
    hide Transition;
    TransitionKeepsSize(p, buf);
    var m := Transition(p, buf);
    if m.Continue? {
      CompleteEndsFrame(m.parser, m.rest);
    }
  }

  /** What a buffer starts with: a whole command, something refused, an overflow, or less than a command. */
  lemma Classified(p: Parser, buf: Bytes) returns (text: Bytes)
    requires p.phase.ArrayLen?
    ensures match Parse(p, buf)
      case Complete(args, _, rest) => CommandText(text, args) && buf == text + rest
      case ProtocolError => Refusable(buf)
      case Panic => Overflows(buf)
      case Incomplete(_, _) => true
  {
    hide Parse, FindLine, SplitWords, Numeral, BadBulk, HugeBulk;
    text := [];
    if LineOf(buf).None? {
      NoLineYet(p, buf);
    } else {
      LineSplits(buf);
      var line, after := LineOf(buf).value, AfterLine(buf);
      if line != [] && line[0] == STAR {
        var digits := line[1..];
        assert line == [STAR] + digits;
        HeaderParsed(p, buf);
        if Numeral(digits) && Announced(digits) > 0 {
          var pieces, args, tail := FrameOf(Parser(BulkLen, [], Announced(digits), p.bulkLen), after);
          assert [] + args == args;
          text := line + CRLF + Flatten(pieces);
          assert buf == text + tail;
          if |args| == Announced(digits) {
            assert ArrayWith(digits, pieces, text, args);
          } else {
            assert BreaksOff(buf, digits, pieces, args, tail);
          }
        } else if Numeral(digits) {
          text := line + CRLF;
          assert text == [STAR] + digits + CRLF + Flatten([]);
          assert ArrayWith(digits, [], text, []);
        }
      } else {
        InlineParsed(p, buf);
        NoWordsIff(line, []);
        text := line + CRLF;
        LineAlone(buf);
        if SplitWords(line, []) != [] {
          assert InlineWith(line, text, SplitWords(line, []));
        }
      }
    }
  }

  lemma NoLineYet(p: Parser, buf: Bytes)
    requires p.phase.ArrayLen? && LineOf(buf).None?
    ensures Parse(p, buf) == Incomplete(p, buf)
  {}

  lemma LineAlone(buf: Bytes)
    requires LineOf(buf).Some?
    ensures FindLine(LineOf(buf).value + CRLF, 0) == Some(|LineOf(buf).value|)
  {
    LineSplits(buf);
    var line := LineOf(buf).value;
    var text := line + CRLF;
    assert EndsAt(text, |line|);
    assert forall j :: 0 <= j < |line| ==> EndsAt(text, j) == EndsAt(buf, j) by {
      assert forall j :: 0 <= j < |text| ==> text[j] == buf[j];
    }
  }

  /** A refusable stream is refused, and one that overflows panics. */
  lemma RefusableRefused(p: Parser, buf: Bytes)
    requires p.phase.ArrayLen?
    ensures Refusable(buf) ==> Parse(p, buf) == ProtocolError
    ensures Overflows(buf) ==> Parse(p, buf) == Panic
  {
    hide Parse, FindLine, SplitWords, Numeral, BadBulk, HugeBulk;
    if BadHeader(buf) {
      HeaderParsed(p, buf);
    }
    if BlankLine(buf) {
      NoWordsIff(LineOf(buf).value, []);
      InlineParsed(p, buf);
    }
    forall digits, pieces, args, tail | BreaksOff(buf, digits, pieces, args, tail)
      ensures BadBulk(tail) ==> Parse(p, buf) == ProtocolError
      ensures HugeBulk(tail) ==> Parse(p, buf) == Panic
    {
      BreakParsed(p, buf, digits, pieces, args, tail);
    }
  }

  lemma BreakParsed(p: Parser, buf: Bytes, digits: Bytes, pieces: seq<Bytes>, args: Args, tail: Bytes)
    requires p.phase.ArrayLen? && BreaksOff(buf, digits, pieces, args, tail)
    ensures BadBulk(tail) ==> Parse(p, buf) == ProtocolError
    ensures HugeBulk(tail) ==> Parse(p, buf) == Panic
  {
    hide Parse, Numeral, BadBulk, HugeBulk, FindLine;
    HeaderSplits(digits, Flatten(pieces) + tail);
    assert buf == [STAR] + digits + CRLF + (Flatten(pieces) + tail);
    HeaderParsed(p, buf);
    FrameParsed(Parser(BulkLen, [], Announced(digits), p.bulkLen), pieces, args, tail);
  }

  /**
    The parser refuses a stream, from the start of a command, exactly if: its
    header is `*` and something other than digits; or its first line is blank;
    or after a good header and good bulk strings, fewer than announced, comes a
    complete header line that is not `$` and digits, or data not followed by
    CR LF.
   */
  lemma RefusedIff(p: Parser, buf: Bytes)
    requires p.phase.ArrayLen?
    ensures Parse(p, buf) == ProtocolError <==> Refusable(buf)
    ensures Parse(p, buf) == Panic <==> Overflows(buf)
  {
    hide Parse, Refusable, Overflows;
    RefusableRefused(p, buf);
    var text := Classified(p, buf);
  }

  /**
    The parser yields a command and leaves the rest exactly if the stream is the
    text of that command followed by the rest: an array header and as many bulk
    strings as it announces, or an inline line with at least one word.
   */
  lemma CompleteIff(p: Parser, buf: Bytes, args: Args, rest: Bytes)
    requires p.phase.ArrayLen?
    ensures (Parse(p, buf).Complete? && Parse(p, buf).args == args && Parse(p, buf).rest == rest)
      <==> exists text :: CommandText(text, args) && buf == text + rest
  {
    hide Parse, CommandText, Refusable, Overflows;
    var text := Classified(p, buf);
    if text' :| CommandText(text', args) && buf == text' + rest {
      CommandParsed(p, text', args, rest);
    }
  }

  // ---------- Whole streams ----------

  ghost predicate CommandTexts(texts: seq<Bytes>, commands: seq<Args>) {
    |texts| == |commands| && forall i :: 0 <= i < |texts| ==> CommandText(texts[i], commands[i])
  }

  /**
    What the connection loop makes of a stream: it is the texts of the commands
    served, one after the other, and a rest that holds no whole command; the
    connection is refused exactly if that rest is refusable.
   */
  lemma {:induction false} StreamMeaning(p: Parser, buf: Bytes) returns (texts: seq<Bytes>, rest: Bytes)
    requires p.phase.ArrayLen?
    ensures var d := Drain(p, buf);
      && CommandTexts(texts, d.commands)
      && buf == Flatten(texts) + rest
      && (d.ending.Refused? <==> Refusable(rest))
      && (d.ending.Crashed? <==> Overflows(rest))
      && !exists text, args, more :: CommandText(text, args) && rest == text + more
    decreases |buf|
  {
    hide Parse, CommandText, Refusable, Overflows;
    RefusedIff(p, buf);
    var text := Classified(p, buf);
    match Parse(p, buf) {
      case Complete(args, q, more) =>
        CommandParsed(p, text, args, more);
        texts, rest := StreamMeaning(q, more);
        assert ([text] + texts)[1..] == texts;
        assert buf == (text + Flatten(texts)) + rest;
        texts := [text] + texts;
      case _ =>
        texts, rest := [], buf;
        assert Flatten(texts) + rest == buf;
        forall text, args, more | CommandText(text, args) && rest == text + more
          ensures false
        {
          CommandParsed(p, text, args, more);
        }
    }
  }
}
