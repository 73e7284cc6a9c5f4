/**
  The language the client's reply reader accepts, stated over the bytes: which
  text stands for which value, and what it makes of a text cut short.
 */
module ReplyGrammar {
  import opened Prelude
  import opened Decimal
  import opened Protocol
  import opened ClientResp
  import opened RoundTrip

  /**
    The text of a signed number: digits, with an optional minus sign in front.
    Magnitudes clamp to `i64::MAX`, and a lone minus sign stands for zero.
   */
  predicate NumberText(text: Bytes, n: int) {
    && text != []
    && if text[0] == MINUS then AllDigits(text[1..]) && n == -Min(DecimalValue(text[1..]), I64_MAX)
       else AllDigits(text) && n == Min(DecimalValue(text), I64_MAX)
  }

  lemma NumberIff(text: Bytes, n: int)
    ensures ParseSigned(text) == Some(n) <==> NumberText(text, n)
  {}

  /** A header line: its first byte, a number, CR LF. */
  ghost predicate Header(line: Bytes, first: byte, n: int) {
    exists digits :: NumberText(digits, n) && line == [first] + digits + CRLF
  }

  /** `text` stands for the value `v`. */
  ghost predicate Spells(text: Bytes, v: RespValue)
    decreases v
  {
    match v
    case Simple(words) => LF !in words && text == [PLUS] + words + CRLF
    case Error(words) => LF !in words && text == [MINUS] + words + CRLF
    case Integer(n) => Header(text, COLON, n)
    case Bulk(None) => exists n :: n < 0 && Header(text, DOLLAR, n)
    case Bulk(Some(data)) => exists line :: Header(line, DOLLAR, |data|) && text == line + data + CRLF
    case Array(items) =>
      exists n, line, texts: seq<Bytes> ::
        && Header(line, STAR, n)
        && |texts| == |items| == Max(n, 0)
        && (forall i :: 0 <= i < |items| ==> Spells(texts[i], items[i]))
        && text == line + Flatten(texts)
  }

  ghost predicate SpellEach(texts: seq<Bytes>, items: seq<RespValue>) {
    |texts| == |items| && forall i :: 0 <= i < |items| ==> Spells(texts[i], items[i])
  }

  // ---------- Every text is read as what it stands for ----------

  lemma HeaderRead(line: Bytes, first: byte, n: int, more: Bytes)
    requires Header(line, first, n) && first != LF
    ensures var r := TakeLine(line + more);
      && r.Ok? && r.rest == more && r.value != [] && r.value[0] == first && ParseSigned(r.value[1..]) == Some(n)
  {
    var digits :| NumberText(digits, n) && line == [first] + digits + CRLF;
    var head := [first] + digits;
    assert digits[0] == MINUS ==> digits == [MINUS] + digits[1..];
    assert LF !in digits;
    ReplyLine(head, more);
    assert head[1..] == digits;
    NumberIff(digits, n);
  }

  /** What the reader does with a line, by its first byte and the number after it. */
  lemma LineRead(input: Bytes)
    requires TakeLine(input).Ok? && TakeLine(input).value != []
    ensures var Ok(line, rest) := TakeLine(input);
      var n := ParseSigned(line[1..]);
      && (line[0] == PLUS ==> ReadValue(input) == Ok(Simple(line[1..]), rest))
      && (line[0] == MINUS ==> ReadValue(input) == Ok(Error(line[1..]), rest))
      && (line[0] == COLON && n.Some? ==> ReadValue(input) == Ok(Integer(n.value), rest))
      && (line[0] == DOLLAR && n.Some? ==> ReadValue(input) == TakeBulk(rest, n.value))
      && (line[0] == STAR && n.Some? && n.value <= 0 ==> ReadValue(input) == Ok(Array([]), rest))
      && (line[0] == STAR && n.Some? && n.value > 0 && ReadItems(rest, n.value).Ok? ==>
            ReadValue(input) == Ok(Array(ReadItems(rest, n.value).value), ReadItems(rest, n.value).rest))
  {
    hide TakeLine, ParseSigned, IsTail, TakeBulk, ReadItems;
  }

  lemma ItemsRead(input: Bytes, n: nat)
    requires n > 0 && ReadValue(input).Ok? && ReadItems(ReadValue(input).rest, n - 1).Ok?
    ensures var Ok(items, left) := ReadItems(ReadValue(input).rest, n - 1);
      ReadItems(input, n) == Ok([ReadValue(input).value] + items, left)
  {
    hide ReadValue, IsTail;
  }

  lemma BulkRead(data: Bytes, more: Bytes)
    ensures TakeBulk(data + CRLF + more, |data|) == Ok(Bulk(Some(data)), more)
  {
    var body := data + CRLF + more;
    assert body[|data|..|data| + 2] == CRLF && body[..|data|] == data && body[|data| + 2..] == more;
  }

  lemma {:induction false} SpelledRead(text: Bytes, v: RespValue, more: Bytes)
    requires Spells(text, v)
    ensures ReadValue(text + more) == Ok(v, more)
    decreases v, 0
  {
    hide TakeLine, ParseSigned, IsTail, Header, ReadValue, ReadItems, TakeBulk;
    match v {
      case Simple(words) =>
        ReplyLine([PLUS] + words, more);
        assert ([PLUS] + words)[1..] == words;
      case Error(words) =>
        ReplyLine([MINUS] + words, more);
        assert ([MINUS] + words)[1..] == words;
      case Integer(n) =>
        HeaderRead(text, COLON, n, more);
      case Bulk(None) =>
        var n :| n < 0 && Header(text, DOLLAR, n);
        HeaderRead(text, DOLLAR, n, more);
        NoBulk(more, n);
      case Bulk(Some(data)) =>
        var line :| Header(line, DOLLAR, |data|) && text == line + data + CRLF;
        HeaderRead(line, DOLLAR, |data|, data + CRLF + more);
        assert text + more == line + (data + CRLF + more);
        BulkRead(data, more);
      case Array(items) =>
        var n, line, texts: seq<Bytes> :| Header(line, STAR, n) && |texts| == |items| == Max(n, 0)
          && (forall i :: 0 <= i < |items| ==> Spells(texts[i], items[i])) && text == line + Flatten(texts);
        HeaderRead(line, STAR, n, Flatten(texts) + more);
        assert text + more == line + (Flatten(texts) + more);
        SpelledItemsRead(texts, items, more);
        if n <= 0 {
          assert Flatten(texts) + more == more;
        }
    }
    LineRead(text + more);
  }

  lemma NoBulk(more: Bytes, n: int)
    requires n < 0
    ensures TakeBulk(more, n) == Ok(Bulk(None), more)
  {}

  lemma {:induction false} SpelledItemsRead(texts: seq<Bytes>, items: seq<RespValue>, more: Bytes)
    requires SpellEach(texts, items)
    ensures ReadItems(Flatten(texts) + more, |items|) == Ok(items, more)
    decreases items
  {
    hide ReadValue, Spells, ReadItems, SpellEach;
    EachUnfolds(texts, items);
    if items == [] {
      NoItems(more);
      assert Flatten(texts) + more == more;
    } else {
      var later := Flatten(texts[1..]) + more;
      assert Flatten(texts) + more == texts[0] + later;
      SpelledRead(texts[0], items[0], later);
      SpelledItemsRead(texts[1..], items[1..], more);
      ItemsRead(texts[0] + later, |items|);
      assert items == [items[0]] + items[1..];
    }
  }

  lemma EachUnfolds(texts: seq<Bytes>, items: seq<RespValue>)
    requires SpellEach(texts, items)
    ensures |texts| == |items|
    ensures items != [] ==> Spells(texts[0], items[0]) && SpellEach(texts[1..], items[1..])
  {
    hide Spells;
  }

  // ---------- Everything read is such a text ----------

  /** The bytes with the last one made LF: the reader does not look at it at the end of the stream. */
  function Closed(s: Bytes): Bytes
    requires s != []
  {
    s[..|s| - 1] + [LF]
  }

  lemma ClosedIsSame(s: Bytes)
    requires EndsInLf(s)
    ensures Closed(s) == s
  {}

  lemma ClosedAfter(head: Bytes, tail: Bytes)
    requires tail != []
    ensures Closed(head + tail) == head + Closed(tail)
  {
    assert (head + tail)[..|head + tail| - 1] == head + tail[..|tail| - 1];
  }

  lemma LineTaken(input: Bytes)
    requires TakeLine(input).Ok?
    ensures var line, head := TakeLine(input).value, Taken(input, TakeLine(input));
      head != [] && Closed(head) == line + CRLF && LF !in line && input == head + TakeLine(input).rest
  {
    var n := UntilLf(input);
    var line := TakeLine(input).value;
    assert Taken(input, TakeLine(input)) == input[..n];
    assert forall i :: 0 <= i < |line| ==> line[i] == input[i] != LF;
    assert Closed(input[..n]) == input[..n - 2] + [input[n - 2], LF];
  }

  lemma HeaderTaken(line: Bytes)
    requires line != [] && ParseSigned(line[1..]).Some?
    ensures Header(line + CRLF, line[0], ParseSigned(line[1..]).value)
  {
    NumberIff(line[1..], ParseSigned(line[1..]).value);
    assert line == [line[0]] + line[1..];
  }

  lemma NothingRead(n: nat)
    requires n > 0
    ensures ReadValue([]).Err? && ReadItems([], n).Err?
  {}

  lemma BulkTaken(input: Bytes, len: nat)
    requires TakeBulk(input, len).Ok?
    ensures TakeBulk(input, len).value == Bulk(Some(input[..len])) && |input| >= len + 2
    ensures Taken(input, TakeBulk(input, len)) == input[..len] + CRLF
  {
    assert input[..len + 2] == input[..len] + input[len..len + 2];
  }

  /** The parts of a reply that was read, by the first byte of its line. */
  lemma ReadParts(input: Bytes)
    requires ReadValue(input).Ok?
    ensures TakeLine(input).Ok? && TakeLine(input).value != []
    ensures var Ok(line, rest) := TakeLine(input);
      var n, r := ParseSigned(line[1..]), ReadValue(input);
      match line[0]
      case 43 => r == Ok(Simple(line[1..]), rest)
      case 45 => r == Ok(Error(line[1..]), rest)
      case 58 => n.Some? && r == Ok(Integer(n.value), rest)
      case 36 => n.Some? && r == TakeBulk(rest, n.value)
      case 42 =>
        && n.Some?
        && (n.value <= 0 ==> r == Ok(Array([]), rest))
        && (n.value > 0 ==>
              && ReadItems(rest, n.value).Ok?
              && r == Ok(Array(ReadItems(rest, n.value).value), ReadItems(rest, n.value).rest))
      case _ => false
  {
    hide TakeLine, ParseSigned, IsTail, TakeBulk, ReadItems;
  }

  /**
    Whatever the reader accepts is the text of the value it returns, but for
    the last byte of a stream that ends in the middle of a line end.
   */
  lemma {:induction false} ReadSpells(input: Bytes)
    requires ReadValue(input).Ok?
    ensures var taken := Taken(input, ReadValue(input));
      taken != [] && Spells(Closed(taken), ReadValue(input).value)
    decreases |input|, 1
  {
    hide ReadValue, TakeLine, ParseSigned, IsTail, Closed, TakeBulk, ReadItems, Header;
    ReadParts(input);
    var Ok(line, rest) := TakeLine(input);
    var n := ParseSigned(line[1..]);
    LineTaken(input);
    if line[0] == DOLLAR && n.value >= 0 {
      BulkSpells(input);
    } else if line[0] == STAR && n.value > 0 {
      ArraySpells(input);
    } else {
      OneLineSpells(input);
    }
  }

  /** Replies that end with their first line. */
  lemma OneLineSpells(input: Bytes)
    requires ReadValue(input).Ok? && TakeLine(input).Ok? && TakeLine(input).value != []
    requires var line := TakeLine(input).value;
      var n := ParseSigned(line[1..]);
      !(line[0] == DOLLAR && n.Some? && n.value >= 0) && !(line[0] == STAR && n.Some? && n.value > 0)
    ensures var taken := Taken(input, ReadValue(input));
      taken != [] && Spells(Closed(taken), ReadValue(input).value)
  {
    hide ReadValue, TakeLine, ParseSigned, IsTail, Closed, TakeBulk, ReadItems, Header;
    ReadParts(input);
    LineTaken(input);
    var Ok(line, rest) := TakeLine(input);
    assert line == [line[0]] + line[1..];
    if line[0] != PLUS && line[0] != MINUS {
      HeaderTaken(line);
      var n := ParseSigned(line[1..]).value;
      if line[0] == DOLLAR {
        NoBulk(rest, n);
        assert Header(line + CRLF, DOLLAR, n);
      } else if line[0] == STAR {
        NoItemsText(line + CRLF, n);
      }
    }
  }

  lemma NoItemsText(line: Bytes, n: int)
    requires Header(line, STAR, n) && n <= 0
    ensures Spells(line, Array([]))
  {
    hide Header;
    var texts: seq<Bytes> := [];
    assert line == line + Flatten(texts);
    assert Header(line, STAR, n) && |texts| == 0 == Max(n, 0);
  }

  lemma BulkSpells(input: Bytes)
    requires ReadValue(input).Ok? && TakeLine(input).Ok? && TakeLine(input).value != []
    requires TakeLine(input).value[0] == DOLLAR
    requires ParseSigned(TakeLine(input).value[1..]).Some? && ParseSigned(TakeLine(input).value[1..]).value >= 0
    ensures var taken := Taken(input, ReadValue(input));
      taken != [] && Spells(Closed(taken), ReadValue(input).value)
  {
    hide ReadValue, TakeLine, ParseSigned, IsTail, TakeBulk, Header, EndsInLf;
    ReadParts(input);
    var Ok(line, rest) := TakeLine(input);
    var head, len := Taken(input, TakeLine(input)), ParseSigned(line[1..]).value;
    LineTaken(input);
    TakeLineEnds(input);
    BulkTaken(rest, len);
    ClosedIsSame(head);
    HeaderTaken(line);
    TailsNest(input);
    TakenTwice(input, rest, ReadValue(input).rest);
    var data := rest[..len];
    assert Taken(input, ReadValue(input)) == head + (data + CRLF);
    assert EndsInLf(data + CRLF) by {
      EndsAfter(data);
    }
    ClosedAfter(head, data + CRLF);
    ClosedIsSame(data + CRLF);
    assert head + (data + CRLF) == (line + CRLF) + data + CRLF;
    assert Header(line + CRLF, DOLLAR, |data|);
  }

  lemma EndsAfter(data: Bytes)
    ensures EndsInLf(data + CRLF)
  {}

  /** The rest of a reply is a tail of what follows its first line. */
  lemma TailsNest(input: Bytes)
    requires ReadValue(input).Ok? && TakeLine(input).Ok?
    ensures IsTail(TakeLine(input).rest, input) && IsTail(ReadValue(input).rest, TakeLine(input).rest)
  {
    ReadParts(input);
  }

  lemma {:induction false} ArraySpells(input: Bytes)
    requires ReadValue(input).Ok? && TakeLine(input).Ok? && TakeLine(input).value != []
    requires TakeLine(input).value[0] == STAR
    requires ParseSigned(TakeLine(input).value[1..]).Some? && ParseSigned(TakeLine(input).value[1..]).value > 0
    ensures var taken := Taken(input, ReadValue(input));
      taken != [] && Spells(Closed(taken), ReadValue(input).value)
    decreases |input|, 0
  {
    hide ReadValue, ReadItems, TakeLine, ParseSigned, IsTail, Header, Spells, Closed, EndsInLf;
    ReadParts(input);
    var Ok(line, rest) := TakeLine(input);
    var head, n := Taken(input, TakeLine(input)), ParseSigned(line[1..]).value;
    LineTaken(input);
    TakeLineEnds(input);
    NothingRead(n);
    ClosedIsSame(head);
    HeaderTaken(line);
    var texts := ItemsSpell(rest, n);
    var taken := Taken(rest, ReadItems(rest, n));
    TailsNest(input);
    TakenTwice(input, rest, ReadValue(input).rest);
    ClosedAfter(head, taken);
    ItemsCounted(rest, n);
    ArraySpelled(line + CRLF, n, texts, ReadItems(rest, n).value);
  }

  lemma ItemsCounted(input: Bytes, n: nat)
    requires ReadItems(input, n).Ok?
    ensures |ReadItems(input, n).value| == n
  {}

  lemma ArraySpelled(line: Bytes, n: int, texts: seq<Bytes>, items: seq<RespValue>)
    requires Header(line, STAR, n) && |items| == Max(n, 0) && SpellEach(texts, items)
    ensures Spells(line + Flatten(texts), Array(items))
  {
    hide Header;
  }

  lemma {:induction false} ItemsSpell(input: Bytes, n: nat) returns (texts: seq<Bytes>)
    requires n > 0 && ReadItems(input, n).Ok?
    ensures var taken := Taken(input, ReadItems(input, n));
      taken != [] && SpellEach(texts, ReadItems(input, n).value) && Flatten(texts) == Closed(taken)
    decreases |input|, n + 1
  {
    hide ReadValue, ReadItems, Spells, SpellEach, Closed, EndsInLf, IsTail, Flatten;
    ItemsUnfold(input, n);
    ReadSpells(input);
    ReadValueEnds(input);
    var first, rest := Taken(input, ReadValue(input)), ReadValue(input).rest;
    TakenTwice(input, rest, ReadItems(input, n).rest);
    var v := ReadValue(input).value;
    if n == 1 {
      NoItems(rest);
      texts := [Closed(first)];
      EachNone();
      EachPrepends(Closed(first), v, [], []);
      assert [Closed(first)] + [] == texts && [v] + [] == [v] && Closed(first) + [] == Closed(first);
    } else {
      NothingRead(n - 1);
      ClosedIsSame(first);
      var later := ItemsSpell(rest, n - 1);
      ClosedAfter(first, Taken(rest, ReadItems(rest, n - 1)));
      texts := [first] + later;
      EachPrepends(first, v, later, ReadItems(rest, n - 1).value);
    }
  }

  lemma EachNone()
    ensures SpellEach([], []) && Flatten<byte>([]) == []
  {}

  lemma EachPrepends(text: Bytes, v: RespValue, texts: seq<Bytes>, items: seq<RespValue>)
    requires Spells(text, v) && SpellEach(texts, items)
    ensures SpellEach([text] + texts, [v] + items) && Flatten([text] + texts) == text + Flatten(texts)
  {
    hide Spells;
    assert ([text] + texts)[1..] == texts;
    assert forall i :: 0 < i < |items| + 1 ==> ([text] + texts)[i] == texts[i - 1] && ([v] + items)[i] == items[i - 1];
  }

  /**
    The client's reader, exactly: it returns `v`, leaves `rest` and has read a
    line feed last if and only if the input is a text of `v` followed by `rest`.
   */
  lemma ReplyIff(input: Bytes, v: RespValue, rest: Bytes)
    ensures ReadValue(input) == Ok(v, rest) && EndsInLf(Taken(input, ReadValue(input)))
      <==> exists text :: Spells(text, v) && input == text + rest
  {
    hide ReadValue, Spells;
    var r := ReadValue(input);
    if r == Ok(v, rest) && EndsInLf(Taken(input, r)) {
      ReadSpells(input);
      ClosedIsSame(Taken(input, r));
      assert input == Taken(input, r) + rest by {
        ReadTail(input);
      }
    }
    if text :| Spells(text, v) && input == text + rest {
      SpelledRead(text, v, rest);
      SpelledEnds(text, v);
      assert Taken(input, r) == text;
    }
  }

  lemma ReadTail(input: Bytes)
    requires ReadValue(input).Ok?
    ensures input == Taken(input, ReadValue(input)) + ReadValue(input).rest
  {}

  lemma SpelledEnds(text: Bytes, v: RespValue)
    requires Spells(text, v)
    ensures EndsInLf(text)
  {
    hide ReadValue, Spells;
    SpelledRead(text, v, []);
    assert text + [] == text;
    if !EndsInLf(text) {
      assert Taken(text, ReadValue(text)) == text;
      SpelledRead(text, v, CRLF);
      ReadValueEats(text, CRLF);
      assert false;
    }
  }
}
