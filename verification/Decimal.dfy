/**
  Decimal text. The client writes numbers into 20-byte stack buffers
  (`push_usize`, `encode_u64`), both sides read them back with saturating
  accumulators (`parse_usize`, `parse_u64`, `parse_i64`).
 */
module Decimal {
  import opened Prelude

  predicate IsDigit(b: byte) {
    48 <= b <= 57
  }

  predicate AllDigits(s: Bytes) {
    forall i :: 0 <= i < |s| ==> IsDigit(s[i])
  }

  /** The number a digit string denotes. */
  function DecimalValue(s: Bytes): nat
    requires AllDigits(s)
  {
    if s == [] then 0
    else 10 * DecimalValue(s[..|s| - 1]) + (s[|s| - 1] - 48)
  }

  /** The canonical decimal text of a number. */
  function Digits(n: nat): (s: Bytes)
    ensures |s| > 0 && AllDigits(s)
  {
    if n < 10 then [48 + n] else Digits(n / 10) + [48 + n % 10]
  }

  /** The text that `i64::to_string` produces. */
  function SignedDigits(v: int): (s: Bytes)
    ensures |s| > 0
  {
    if v < 0 then [45] + Digits(-v) else Digits(v)
  }

  lemma {:induction false} DigitsRoundTrip(n: nat)
    ensures DecimalValue(Digits(n)) == n
  {
    if n >= 10 {
      DigitsRoundTrip(n / 10);
      assert Digits(n)[..|Digits(n)| - 1] == Digits(n / 10);
    }
  }

  /** No leading zero, except in zero itself. */
  lemma {:induction false} DigitsCanonical(n: nat)
    ensures if n == 0 then Digits(n) == [48] else Digits(n)[0] != 48
  {
    if n >= 10 {
      DigitsCanonical(n / 10);
    }
  }

  function Pow10(k: nat): nat {
    if k == 0 then 1 else 10 * Pow10(k - 1)
  }

  lemma {:induction false} DigitsShort(n: nat, k: nat)
    requires 0 < k && n < Pow10(k)
    ensures |Digits(n)| <= k
    decreases k
  {
    if n >= 10 {
      assert Pow10(k) == 10 * Pow10(k - 1);
      DigitsShort(n / 10, k - 1);
    }
  }

  /** The decimal text of a 64-bit value fits 20 bytes. */
  lemma DigitsFit20(n: nat)
    requires n <= USIZE_MAX
    ensures |Digits(n)| <= 20
  {
    Pow10Of20();
    DigitsShort(n, 20);
  }

  lemma Pow10Of20()
    ensures Pow10(20) > USIZE_MAX
  {
    assert Pow10(5) == 100000;
    assert Pow10(10) == 10000000000;
    assert Pow10(15) == 1000000000000000;
  }

  /**
    What the unsigned parsers compute: the decimal value clamped to the type's
    maximum, or nothing when the text is empty or holds a non-digit.
   */
  function ParseUnsigned(data: Bytes, max: nat): Option<nat> {
    if data != [] && AllDigits(data) then Some(Min(DecimalValue(data), max)) else None
  }

  /**
    `parse_i64`: an optional minus sign, then digits, clamped to `i64::MAX`
    before the sign is applied. A lone minus sign is read as zero.
   */
  function ParseSigned(data: Bytes): Option<int> {
    if data == [] then None
    else
      var body := if data[0] == 45 then data[1..] else data;
      if !AllDigits(body) then None
      else
        var magnitude := Min(DecimalValue(body), I64_MAX);
        Some(if data[0] == 45 then -magnitude else magnitude)
  }

  /** `value.saturating_mul(10).saturating_add(digit)` */
  function SaturatingPush(value: nat, digit: nat, max: nat): nat {
    Min(Min(value * 10, max) + digit, max)
  }

  lemma PushKeepsClamp(s: Bytes, b: byte, max: nat)
    requires AllDigits(s) && IsDigit(b)
    ensures AllDigits(s + [b])
    ensures SaturatingPush(Min(DecimalValue(s), max), b - 48, max) == Min(DecimalValue(s + [b]), max)
  {
    assert (s + [b])[..|s|] == s;
  }

  /** The shared accumulator loop of `parse_usize` and `parse_u64`. */
  method ParseDigits(data: Bytes, max: nat) returns (r: Option<nat>)
    ensures r == ParseUnsigned(data, max)
    ensures r.None? <==> data == [] || exists i :: 0 <= i < |data| && !IsDigit(data[i])
  {
    if |data| == 0 {
      return None;
    }
    var value: nat := 0;
    for i := 0 to |data|
      invariant AllDigits(data[..i])
      invariant value == Min(DecimalValue(data[..i]), max)
    {
      if !IsDigit(data[i]) {
        return None;
      }
      PushKeepsClamp(data[..i], data[i], max);
      assert data[..i + 1] == data[..i] + [data[i]];
      value := SaturatingPush(value, data[i] - 48, max);
    }
    assert data[..|data|] == data;
    return Some(value);
  }

  method ParseI64(data: Bytes) returns (r: Option<int>)
    ensures r == ParseSigned(data)
    ensures r.Some? ==> -I64_MAX <= r.value <= I64_MAX
  {
    if |data| == 0 {
      return None;
    }
    var negative, idx := false, 0;
    if data[0] == 45 {
      negative, idx := true, 1;
    }
    ghost var start := idx;
    ghost var body := if data[0] == 45 then data[1..] else data;
    assert body == data[start..];
    var value: nat := 0;
    assert body[..0] == [] && AllDigits([]) && DecimalValue([]) == 0;
    hide DecimalValue, SaturatingPush;
    while idx < |data|
      invariant start <= idx <= |data|
      invariant AllDigits(body[..idx - start])
      invariant value == Min(DecimalValue(body[..idx - start]), I64_MAX)
    {
      assert data[idx] == body[idx - start];
      if !IsDigit(data[idx]) {
        return None;
      }
      PushKeepsClamp(body[..idx - start], data[idx], I64_MAX);
      assert body[..idx + 1 - start] == body[..idx - start] + [data[idx]];
      value := SaturatingPush(value, data[idx] - 48, I64_MAX);
      idx := idx + 1;
    }
    assert body[..idx - start] == body;
    var signed: int := if negative then 0 - value else value;
    return Some(signed);
  }

  ghost function Reversed(s: Bytes): Bytes {
    seq(|s|, i requires 0 <= i < |s| => s[|s| - 1 - i])
  }

  /** The digits still to be produced for `value`, most significant first. */
  ghost function Pending(value: nat): Bytes {
    if value == 0 then [] else Digits(value)
  }

  lemma PendingStep(value: nat, written: Bytes)
    requires value > 0
    ensures Pending(value) + Reversed(written) == Pending(value / 10) + Reversed(written + [48 + value % 10])
  {
    assert Reversed(written + [48 + value % 10]) == [48 + value % 10] + Reversed(written);
  }

  /**
    The digit loop of `push_usize` and `encode_u64`: least significant digit
    first into a 20-byte buffer, which no 64-bit value can overrun.
   */
  method WriteDigits(buf: array<byte>, start: nat) returns (len: nat)
    requires buf.Length == 20 && start <= USIZE_MAX
    modifies buf
    ensures len <= 20 && Reversed(buf[..len]) == Digits(start)
  {
    len := 0;
    if start == 0 {
      buf[0] := 48;
      return 1;
    }
    Pow10Of20();
    var value := start;
    while value > 0
      invariant len <= 20 && 0 <= value < Pow10(20 - len)
      invariant Pending(value) + Reversed(buf[..len]) == Digits(start)
    {
      ghost var written := buf[..len];
      PendingStep(value, written);
      buf[len] := 48 + value % 10;
      assert buf[..len + 1] == written + [48 + value % 10];
      value := value / 10;
      len := len + 1;
    }
  }

  /** `push_usize`: appends the decimal text of `value` to the output buffer. */
  method PushUsize(out: Bytes, value: nat) returns (result: Bytes)
    requires value <= USIZE_MAX
    ensures result == out + Digits(value)
  {
    var buf := new byte[20];
    var len := WriteDigits(buf, value);
    assert |Reversed(buf[..len])| == len;
    result := out;
    var idx := len;
    while idx > 0
      invariant idx <= len
      invariant result == out + Digits(value)[..len - idx]
    {
      idx := idx - 1;
      assert buf[idx] == Reversed(buf[..len])[len - 1 - idx];
      result := result + [buf[idx]];
    }
    assert Digits(value)[..len] == Digits(value);
  }

  /** `encode_u64`: the text of `value` is the first `len` bytes of the buffer. */
  method EncodeU64(value: nat) returns (buf: array<byte>, len: nat)
    requires value <= USIZE_MAX
    ensures buf.Length == 20 && len <= 20 && buf[..len] == Digits(value)
  {
    buf := new byte[20];
    len := WriteDigits(buf, value);
    forall i | 0 <= i < len {
      buf[i] := buf[len - 1 - i];
    }
  }

  /** Text written by either writer is read back exactly by either reader. */
  lemma UnsignedRoundTrip(n: nat)
    ensures ParseUnsigned(Digits(n), USIZE_MAX) == Some(Min(n, USIZE_MAX))
  {
    DigitsRoundTrip(n);
  }

  /**
    `i64::to_string` followed by `parse_i64` is the identity on every value but
    `i64::MIN`, whose magnitude saturates and comes back one larger.
   */
  lemma SignedRoundTrip(v: int)
    requires I64_MIN <= v <= I64_MAX
    ensures ParseSigned(SignedDigits(v)) == Some(if v == I64_MIN then -I64_MAX else v)
  {
    var magnitude := if v < 0 then -v else v;
    DigitsRoundTrip(magnitude);
    assert SignedDigits(v)[0] == 45 <==> v < 0 by {
      assert IsDigit(Digits(magnitude)[0]);
    }
    if v < 0 {
      assert SignedDigits(v)[1..] == Digits(magnitude);
    }
  }
}
