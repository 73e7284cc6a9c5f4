/** The reply printers of the server (`resp_simple` and its siblings). */
module Replies {
  import opened Prelude
  import opened Decimal

  function RespSimple(message: Bytes): Bytes {
    [43] + message + CRLF
  }

  function RespError(message: Bytes): Bytes {
    [45, 69, 82, 82, 32] + message + CRLF   // "-ERR "
  }

  function RespInteger(value: int): Bytes {
    [58] + SignedDigits(value) + CRLF
  }

  function RespBulk(data: Bytes): Bytes {
    [36] + Digits(|data|) + CRLF + data + CRLF
  }

  function RespNull(): Bytes {
    [36, 45, 49] + CRLF   // "$-1"
  }
}
