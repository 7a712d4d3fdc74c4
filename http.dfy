/** The HTTP outcomes the gateway can produce. */
module Http {

  datatype Status = Ok | BadRequest | PayloadTooLarge | TooManyRequests

  /** The numeric status code sent to the caller. */
  function Code(s: Status): (code: nat)
    ensures 200 <= code < 500
    ensures (code == 200) <==> s == Ok
    ensures s != Ok ==> 400 <= code < 500
    ensures code == 429 <==> s == TooManyRequests
    ensures code == 413 <==> s == PayloadTooLarge
  {
    match s
    case Ok => 200
    case BadRequest => 400
    case PayloadTooLarge => 413
    case TooManyRequests => 429
  }
}
