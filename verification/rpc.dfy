/** The error contract shared by the voting services: every failure that leaves a
    service is an RpcException whose payload is a {status, message, error} triple. */
module Rpc {

  /** HTTP-style status codes used by the services (NestJS HttpStatus). */
  const BadRequest: int := 400
  const NotFound: int := 404
  const Conflict: int := 409
  const InternalServerError: int := 500

  /** The object handed to `new RpcException(...)` and returned by `getError()`. */
  datatype ErrorPayload = ErrorPayload(status: int, message: string, error: string)

  /** The outcome of a service call: a value, or an RpcException carrying its payload. */
  datatype RpcResult<+T> = Ok(value: T) | RpcError(payload: ErrorPayload)

  /** Absence as returned by a lookup (`null` in the source). */
  datatype Option<+T> = None | Some(value: T)

  /** The decimal rendering of a natural number, as a template literal shows it. */
  function DecimalString(n: nat): (s: string)
    ensures |s| >= 1
    ensures |s| == 1 <==> n < 10
    ensures forall i :: 0 <= i < |s| ==> '0' <= s[i] <= '9'
    decreases n
  {
    var digit := [(48 + n % 10) as char];
    if n < 10 then digit else DecimalString(n / 10) + digit
  }

  /** Different numbers render differently, so a rendered id names one id. */
  lemma {:induction false} DecimalStringInjective(a: nat, b: nat)
    requires DecimalString(a) == DecimalString(b)
    ensures a == b
    decreases a
  {
    var sa, sb := DecimalString(a), DecimalString(b);
    assert sa[|sa| - 1] == (48 + a % 10) as char;
    assert sb[|sb| - 1] == (48 + b % 10) as char;
    if a >= 10 {
      assert b >= 10;
      assert DecimalString(a / 10) == sa[..|sa| - 1] == sb[..|sb| - 1] == DecimalString(b / 10);
      DecimalStringInjective(a / 10, b / 10);
    }
  }
}
