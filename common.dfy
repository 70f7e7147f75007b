/** Basic types shared by the whole model: Go's byte and uint64, opaque
    identities and timestamps, and the error/result shapes of Go's
    `(value, error)` returns. */
module Common {

  /** Go's `byte`. */
  newtype byte = x: int | 0 <= x < 0x100

  /** 2^64: uint64 arithmetic is arithmetic modulo this. */
  const U64Modulus: int := 0x1_0000_0000_0000_0000

  /** Go's `uint64`. */
  newtype u64 = x: int | 0 <= x < 0x1_0000_0000_0000_0000

  /** `uuid.UUID`, treated as an opaque value with equality; 0 is the zero UUID. */
  type Uuid = nat

  /** `time.Time`, treated as an opaque value with equality; 0 is the zero time. */
  type Timestamp = int

  datatype Option<+T> = None | Some(value: T)

  /** A Go `error`: a message, or a message wrapped with `fmt.Errorf("context: %w", cause)`. */
  datatype Error = Fault(message: string) | Wrapped(context: string, cause: Error)

  /** The error the stores return for a missing signature. */
  const NotFound: Error := Fault("signature not found")

  /** A Go `(value, error)` pair where exactly one is meaningful. */
  datatype Result<+T> = Success(value: T) | Failure(error: Error)

  /** The bytes of a string of 8-bit characters, as Go's `[]byte("...")`
      gives them for ASCII text. */
  function Ascii(s: string): (b: seq<byte>)
    ensures |b| == |s|
  {
    seq(|s|, i requires 0 <= i < |s| => (s[i] as int % 0x100) as byte)
  }

  function Min(a: int, b: int): int { if a <= b then a else b }

  function Max(a: int, b: int): int { if a >= b then a else b }
}
