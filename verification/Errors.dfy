/** The error enumeration of the crate and its result type. */
module Errors {
  datatype ErrorKind = UnexpectedEof | OtherKind(code: nat)

  datatype Error =
    | DataSize
    | InvalidCharacters
    | BufferSize
    | BigTime
    | Overflow
    | MonotonicOverflow
    | Read(kind: ErrorKind)

  datatype Result<+T> = Ok(value: T) | Err(error: Error)
}
