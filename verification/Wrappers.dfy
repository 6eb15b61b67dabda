/** Results and optional values shared by every module. */
module Wrappers {

  datatype Option<+T> = None | Some(value: T)

  /** A value, or the error the source returns (Rust) or raises (Python). */
  datatype Result<+T, +E> = Ok(value: T) | Err(error: E) {

    predicate IsFailure() {
      Err?
    }

    function PropagateFailure<U>(): Result<U, E>
      requires Err?
    {
      Err(error)
    }

    function Extract(): T
      requires Ok?
    {
      value
    }
  }

  /** The Rust error enumeration, without the members that only I/O uses. */
  datatype KrcmError = Format | Authentication | InvalidPassword | InvalidParameter | UnsupportedVersion

  /** The Python exceptions the modelled functions raise. */
  datatype PyError = ValueError | OverflowError | FormatError | AuthenticationError
}
