/** Optional values, and results that carry an error instead of throwing. */
module Wrappers {

  datatype Option<+T> = None | Some(value: T)

  /** The outcome of an operation that either produces a value or fails with an error,
      standing for a returned value or a thrown exception. */
  datatype Result<+T, +E> = Ok(value: T) | Err(error: E)

  /** The outcome of an operation that returns nothing or fails with an error. */
  datatype Outcome<+E> = Pass | Fail(error: E)

  /** The exceptions the VLQ reader and writer throw. */
  datatype Fault =
    | ObjectDisposed                  // ObjectDisposedException: used after Dispose
    | MissingInitialByte(index: nat)  // InvalidOperationException: input ends inside the prefix
    | MissingInitialBodyByte          // InvalidOperationException: input ends after the prefix
    | MissingBodyByte                 // InvalidOperationException: input ends inside the body
    | EndOfStream                     // EndOfStreamException: no value to read
}
