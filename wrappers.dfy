/** Failure-carrying values: a fetch that may be absent, a step that may raise. */
module Wrappers {

  datatype Option<+T> = None | Some(value: T)

  datatype Result<+T, +E> = Success(value: T) | Failure(error: E)

  /** The Python exceptions the pipeline lets escape. */
  datatype Error =
    | IndexError     // `splitlines()[1]` on a one-line text, `row[1]` on a short row
    | ValueError     // `int(...)` on a year field that is not a number
    | StopIteration  // `next(reader)` on an empty file
}
