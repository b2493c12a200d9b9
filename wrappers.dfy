/** Outcome types shared by the model: a Python `None` result, a value or a raised exception. */
module Wrappers {

  /** A value that may be absent; `None` is Python's `None` returned as "undefined". */
  datatype Option<+T> = None | Some(value: T)

  /** A computation that either returns a value or raises the exception `error`. */
  datatype Result<+T, +E> = Success(value: T) | Failure(error: E)

  /** A statement-like call that either completes or raises `error`. */
  datatype Outcome<+E> = Done | Raised(error: E)
}
