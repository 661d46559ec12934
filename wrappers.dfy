/** Outcome types shared by every module: the Python code signals failure by
    returning an error string or raising, which the model turns into values. */
module Wrappers {

  datatype Option<T> = None | Some(value: T)

  /** A computation that either produced a value or failed with an error. */
  datatype Result<T, E> = Ok(value: T) | Err(error: E)

  /** A check that either passed or failed with an error (no value). */
  datatype Outcome<E> = Pass | Fail(error: E)
}
