/** The error surface of the crate: a single `std::io::ErrorKind` that every
    fallible operation reports, and the `Result`/`Option` shapes it travels in. */
module Wrappers {

  /** The only error kind the thinning core produces (`ErrorKind::InvalidInput`). */
  datatype Error = InvalidInput

  datatype Result<+T> = Ok(value: T) | Err(error: Error) {
    predicate IsFailure() { Err? }

    function PropagateFailure<U>(): Result<U>
      requires Err?
    {
      Err(error)
    }

    function Extract(): T
      requires Ok?
    {
      value
    }
  }

  datatype Option<+T> = None | Some(value: T)
}
