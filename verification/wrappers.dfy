/** Failure-compatible result and option types shared by the encoder, the
    decoder and the anchor logic. */
module Wrappers {

  datatype Option<+T> = None | Some(value: T)

  /** Either a value or the error that aborted the computation; usable with `:-`. */
  datatype Result<+T, +E> = Ok(value: T) | Err(error: E) {

    predicate IsFailure() {
      Err?
    }

    function PropagateFailure<U>(): Result<U, E>
      requires Err?
    {
      Err(error)
    }

    function Extract(): T
      requires Ok?
    {
      value
    }
  }
}
