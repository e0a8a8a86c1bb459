/** Outcomes of kernel and tool operations that can stop instead of returning. */
module Results {

  /** A value, or the reason the operation did not produce one. */
  datatype Result<+T, +E> = Ok(value: T) | Err(error: E) {

    predicate IsFailure() {
      Err?
    }

    function PropagateFailure<U>(): Result<U, E>
      requires Err?
    {
      Err(error)
    }

    function Extract(): T
      requires Ok?
    {
      value
    }
  }

  /** A value that may be absent. */
  datatype Option<+T> = None | Some(value: T)
}
