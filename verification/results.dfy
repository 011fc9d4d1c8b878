/** Failure-compatible wrappers used by every stage of the pipeline model. */
module Results {

  /** An optional value: `None` stands for pandas' missing value (NaN) where a
      lookup or a conversion produces nothing. */
  datatype Option<+T> = None | Some(value: T)

  /** The outcome of a stage that may abort the run. */
  datatype Result<+T, +E> = Ok(value: T) | Err(error: E) {

    predicate IsFailure() {
      Err?
    }

    function PropagateFailure<U>(): Result<U, E>
      requires Err?
    {
      Err(error)
    }

    function Extract(): T
      requires Ok?
    {
      value
    }
  }
}
