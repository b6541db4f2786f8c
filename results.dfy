/** Failures of the hull computation, and a Result type usable with `:-`. */
module Results {

  /** The ways the computation can stop without a hull.
      - EmptyInput: there is no first point to start from (an index error).
      - ZeroDivision: a cosine divided by a zero product of magnitudes.
      - NotClosed: the walk did not return to its start within the scan bound
        (where the unbounded loop of jarvis.py would keep going). */
  datatype Failure = EmptyInput | ZeroDivision | NotClosed

  datatype Result<+T> = Ok(value: T) | Err(error: Failure) {

    predicate IsFailure() {
      Err?
    }

    function PropagateFailure<U>(): Result<U>
      requires Err?
    {
      Err(error)
    }

    function Extract(): T
      requires Ok?
    {
      value
    }
  }
}
