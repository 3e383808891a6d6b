/** Failure-compatible result types shared by the prime game modules. */
module Results {

  /** Python's `None` or a value. */
  datatype Option<+T> = None | Some(value: T)

  /** A value, or the IndexError that the Python code raises on a too-small board. */
  datatype Result<+T> = Ok(value: T) | IndexError {

    predicate IsFailure() {
      IndexError?
    }

    function PropagateFailure<U>(): Result<U>
      requires IndexError?
    {
      IndexError
    }

    function Extract(): T
      requires Ok?
    {
      value
    }
  }
}
