/** Failure-compatible wrappers used to model JavaScript's `undefined`/`null`
    results and thrown errors as values. */
module Results {

  /** `None` stands for a JavaScript `undefined` (or absent key). */
  datatype Option<+T> = None | Some(value: T)

  /** `Err` stands for a thrown `Error`; it can be propagated with `:-`. */
  datatype Result<+T, +E> = Ok(value: T) | Err(error: E) {

    predicate IsFailure() {
      Err?
    }

    function PropagateFailure<U>(): Result<U, E>
      requires Err?
    {
      Err(error)
    }

    function Extract(): T
      requires Ok?
    {
      value
    }
  }
}
