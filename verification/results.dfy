/** Success-or-failure values standing in for the exceptions the cipher can throw. */
module Results {

  /** Either a computed value or the fault that stopped the computation.
      Usable with `:-`, so that a fault propagates the way a thrown exception does. */
  datatype Result<+T, +E> = Ok(value: T) | Err(error: E) {

    predicate IsFailure() {
      Err?
    }

    function PropagateFailure<U>(): Result<U, E>
      requires Err?
    {
      Err(error)
    }

    function Extract(): T
      requires Ok?
    {
      value
    }
  }
}
