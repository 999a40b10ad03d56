/** Outcome of a resolver call: either the value it returns or the error it
    throws. Every error the resolvers throw is a discriminated kind, so a
    caller can tell them apart. */
module Results {

  datatype Result<+T, +E> = Ok(value: T) | Err(error: E) {

    predicate IsFailure() {
      Err?
    }

    function PropagateFailure<U>(): Result<U, E>
      requires Err?
    {
      Err(error)
    }

    function Extract(): T
      requires Ok?
    {
      value
    }
  }
}
