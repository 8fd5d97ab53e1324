/**
 * The Python exceptions the two cipher engines can raise, as values, so that
 * the failing inputs are part of the model rather than excluded from it.
 */
module Results {

  datatype Error =
    | ValueError         // int('', 2), or unpacking too few values
    | IndexError         // indexing past the end of a sequence
    | ZeroDivisionError  // `%` by zero
    | OverflowError      // `int.to_bytes` of a value that does not fit
    | TypeError          // unpacking `None`

  datatype Result<+T> = Success(value: T) | Failure(error: Error)
  {
    predicate IsFailure()
    {
      Failure?
    }

    function PropagateFailure<U>(): Result<U>
      requires Failure?
    {
      Failure(error)
    }

    function Extract(): T
      requires Success?
    {
      value
    }
  }

  datatype Option<+T> = None | Some(value: T)
}
