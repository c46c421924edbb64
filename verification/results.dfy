/** Optional values and the outcome of operations that may throw. */
module Results {

  /** A Kotlin nullable value. */
  datatype Option<+T> = None | Some(value: T)

  /** The two kinds of exception the address code distinguishes. `ArgumentError` stands for
      IllegalArgumentException and its subclass NumberFormatException, which `IP.parse` swallows;
      `OtherError` stands for every other runtime exception (an index out of bounds, an
      IllegalStateException), which escapes `IP.parse` and is caught only by `storeIp`. */
  datatype Failure = ArgumentError | OtherError

  /** A computation that returns a value or throws. */
  datatype Result<+T> = Ok(value: T) | Fail(failure: Failure) {

    predicate IsFailure() {
      Fail?
    }

    function PropagateFailure<U>(): (r: Result<U>)
      requires Fail?
    {
      Fail(failure)
    }

    function Extract(): (r: T)
      requires Ok?
    {
      value
    }
  }
}
