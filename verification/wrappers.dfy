/** Failure-compatible wrappers that stand in for Java's `null` and for thrown exceptions. */
module Wrappers {

  /** `None` is a Java `null` reference; `Some(v)` is a non-null reference to `v`. */
  datatype Option<+T> = None | Some(value: T)

  /** Either the value an operation returns or the exception it throws. */
  datatype Result<+R, +E> = Success(value: R) | Failure(error: E) {

    predicate IsFailure() {
      Failure?
    }

    function PropagateFailure<U>(): Result<U, E>
      requires Failure?
    {
      Failure(error)
    }

    function Extract(): R
      requires Success?
    {
      value
    }
  }

  /** The exceptions a generated builder throws: `NullPointerException` from a setter,
      `IllegalArgumentException` from `checkByteStringIsUtf8`, `UninitializedMessageException`
      from `build`. */
  datatype BuilderError = NullPointer | NotUtf8 | UninitializedMessage

  /** The generated setters' guard: a null argument throws `NullPointerException`. */
  function RequireNonNull<T>(value: Option<T>): (r: Result<T, BuilderError>)
    ensures value.None? <==> r == Failure(NullPointer)
    ensures value.Some? ==> r == Success(value.value)
  {
    match value
    case None => Failure(NullPointer)
    case Some(v) => Success(v)
  }
}
