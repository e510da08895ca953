/** Option, Result and Outcome for the library's null results and exceptions. */
module Results {

  datatype Option<+T> = None | Some(value: T)

  /** The exceptions the modelled code raises, one constructor per .NET exception kind. */
  datatype Error =
    | FormatError        // FormatException: bool.Parse on a string that is neither true nor false
    | JsonError          // JsonException: a null where a value is required
    | InvalidOperation   // InvalidOperationException: a token read as the wrong kind, or a non-object patch
    | DuplicateKey       // ArgumentException from ToDictionary: two keys equal after lower-casing
    | SetterMissing      // ArgumentException from PropertyInfo.SetValue on a read-only property
    | NotSupported       // NotSupportedException: Add on a fixed-size list
    | EngineError(code: nat) // any failure raised inside the general-purpose serializer

  datatype Result<+R> = Success(value: R) | Failure(error: Error) {
    predicate IsFailure() { Failure? }

    function PropagateFailure<U>(): Result<U>
      requires Failure?
    {
      Failure(error)
    }

    function Extract(): R
      requires Success?
    {
      value
    }
  }

  datatype Outcome = Pass | Fail(error: Error)
}
