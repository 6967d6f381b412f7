/** Values shared by every module: optional values, the failures the Python
    code can raise, and a result type carrying one or the other. */
module Common {

  datatype Option<+T> = None | Some(value: T)

  /** The exceptions that can escape a store operation or a route's try block.
      OperationalError carries sqlite's message text, which the retry policy inspects;
      TypeError is what subscripting a missing row (None[0]) raises;
      NotFoundAbort is the HTTP exception raised by abort(404). */
  datatype Failure =
    | IntegrityError
    | OperationalError(message: string)
    | TypeError
    | NotFoundAbort

  datatype Result<+T> = Ok(value: T) | Err(failure: Failure)
}
