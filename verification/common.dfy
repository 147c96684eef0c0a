/** Value wrappers shared by every module: optional values, and results that
    carry either a value or the exception the Java code would throw. */
module Common {

  datatype Option<T> = None | Some(value: T)

  /** The exceptions of the service, as values. */
  datatype Error =
    | IllegalArgument(message: string)          // IllegalArgumentException
    | Runtime(message: string)                  // RuntimeException without a cause
    | Wrapped(message: string, cause: Error)    // RuntimeException wrapping a cause
    | UrlNotFound(message: string)              // UrlNotFoundException
    | DataIntegrityViolation(message: string)   // a column or unique-index constraint of the table
    | IncorrectResultSize                       // a single-result query matched several rows
    | CacheUnavailable                          // the key-value cache threw

  datatype Result<T> = Success(value: T) | Failure(error: Error)
}
