/** Failure-carrying results used for the exceptions and error returns of the checker. */
module Wrappers {

  datatype Option<+T> = None | Some(value: T)

  datatype Result<+T, +E> = Ok(value: T) | Err(error: E)

  /** An operation that returns nothing but may fail. */
  datatype Outcome<+E> = Pass | Fail(error: E)
}

/** The exceptions the core can raise, as values. */
module Errors {

  datatype Error =
    | GrammarError(detail: string)   // the project's own GrammarError
    | OutOfRange(key: string)        // std::out_of_range from a checked map lookup
    | IndexOutOfRange(index: nat)    // std::out_of_range from a checked vector access
    | UndefinedAccess                // an unchecked `operator[]` on an empty vector: undefined behaviour, where the model stops
}
