/** Failure-carrying values for the script: Python's `None` and the exceptions it can raise. */
module Results {

  /** A value or Python's `None`. */
  datatype Option<+T> = None | Some(value: T)

  /** The exceptions the modelled code can raise. */
  datatype Error =
    | IndexError  // indexing an empty string or list
    | KeyError    // a dictionary lookup with an unknown key

  /** The outcome of a call: its value, or the exception it raised. */
  datatype Result<+T> = Success(value: T) | Failure(error: Error)
}
