/** Failure-carrying values: an absent witness or a fatal error of the
    modelled code becomes a value the caller can inspect. */
module Results {

  /** A value that may be missing (an unassigned witness, a failed parse). */
  datatype Option<+T> = None | Some(value: T)

  /** The outcome of an operation that either returns a value or stops
      with one of the fatal errors the modelled code can raise. */
  datatype Result<+T, +E> = Success(value: T) | Failure(error: E)
}
