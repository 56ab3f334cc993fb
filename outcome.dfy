/** The one failure the core can raise. */
module Outcome {

  /** A value, or the `ZeroDivisionError` Python raises when a stretch factor is
      asked for durations that sum to zero. */
  datatype Result<T> = Ok(value: T) | ZeroDivisionError
}
