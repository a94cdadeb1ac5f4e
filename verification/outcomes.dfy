/** Optional values and failures: the model's stand-ins for Java's `null`
    results and for the `Failure` exceptions the back end throws. */
module Outcomes {

  /** A value that may be absent (`null` in the source). */
  datatype Option<+T> = None | Some(value: T)

  /** A computation that either yields a value or fails with a message. */
  datatype Result<+T> = Ok(value: T) | Fail(msg: string)
}
