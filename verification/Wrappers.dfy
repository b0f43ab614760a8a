/** Results of operations that may throw. */
module Wrappers {
  datatype Result<+T> = Ok(value: T) | Err(error: string)

  /** An operation that may throw, or stop the processor without throwing. */
  datatype Outcome<+T> = Done(value: T) | Thrown(error: string) | Undefined
}
