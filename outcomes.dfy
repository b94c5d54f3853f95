/** Option and Result values, and the exceptions the semaphore helpers raise. */
module Outcomes {

  datatype Option<+T> = None | Some(value: T)

  /** The exceptions that can leave the semaphore helpers. */
  datatype Exception =
    | ValueError(message: string)            // raised by the semaphore's constructor
    | TaskLockedException(message: string)   // raised by the guard when no slot is free
    | TaskError(message: string)             // anything the wrapped task body raises

  /** A call either returns a value or raises an exception. */
  datatype Result<+T> = Ok(value: T) | Raised(error: Exception)
}
