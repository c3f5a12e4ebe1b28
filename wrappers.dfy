/** Wrappers shared by the other modules: a nullable
    reference is an Option, a thrown IllegalArgumentException is an Error. */
module Wrappers {

  /** A Java reference that may be null. */
  datatype Option<T> = None | Some(value: T)

  /** The exceptions the core throws. */
  datatype Error = IllegalArgument(message: string)

  /** The value of a Java call that either returns normally or throws. */
  datatype Result<T> = Success(value: T) | Failure(error: Error)

  /** The outcome of a Java `void` call that either returns or throws. */
  datatype Outcome = Pass | Fail(error: Error)
}
