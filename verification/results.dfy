/** Optional values and results: the arena stand-in for nullable references
    and for the exceptions the Java code throws. */
module Results {

  /** A possibly absent value; `None` plays the part of a Java `null` link. */
  datatype Option<+T> = None | Some(value: T)

  /** The outcome of an operation that may throw. */
  datatype Result<+T, +E> = Success(value: T) | Failure(error: E)
}
