/** Failure-carrying values used in place of Java's null and exceptions. */
module Results {

  /** A Java reference that may be null. */
  datatype Option<T> = None | Some(value: T)

  /** A call that either returns a value or throws (or dies with) an error. */
  datatype Result<T, E> = Success(value: T) | Failure(error: E)

  /** The Java exceptions the modelled code throws, with their messages where the code gives one. */
  datatype JavaException =
    | NullPointer(detail: Option<string>)
    | IllegalArgument(message: string)
    | IndexOutOfBounds
    /** ZillaRuntime.die(message) */
    | Died(message: string)
}
