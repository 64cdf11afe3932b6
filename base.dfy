/** Shared result shapes: Java's `null`, and the `IllegalStateException`s that Glide throws. */
module Base {

  datatype Option<+T> = None | Some(value: T)

  /** The reasons Glide gives when it throws `IllegalStateException`. */
  datatype IllegalState =
    | AlreadyRegistered   // "Cannot register already registered manager"
    | NotRegistered       // "Cannot register not yet registered manager"
    | TargetNotTracked    // "Failed to remove target from managers"
    | ReentrantGet        // "You cannot call Glide.get() in registerComponents() ..."

  /** Outcome of a `void` Java method: it returned normally or threw. */
  datatype Status = Ok | Thrown(error: IllegalState)

  /** Outcome of a Java method with a result. */
  datatype Result<+T> = Success(value: T) | Failure(error: IllegalState)
}
