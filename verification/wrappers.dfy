/** Optional values and fallible results, shared by the notes model. */
module Wrappers {

  /** A reply that may be absent: `None` stands for a failed collaborator
      request or a missing attribute in a save's data. */
  datatype Option<+T> = None | Some(value: T) {

    /** The carried value when present, `default` otherwise. */
    function GetOr(default: T): T {
      if Some? then value else default
    }
  }

  /** A lookup's outcome: the found value, or the reason it failed. */
  datatype Result<+R, +E> = Success(value: R) | Failure(error: E)
}
