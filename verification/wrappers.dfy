/** Optional values and success-or-error results, the two sum types the model needs
    in place of nullable fields and thrown exceptions. */
module Wrappers {

  /** A value that may be absent: the model's counterpart of a nullable field. */
  datatype Option<+T> = None | Some(value: T) {

    /** The null-coalescing operator: the held value, or `default` when absent. */
    function GetOr(default: T): T {
      match this
      case Some(v) => v
      case None => default
    }

    /** The held value as a one-element sequence, or the empty sequence. */
    function ToSeq(): (s: seq<T>)
      ensures |s| <= 1
      ensures Some? <==> |s| == 1
      ensures Some? ==> s[0] == value
    {
      match this
      case Some(v) => [v]
      case None => []
    }
  }

  /** The outcome of an operation that either yields a value or fails with an error. */
  datatype Result<+T, +E> = Success(value: T) | Failure(error: E)
}
