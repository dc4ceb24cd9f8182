/** Optional values and the failure-carrying result of a projection. */
module Wrappers {

  /** A value that may be absent: the model of a C# reference that may be null. */
  datatype Option<+T> = None | Some(value: T) {
    function GetOr(default: T): T {
      match this
      case Some(v) => v
      case None => default
    }
  }

  /** The one error the projector raises: a dictionary whose key type does not
      project to `number` or `string`. It names the dictionary type. */
  datatype ProjectionError = UnsupportedKeyType(dictionary: nat)

  /** The result of a computation that may throw the projector's exception. */
  datatype Outcome<+T> = Ok(value: T) | Fail(error: ProjectionError) {
    predicate IsFailure() {
      Fail?
    }

    function PropagateFailure<U>(): Outcome<U>
      requires Fail?
    {
      Fail(error)
    }

    function Extract(): T
      requires Ok?
    {
      value
    }
  }
}
