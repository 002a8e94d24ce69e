/** Nullable values and the exceptions raised by the cache, as values. */
module Wrappers {

  /** A C# reference that may be null: `None` is null. */
  datatype Option<+T> = None | Some(value: T) {
    function GetOr(default: T): T {
      match this
      case Some(v) => v
      case None => default
    }
  }

  /** The exceptions the cache lets escape, each named after its .NET type. */
  datatype Error =
    | ArgNull(param: string)     // ArgumentNullException, with its ParamName
    | ArgInvalid(param: string)  // ArgumentException, with its ParamName
    | DuplicateTag(tag: string)  // ArgumentException thrown by Dictionary.Add for a repeated key
    | KeyNotFound(key: string)   // KeyNotFoundException
    | CastFailure                // InvalidCastException
    | NullReference              // NullReferenceException

  /** The outcome of an operation that may throw. */
  datatype Result<+T> = Ok(value: T) | Fail(error: Error) {
    predicate IsFailure() {
      Fail?
    }

    function PropagateFailure<U>(): Result<U>
      requires Fail?
    {
      Fail(error)
    }

    function Extract(): T
      requires Ok?
    {
      value
    }
  }

  /** The message of the KeyNotFoundException raised by the strict getters. */
  function NotFoundMessage(key: string): (m: string)
    ensures |m| == |key| + 29
    ensures m[5..5 + |key|] == key
  {
    "Key \"" + key + "\" is not found in cache."
  }
}
