/** Failure-carrying wrappers shared by the model: an optional value (TypeScript's
    optional fields and `undefined`) and a result that is either a value or an error
    (the exceptions the service throws). */
module Common {

  datatype Option<+T> = None | Some(value: T) {
    /** The wrapped value, or `default` when there is none (JavaScript's `x ?? default`). */
    function GetOr(default: T): T {
      match this
      case Some(v) => v
      case None => default
    }
  }

  datatype Result<+T, +E> = Ok(value: T) | Err(error: E)

  function Max(a: int, b: int): int { if a < b then b else a }

  function Min(a: int, b: int): int { if a < b then a else b }
}
