/** Option and Result: the model's stand-ins for Python's None and its exceptions. */
module Wrappers {
  datatype Option<T> = None | Some(value: T) {
    predicate IsSome() { this.Some? }

    function GetOr(default: T): T {
      match this
      case Some(v) => v
      case None => default
    }
  }

  /** The outcome of a Python call that either returns a value or raises. */
  datatype Result<T> = Ok(value: T) | Err(error: string) {
    predicate IsOk() { this.Ok? }
  }
}
