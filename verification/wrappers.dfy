/** Option and Result wrappers, and the Python exception kinds the model reports.

The source signals failure by raising; the model returns a `Failure` carrying the
exception kind instead, so that every error path is an ordinary value.
 */
module Wrappers {

  datatype Option<+T> = None | Some(value: T) {
    predicate IsFailure() { None? }

    function PropagateFailure<U>(): Option<U>
      requires None?
    {
      None
    }

    function Extract(): T
      requires Some?
    {
      value
    }

    function GetOr(default: T): T {
      match this
      case Some(v) => v
      case None => default
    }
  }

  /** The exception classes raised by the modelled code. */
  datatype Error =
    | ValueError(message: string)
    | KeyError(key: string)
    | IndexError(message: string)
    | AttributeError(message: string)
    | TypeError(message: string)
    | ParserError(message: string)
    | FileExistsError(name: string)
    | FileNotFoundError(name: string)
    | IsADirectoryError(name: string)
    | NotADirectoryError(name: string)
    | AssertionError(message: string)

  datatype Result<+R> = Success(value: R) | Failure(error: Error) {
    predicate IsFailure() { Failure? }

    function PropagateFailure<U>(): Result<U>
      requires Failure?
    {
      Failure(error)
    }

    function Extract(): R
      requires Success?
    {
      value
    }
  }

  /** Python truthiness of an optional string: `None` and `''` are false. */
  predicate Truthy(o: Option<string>) {
    o.Some? && o.value != ""
  }

  /** `str(o)` of an optional string: `None` prints as `None`. */
  function PyStr(o: Option<string>): string {
    match o
    case Some(s) => s
    case None => "None"
  }

  /** `o or ''`: the string when truthy, else the empty string. */
  function OrEmpty(o: Option<string>): (r: string)
    ensures Truthy(o) ==> r == o.value
    ensures !Truthy(o) ==> r == ""
  {
    if o.Some? then o.value else ""
  }
}
