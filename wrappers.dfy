/** Option and Result values used across the model in place of JavaScript's
    `undefined`/`null` and thrown exceptions. */
module Wrappers {

  datatype Option<+T> = None | Some(value: T) {
    function GetOr(default: T): T {
      match this
      case Some(v) => v
      case None => default
    }
  }

  datatype Result<+T, +E> = Success(value: T) | Failure(error: E)

  /** JavaScript's `value || fallback` for an optional string: `undefined` and the
      empty string are both falsy. */
  function OrElse(value: Option<string>, fallback: string): (r: string)
    ensures value.Some? && value.value != "" ==> r == value.value
    ensures value.None? || value.value == "" ==> r == fallback
  {
    match value
    case Some(s) => if s != "" then s else fallback
    case None => fallback
  }

  /** Truthiness of an optional string. */
  predicate Truthy(value: Option<string>) {
    value.Some? && value.value != ""
  }
}
