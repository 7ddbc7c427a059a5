/** Result shapes shared by the model: an optional value, and the outcome of a PHP
    call that either returns a value or throws an exception with a message. */
module Outcomes {

  datatype Option<+T> = None | Some(value: T) {
    function GetOr(default: T): T {
      match this
      case Some(v) => v
      case None => default
    }
  }

  /** A PHP call either returns normally or throws `\Exception($message)`. */
  datatype Flow<+T> = Returned(value: T) | Thrown(message: string)

  /** A validation step that either yields a value or records an error code. */
  datatype Checked<+T> = Valid(value: T) | Invalid(code: int)
}
