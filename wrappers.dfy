/** Option and Result values, and the Python exceptions the modelled code can raise. */
module Wrappers {

  datatype Option<+T> = None | Some(value: T) {
    function GetOr(default: T): T {
      match this
      case Some(v) => v
      case None => default
    }
  }

  /** The Python exceptions that the modelled functions raise on some inputs. */
  datatype PyError =
    | ValueError(message: string)
    | IndexError
    | ZeroDivisionError

  datatype Result<+T> = Ok(value: T) | Err(error: PyError)
}
