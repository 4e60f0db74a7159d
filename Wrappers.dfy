/** Option and Result, the failure-carrying values the model uses in place of
    JavaScript's `null` and thrown `Error`s. A thrown error is modelled by its
    message, which is what every caller in the program looks at. */
module Wrappers {

  datatype Option<+T> = None | Some(value: T) {
    function GetOr(default: T): T {
      match this
      case Some(v) => v
      case None => default
    }
  }

  /** `Err(message)` stands for a thrown `Error` whose `.message` is `message`. */
  datatype Result<+T> = Ok(value: T) | Err(error: string)
}
