/** Option and Result values shared by the model's modules. */
module Wrappers {

  /** A value that may be absent (a selector that matched nothing, a search that found nothing). */
  datatype Option<+T> = None | Some(value: T)

  /** The outcome of an operation that can raise: its value, or the error it raised. */
  datatype Result<+T> = Ok(value: T) | Err(message: string)
}
