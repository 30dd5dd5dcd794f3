/** Option and Result, the two sum types the request pipeline is written with. */
module Wrappers {

  datatype Option<+T> = None | Some(value: T)

  /** The outcome of a step that may raise: every exception in the handlers is
      reduced to its message, `str(e)`, so the error side is a string. */
  datatype Result<+T> = Ok(value: T) | Err(msg: string)
}
