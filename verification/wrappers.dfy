/** Option and Result: the two shapes a nullable column and a handler's
    answer take throughout the model. */
module Wrappers {

  /** A nullable value: `None` is SQL NULL, or a field absent from a request body. */
  datatype Option<+T> = None | Some(value: T)

  /** A handler's answer: the success payload, or the reason it failed. */
  datatype Result<+T, +E> = Ok(value: T) | Err(error: E)
}
