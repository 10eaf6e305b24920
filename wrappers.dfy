/** Option and Result, used for the absent derivative and for the fallible
    operations of the library (closures that may fail, singular matrices),
    and the outcome of a partial comparison. */
module Wrappers {
  datatype Option<T> = None | Some(value: T)

  datatype Result<T, E> = Ok(value: T) | Err(error: E)

  datatype Ordering = Less | Equal | Greater
}
