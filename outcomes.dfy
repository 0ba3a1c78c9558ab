/** Optional values and success-or-error results, used for nullable columns,
    fields a request may leave unset, and operations that raise an HTTP error. */
module Outcomes {

  /** A nullable column or an unset request field. */
  datatype Option<+T> = None | Some(value: T)

  /** Either the value an operation returns or the error it raises. */
  datatype Result<+T, +E> = Ok(value: T) | Err(error: E)
}
