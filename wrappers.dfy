/** Option and Result, used for values the source leaves absent (`null`) and for
    the conditions under which the source's extraction throws. */
module Wrappers {

  datatype Option<+T> = None | Some(value: T)

  datatype Result<+T, +E> = Ok(value: T) | Err(error: E)
}
