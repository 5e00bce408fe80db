/** Option and Result: the tagged outcomes that stand in for the program's
    `None` sentinels and printed error messages. */
module Wrappers {

  datatype Option<+T> = None | Some(value: T)

  datatype Result<+T, +E> = Ok(value: T) | Err(error: E)
}
