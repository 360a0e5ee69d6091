/** Optional values and results with an error, used where the program returns
    Go's `(value, error)` pairs or a zero value on a miss. */
module Outcomes {

  datatype Option<+T> = None | Some(value: T)

  datatype Result<+T, +E> = Ok(value: T) | Err(error: E)
}
