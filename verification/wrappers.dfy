/** Optional values and results with an error, used for the `None` returns and the exceptions of `linker.py` and `get_latest.py`. */
module Wrappers {

  datatype Option<+T> = None | Some(value: T)

  datatype Result<+T, +E> = Ok(value: T) | Err(error: E)
}
