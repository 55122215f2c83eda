/** Optional values and results with an error, used for the program's
    "no match" and exception paths. */
module Base {
  datatype Option<+T> = None | Some(value: T)

  datatype Result<+T, +E> = Ok(value: T) | Err(error: E)
}
