/** The two result shapes shared by every module: a possibly missing value, and a
    value or the error that was thrown instead of it. */
module Options {
  datatype Option<+T> = None | Some(value: T)

  datatype Result<+T, +E> = Ok(value: T) | Err(error: E)
}
