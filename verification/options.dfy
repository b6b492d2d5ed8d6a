/** Optional values and outcomes that may fail, for the places where the
    source returns null or throws. */
module Options {

  datatype Option<T> = None | Some(value: T)

  datatype Result<T, E> = Ok(value: T) | Err(error: E)
}
