/** Optional values and results with an error, for the C++ `std::optional`,
    null pointers and `Result` codes of the source. */
module Wrappers {
  datatype Option<T> = None | Some(value: T)

  datatype Result<T, E> = Ok(value: T) | Err(error: E) {
    predicate IsOk() { Ok? }
  }
}
