/** The success-or-failure value returned by fallible operations. */
module Results {

  datatype Result<+T, +E> = Ok(value: T) | Err(error: E)
}
