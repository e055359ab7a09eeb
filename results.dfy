/** Success-or-error values, standing in for the exceptions the source throws. */
module Results {
  datatype Result<+T, +E> = Ok(value: T) | Err(error: E)
}
