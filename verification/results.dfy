/** The outcome of a procedure call: either its value, or the error it throws. */
module Results {

  /** `Ok` carries the value a procedure returns; `Err` the error it would throw. */
  datatype Result<+T, +E> = Ok(value: T) | Err(error: E)

}
