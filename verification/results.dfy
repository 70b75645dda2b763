/** Failure-carrying wrappers shared by the game model. */
module Results {

  /** An optional value: what `Array.prototype.find` returns, with `undefined` as None. */
  datatype Option<+T> = None | Some(value: T)

  /** Either a value or the error that interrupted the computation. */
  datatype Result<+T, +E> = Ok(value: T) | Err(error: E)
}
