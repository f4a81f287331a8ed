/** The two small failure-carrying datatypes the rest of the model is written with. */
module Results {

  /** A value that may be absent: the answer of a lookup by key. */
  datatype Option<+T> = None | Some(value: T)

  /** Either a parsed value or the reason parsing failed. */
  datatype Result<+T, +E> = Ok(value: T) | Err(error: E)
}
