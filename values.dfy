/** Small result types shared by the model of the configuration parser. */
module Values {

  /** A value that may be absent (JavaScript `undefined`). */
  datatype Option<T> = None | Some(value: T)

  /** The outcome of an operation that may throw. The only exception the
      modelled code can raise is the `TypeError` of reading a property of
      `undefined`. */
  datatype Result<T> = Ok(value: T) | TypeError
}
