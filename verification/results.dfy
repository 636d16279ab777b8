/** Outcome types shared by the whole model: Go's `error` values and its
    `(value, err)` return pairs. */
module Results {

  datatype Option<+T> = None | Some(value: T)

  /** A Go `error`, identified by the text its `Error()` method returns. */
  datatype Error = Error(message: string)

  /** A Go `(value, nil)` or `(_, err)` return. */
  datatype Result<+T> = Success(value: T) | Failure(error: Error)

  /** `fmt.Errorf(prefix + "%w", e)`: the wrapped error's text follows the prefix. */
  function Wrap(prefix: string, e: Error): Error
  {
    Error(prefix + e.message)
  }
}
