/** Failure-carrying values shared by the whole model.

    - Option<T> stands for a JavaScript value that may be `undefined`.
    - Result<T, E> stands for a promise that resolves with a value or rejects with an error.
 */
module Results {

  datatype Option<+T> = None | Some(value: T)

  datatype Result<+T, +E> = Ok(value: T) | Err(error: E) {
  }
}
