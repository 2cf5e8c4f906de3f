/** Failure-carrying values: `Option` stands for a Java reference that may be
    `null`, `Result` for a call that may throw. */
module Results {

  datatype Option<T> = None | Some(value: T)

  datatype Result<T, X> = Ok(value: T) | Fail(error: X)
}
