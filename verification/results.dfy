/** Failure-carrying values shared by the link and decoder models.
    `Option` stands for the JavaScript `null`-or-object results of the
    server; `Result` for a computation that may throw. */
module Results {

  datatype Option<+T> = None | Some(value: T)

  datatype Result<+R, +E> = Success(value: R) | Failure(error: E)
}
