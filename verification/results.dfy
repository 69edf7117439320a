/** Failure-carrying values shared by the other modules: an optional value
    (a `nullptr` return, a search that may miss) and a result that is
    either a value or the message of a thrown exception. */
module Results {

  datatype Option<+T> = None | Some(value: T)

  datatype Result<+R, +E> = Success(value: R) | Failure(error: E)

}
