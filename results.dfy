/** Option and Result values, used where the service returns "nothing" or an
    error instead of raising. */
module Results {

  datatype Option<T> = None | Some(value: T)

  datatype Result<T, E> = Success(value: T) | Failure(error: E)
}
