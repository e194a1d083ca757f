/** Option and Result values shared by the modules of the interpreter. */
module Results {

  datatype Option<+T> = None | Some(value: T)

  /** The outcome of an operation that may fail with an error of type `E`. */
  datatype Result<+T, +E> = Success(value: T) | Failure(error: E)

  /** A success or a failure carrying no value. */
  datatype Outcome<+E> = Pass | Fail(error: E)

  /** Forgets the value of a result. */
  function ToOutcome<T, E>(r: Result<T, E>): (o: Outcome<E>)
    ensures o.Pass? <==> r.Success?
    ensures o.Fail? ==> o.error == r.error
  {
    match r
    case Success(_) => Pass
    case Failure(e) => Fail(e)
  }
}
