/** Failure-carrying results shared by the product and customer services. */
module Results {

  /** A nullable reference: None stands for Java's null. */
  datatype Option<+T> = None | Some(value: T)

  /** The exceptions the services throw, each with the message it carries. */
  datatype Error =
    | ProductPurchaseException(message: string)
    | EntityNotFoundException(message: string)
    | CustomerNotFoundException(message: string)

  /** Either the value a service call returns or the exception it throws. */
  datatype Result<+T> = Success(value: T) | Failure(error: Error)

  /** What a service call leaves behind: its result, and the repository state
      once the call (and its transaction, if any) has ended. */
  datatype Outcome<+T, +S> = Outcome(result: Result<T>, state: S)

  /** A transaction boundary: the body's final state is committed when it
      returns normally, and the starting state is restored when it throws. */
  function Transactional<T, S>(start: S, body: Result<(T, S)>): (o: Outcome<T, S>)
    ensures o.result.Success? <==> body.Success?
    ensures body.Success? ==> o.result.value == body.value.0 && o.state == body.value.1
    ensures body.Failure? ==> o.result.error == body.error && o.state == start
  {
    match body
    case Success((v, s)) => Outcome(Success(v), s)
    case Failure(e) => Outcome(Failure(e), start)
  }
}
