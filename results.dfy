/** Option and Result, the two wrappers the Rust code returns, and the outcome of a call that may panic. */
module Results {

  datatype Option<T> = None | Some(value: T)

  datatype Result<T, E> = Ok(value: T) | Err(error: E)

  /** How a call that may panic (`expect`, `unwrap`) ends: it returns, or the process aborts with a message. */
  datatype Outcome<T> = Returned(value: T) | Panicked(message: string)

  /** The message `Result::unwrap` panics with (the error's debug form that follows it is not modelled). */
  const UNWRAP_FAILED := "called `Result::unwrap()` on an `Err` value"

  /** `result.expect(message)`. */
  function Expect<T, E>(result: Result<T, E>, message: string): (o: Outcome<T>)
    ensures o.Returned? <==> result.Ok?
    ensures result.Ok? ==> o.value == result.value
    ensures result.Err? ==> o.message == message
  {
    match result
    case Ok(v) => Returned(v)
    case Err(_) => Panicked(message)
  }
}
