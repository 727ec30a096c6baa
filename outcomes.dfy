/** Failure-carrying values shared by the whole model. */
module Outcomes {

  datatype Option<+T> = None | Some(value: T)

  /** The exceptions the scheduler can raise, one constructor per cause. */
  datatype Error =
    | MissingDiscipline     // RuntimeError raised by prepare
    | EmptyPool(d: string)  // IndexError: a discipline whose slot list is empty
    | BadOccupant           // IndexError/ValueError while parsing an evicted thread name
    | OutOfFuel             // the preemptive pass visited more queue entries than allowed

  datatype Result<+T> = Ok(value: T) | Err(error: Error)

  /** What a state-changing scheduler method reports to its caller. */
  datatype Outcome = Pass | Fail(error: Error)

  function OutcomeOf<T>(r: Result<T>): Outcome
  {
    match r
    case Ok(_) => Pass
    case Err(e) => Fail(e)
  }
}
