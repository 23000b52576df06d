/** Failure-carrying results for the HV-scan data reduction.

    Every way the reduction can abort (an exception the script does not catch)
    is one `Fault`, and so is one result the model refuses to compute: a
    division by a zero numpy value, which numpy answers with infinity or
    NaN rather than an exception. Operations that can fail return a
    `Result`.
 */
module Outcome {

  /** The uncaught exceptions of the reduction, one constructor per cause,
      and the zero divisor. */
  datatype Fault =
    | InvalidLiteral(cell: string)   // int() or float() rejects a non-empty cell
    | IndexOutOfRange                // a parallel sequence is too short
    | MissingColumn(name: string)    // a column looked up by name does not exist
    | EmptySequence                  // max() of an empty sequence
    | DivisionByZero                 // a zero numpy divisor; numpy itself gives inf or NaN

  datatype Result<+T> = Ok(value: T) | Err(fault: Fault) {
    predicate IsFailure() {
      Err?
    }

    function PropagateFailure<U>(): Result<U>
      requires Err?
    {
      Err(fault)
    }

    function Extract(): T
      requires Ok?
    {
      value
    }
  }

  datatype Option<+T> = None | Some(value: T)
}
