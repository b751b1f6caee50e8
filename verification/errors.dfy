/** The exceptions the modelled code can raise. */
module Errors {

  datatype Failure =
    | ZeroDivision            // `(i + 1) / total_segments` with total_segments == 0
    | Raised(message: string) // an exception from a collaborator, with its str(e)

  /** What `str(e)` yields for the exception. */
  function Message(f: Failure): string
  {
    match f
    case ZeroDivision => "division by zero"
    case Raised(msg) => msg
  }
}
