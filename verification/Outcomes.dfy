/** How a build ends: normally, or with one of the exceptions it throws. */
module Outcomes {

  datatype Error = TooLargeOffset | InvalidNull | NegativeValue | WrongOrder | EmptyKey | TooLargeLink

  datatype Outcome = Done | Failed(error: Error)
}
