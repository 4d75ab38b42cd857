/** Failure-carrying results shared by every part of the model. */
module Wrappers {

  datatype Option<+T> = None | Some(value: T)

  /** The ways a modelled call can end without a value. */
  datatype Failure =
    | KeyMissing                 // a Python KeyError on a dictionary lookup
    | IndexOutOfRange            // a Python IndexError on a list index
    | EmptyChoice                // random.choice on an empty list
    | ZeroDivision               // a Python ZeroDivisionError
    | AssertionFailed(line: nat) // an `assert` statement of the source, by line
    | OutOfFuel                  // the search loop ran past its iteration bound

  datatype Result<+T> = Ok(value: T) | Err(error: Failure)
}
