/** What a routine of the program yields: a value, or the status it ends the process with. */
module Outcomes {
  datatype Outcome<T> = Ok(value: T) | Exit(code: int)
}
