/** Results shared by every component: the scripts answer with a value or stop with an
    exception.  Which exception was raised never decides anything that is modelled. */
module Outcomes {
  datatype Option<+T> = None | Some(value: T)

  datatype Result<+T> = Ok(value: T) | Refused
}
