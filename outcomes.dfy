/** Shared result types: a missing value, and the way a step of the system
    ends when the source raises an exception or exits. */
module Outcomes {

  datatype Option<T> = None | Some(value: T)

  /** The exceptions the modelled code can raise, named after the runtime
      that raises them, plus an explicit process exit. */
  datatype Fault =
    | KeyError          // Python: dict lookup of a missing key
    | ValueError        // Python: int()/long() of a malformed string, bad tuple unpacking
    | IndexError        // Python: list index or pop on an empty list
    | AttributeError    // Python: attribute missing on the object
    | NameError         // Python: name used but never bound
    | TypeError         // Python: None passed where a string is needed, bad base64
    | NumberFormat      // Java: Integer.parseInt of a malformed number
    | IndexOutOfBounds  // Java: array or list index out of range
    | Exit(code: int)   // sys.exit(code)

  datatype Result<T> = Ok(value: T) | Err(fault: Fault)

  /** The outcome of a step that returns nothing. */
  datatype Outcome = Done | Failed(fault: Fault)
}
