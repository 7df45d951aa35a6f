/** Small wrapper datatypes shared by the other modules. */
module Wrappers {

  /** A value that may be absent; `None` stands for a key a JSON object lacks. */
  datatype Option<+T> = None | Some(value: T)

  /** The result of a step that may end the whole run: `Abort` stands for the
      program calling `exit()` after printing its error message. */
  datatype Outcome<+T> = Done(value: T) | Abort
}
