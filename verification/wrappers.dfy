/** Small failure-carrying datatypes shared by the other modules. */
module Wrappers {

  /** A value that may be missing: a file that cannot be opened, an entry that cannot be read. */
  datatype Option<+T> = None | Some(value: T)

  /** How an operation of the tool ended: normally, or through an exception nobody catches. */
  datatype Outcome = Ok | Fault(reason: string)
}
