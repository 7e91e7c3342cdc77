/** Failure-carrying values shared by the modules of the highlighter model. */
module Wrappers {

  /** A value that may be absent; `None` stands for the exception the
      highlighter would raise (for example a malformed tk index). */
  datatype Option<+T> = None | Some(value: T)
}
