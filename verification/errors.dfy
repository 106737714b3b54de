/** Errors the interpreter reports to its callers, and the result wrappers built on them. */
module Errors {

  /** The error kinds of the engine: a character a strict decoder refuses, a bracket
      without a partner, and a failed read or write on one of the two byte streams. */
  datatype BFError = Instruction(c: char) | Unmatched | IO

  datatype Result<T> = Ok(value: T) | Err(error: BFError)

  datatype Option<T> = None | Some(value: T)
}
