/** Outcomes shared by every reader: a value, or the exception the Python code raises. */
module Wrappers {
  import opened Bytes

  datatype Option<+T> = None | Some(value: T)

  /** The exceptions the modelled code raises, named after their Python classes.
      `NoTerminator` stands for a read loop that never ends (the source keeps
      reading past the end of the input), `RecursionLimit` for recursion that only
      stops when the interpreter's depth limit is hit. */
  datatype Error =
    | AssertionFailed(message: string)
    | StructError
    | IndexError
    | TypeError
    | ValueError
    | OSError
    | KeyError
    | NameError
    | AttributeError
    | UnsupportedFileType(magic: seq<byte>)
    | RecursionLimit
    | NoTerminator

  datatype Result<+T> = Ok(value: T) | Err(error: Error) {
    predicate IsFailure() { Err? }

    function PropagateFailure<U>(): Result<U>
      requires Err?
    {
      Err(error)
    }

    function Extract(): T
      requires Ok?
    {
      value
    }
  }
}
