/** Option and Result values shared by every module of the model. */
module Wrappers {

  /** Python's `None` or a present value. */
  datatype Option<+T> = None | Some(value: T)

  /** The outcome of an operation that may raise: a value, or the exception it raises. */
  datatype Result<+T, +E> = Ok(value: T) | Err(error: E) {
    predicate IsFailure() { Err? }

    function PropagateFailure<U>(): Result<U, E>
      requires Err?
    {
      Err(error)
    }

    function Extract(): T
      requires Ok?
    {
      value
    }
  }
}

/** The Python exceptions the scripts of the model can raise. */
module PyExceptions {

  datatype Exception =
    | IndexError                    // `str.split('}', 1)[1]` on a tag without a namespace
    | AttributeError(name: string)  // an attribute taken on `None` (a `find` that found nothing)
    | TypeError(name: string)       // iterating over `None`
    | NameError(name: string)       // a table variable that no loop iteration bound
    | FileNotFound(name: string)    // a file name that the parser cannot open
}
