/** Failure-compatible result types shared by the whole model.

    Python code in the extraction engine signals failure by raising an
    exception that nobody catches; the model returns `Err` with the
    exception's class instead, so that every such path is visible in the
    contracts.
 */
module Wrappers {

  datatype Option<+T> = None | Some(value: T) {
    function GetOr(default: T): T {
      match this
      case Some(v) => v
      case None => default
    }
  }

  /** The Python exception classes the engine can raise on its own. */
  datatype PyError =
    | IndexError          // `xs[0]` / `xs[-1]` on an empty list
    | ValueError          // a two-target unpack of a list whose length is not 2
    | TypeError           // `dict.update` called with two positional arguments
    | ZeroDivisionError   // a mean over an empty block list
    | KeyError            // a block without the `Relationships` entry
    | UnboundLocalError   // a local variable read before any assignment

  datatype Result<+T> = Ok(value: T) | Err(error: PyError) {
    predicate IsFailure() {
      Err?
    }

    function PropagateFailure<U>(): Result<U>
      requires Err?
    {
      Err(error)
    }

    function Extract(): T
      requires Ok?
    {
      value
    }
  }
}
