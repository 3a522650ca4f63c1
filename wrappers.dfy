/** Optional values, results, and the exceptions the generator can raise. */
module Wrappers {

  datatype Option<+T> = None | Some(value: T)

  /** A computation that either produced a value or raised an exception. */
  datatype Result<+T, +E> = Success(value: T) | Failure(error: E) {
    predicate IsFailure() { Failure? }

    function PropagateFailure<U>(): Result<U, E>
      requires Failure?
    {
      Failure(error)
    }

    function Extract(): T
      requires Success?
    {
      value
    }
  }

  /** Why `try_parse` gave up: the syntax error of the newest grammar, or no grammar at all. */
  datatype ParseFailure<+E> = Syntax(syntaxError: E) | UnknownParseFailure

  /** The Python exceptions the modelled code raises.  The parser's own syntax errors are
      carried as their message. */
  datatype Exc =
    | ParseError(failure: ParseFailure<string>)
    | IndexError(site: string)
    | ValueError(message: string)
    | NotADirectoryError(path: string)
}
