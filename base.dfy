/** Shared result types and the exceptions the modelled scripts raise. */
module Base {

  datatype Option<+T> = None | Some(value: T)

  /** Every way the modelled code stops with an exception (nothing is ever recovered). */
  datatype Error =
    | BadRef(name: string)                        // ValueError "Bad @ref link to <name>"
    | MissingFile(path: string)                   // open() of a %%include file that does not exist
    | EmptyCellSource                             // IndexError: cell['source'][0] of an empty source
    | HeadingSkip(level: nat, title: string, prevLevel: nat, prevTitle: string)
    | TopNotLevelOne(title: string)               // first ToC heading is not level 1
    | NoMetadata(tried: seq<string>)              // ValueError "Could not find metadata; tried ..."
    | DoxygenFailed(status: int)                  // IOError/OSError "doxygen failed"

  datatype Result<+T> = Success(value: T) | Failure(error: Error) {
    predicate IsFailure() { Failure? }
    function PropagateFailure<U>(): Result<U> requires Failure? { Failure(error) }
    function Extract(): T requires Success? { value }
  }
}
