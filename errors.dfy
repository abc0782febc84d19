/** Failure-compatible result types and the error taxonomy of ciux.
    Every Go function of the core that returns `(T, error)` is modelled as a
    function or method returning `Result<T>`. */
module Errors {

  /** The kinds of error the core reports; the payload is the offending value. */
  datatype Error =
    | InvalidArgument(detail: string)   // an argument the callee refuses (empty or absolute path)
    | Io(detail: string)                // a filesystem probe failed
    | Vcs(detail: string)               // a git access failed (open, log, patch, tags, worktree)
    | InvalidSemVer(tag: string)        // a tag that does not parse as a semantic version
    | ReleaseCandidate(tag: string)     // the release-candidate part of a tag does not parse
    | Config(detail: string)            // a configuration value is refused
    | SelectorParse(selector: string)   // a label selector does not parse
    | NotFound(detail: string)          // a remote has none of the conventional main branches
    | UrlParse(url: string)             // a URL or image reference does not parse

  datatype Option<+T> = None | Some(value: T)

  datatype Result<+T> = Ok(value: T) | Err(error: Error) {
    predicate IsFailure() {
      Err?
    }

    function PropagateFailure<U>(): Result<U>
      requires Err?
    {
      Err(error)
    }

    function Extract(): T
      requires Ok?
    {
      value
    }
  }
}
