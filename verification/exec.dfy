/**
 * The boundary with the git executable. Running a process is not modelled:
 * every operation receives the captured result of the commands it issues,
 * through a `Git` function from argument list to captured output.
 */
module Exec {
  import opened Wrappers

  /** The error of a failed git invocation. The model only carries it through. */
  datatype CmdError = CmdError(detail: string)

  /** What `Get` hands back: the captured standard output and, when the
      command failed, its error (a Go `error` that may be nil). */
  datatype Captured = Captured(text: string, err: Option<CmdError>)

  /** `Get(opts...)`: the captured output of `git <opts...>`. */
  type Git = seq<string> -> Captured

  /** `Do(opts...)`: the exit code of `git <opts...>`. */
  type Do = seq<string> -> int
}
