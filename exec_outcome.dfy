/**
 * What `child_process.exec` hands back to its callback, and how a promise
 * built around it is settled. The process itself is not modelled: the
 * callback's arguments are inputs.
 */
module ExecOutcome {
  import opened Wrappers

  /**
   * The `Error` object `exec` passes when the command fails: its message,
   * the exit code (absent when a signal ended the shell), whether `exec`
   * killed the process, the signal, and the command line that was run.
   */
  datatype ExecError = ExecError(message: string, code: Option<int>, killed: bool, signal: Option<string>, cmd: string)

  /** The `(error, stdout, stderr)` arguments of the callback; `error` is `null` on success. */
  datatype ExecReply = ExecReply(error: Option<ExecError>, stdout: string, stderr: string)

  /** The objects the runners reject with: `{error: message}`, `{error, stderr}` and `{stderr}`. */
  datatype Rejection =
    | ErrorMessage(error: string)
    | ErrorAndStderr(cause: ExecError, stderr: string)
    | StderrOnly(stderr: string)

  /** A promise settles exactly once: resolved with a value or rejected with a reason. */
  datatype Settlement = Resolved(value: string) | Rejected(reason: Rejection)

  /**
   * One call of a runner: the command lines handed to `exec` (none when the
   * call is refused before that) and how the returned promise settles.
   */
  datatype Execution = Execution(commands: seq<string>, settlement: Settlement)
}
