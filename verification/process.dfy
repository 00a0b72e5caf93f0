/** The subprocess outcomes that `run_quick` (gui/) and `run_cmd` (gui2/)
    turn into a `(returncode, stdout, stderr)` triple. */
module ProcessOutcome {

  /** How `subprocess.run` ended: the child exited (possibly with a
      negative code for a signal), the executable was missing
      (`FileNotFoundError`), the timeout expired (`TimeoutExpired`), or any
      other exception was raised (its text). */
  datatype Outcome = Exited(rc: int, out: string, err: string) | NotFound | TimedOut | Other(msg: string)

  /** The `(returncode, stdout, stderr)` triple. */
  datatype Reply = Reply(code: int, out: string, err: string)

  const NotFoundCode: int := 127
  const TimeoutCode: int := 124
}
