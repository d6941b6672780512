/**
 * The two outcomes of `subprocess.check_output(..., stderr=STDOUT,
 * universal_newlines=True)` that the script handles: the captured text of a
 * run that exited with status 0, or a `CalledProcessError` carrying the
 * captured text of a run that exited with another status. Any other
 * exception (the program cannot be started, for one) is not modelled.
 */
module Command {

  datatype CommandResult =
    | Completed(output: string)
    | CalledProcessError(output: string)
}
