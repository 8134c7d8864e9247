/** The Option type used for the handlers' optional form fields. */
module Wrappers {
  datatype Option<+T> = None | Some(value: T)
}

/**
 * What the handlers need of Python's runtime: the exceptions they catch,
 * and `subprocess.run` with `capture_output=True, text=True`, seen as a
 * runner that records every argument vector it is asked to run and answers
 * with whatever the environment makes the command do.
 */
module Process {

  /**
   * A raised Python exception, by the class the handlers distinguish, with
   * `str(e)` as its message. Subclasses of `RuntimeError` are `RuntimeError`
   * here; `PermissionError` is an `OSError` and no `RuntimeError`. Only
   * subclasses of `Exception` are represented: what derives from
   * `BaseException` alone (`KeyboardInterrupt`, `SystemExit`,
   * `asyncio.CancelledError`) is outside the model.
   */
  datatype Exception =
    | RuntimeError(message: string)
    | PermissionError(message: string)
    | OtherException(message: string)

  /** An argument vector as handed to `subprocess.run`. */
  type Argv = seq<string>

  /**
   * What one `subprocess.run` call gives: a completed process with its
   * return code and captured standard error, or an exception raised by the
   * call itself (for instance when the executable cannot be found).
   */
  datatype Completion =
    | Exited(returnCode: int, stderr: string)
    | Raised(error: Exception)

  /** A call into an opaque client: the value it returns or the exception it raises. */
  datatype Outcome<+T> = Returned(value: T) | Threw(error: Exception)

  class Runner {
    /** The environment: what the command run as the n-th one (counting from 0) completes with. */
    const respond: (nat, Argv) -> Completion
    /** Every argument vector run so far, oldest first. */
    var issued: seq<Argv>

    constructor (respond: (nat, Argv) -> Completion)
      ensures this.respond == respond && issued == []
    {
      this.respond := respond;
      issued := [];
    }

    /** Runs one external command and waits for it. */
    method Run(argv: Argv) returns (c: Completion)
      modifies this
      ensures issued == old(issued) + [argv]
      ensures c == respond(|old(issued)|, argv)
    {
      c := respond(|issued|, argv);
      issued := issued + [argv];
    }
  }
}
