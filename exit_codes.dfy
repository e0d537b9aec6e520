/** The exit vocabulary of a middleware (src/MiddlewareExitCode.ts). */
module ExitCodes {
  import opened Wrappers

  /** `MiddlewareExitCode.NEXT` and `MiddlewareExitCode.EXIT`. */
  datatype ExitCode = Next | Exit

  /** The exit code the execution loop keeps after awaiting a handler:
      `await handler(req) || NEXT`. A handler that resolves to nothing
      (`None`, a falsy value) counts as `Next`; only an explicit `Exit` stops. */
  function Normalize(result: Option<ExitCode>): (code: ExitCode)
    ensures code == Exit <==> result == Some(Exit)
    ensures result.None? ==> code == Next
  {
    match result
    case None => Next
    case Some(c) => c
  }
}
