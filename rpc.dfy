/** The parts of yangtools' `RpcResult` and `RpcError` the services use: a
    result is successful or failed and carries a list of errors. */
module Rpc {
  import opened Wrappers

  /** `RpcError.ErrorType`. */
  datatype ErrorType = Transport | RpcLayer | Protocol | Application

  /** An error: its type, its tag (None where the builder picks its default)
      and its message. The application tag, info and cause are not part of
      this model. */
  datatype RpcError = RpcError(errorType: ErrorType, tag: Option<string>, message: string)

  datatype RpcResult = RpcResult(successful: bool, errors: seq<RpcError>)

  /** `RpcResultBuilder.success().build()`. */
  function Success(): RpcResult {
    RpcResult(true, [])
  }

  /** `RpcResultBuilder.failed().withRpcErrors(errors).build()`. */
  function Failed(errors: seq<RpcError>): RpcResult {
    RpcResult(false, errors)
  }

  /** `RpcResultBuilder.newError(ErrorType.APPLICATION, "", message, ...)` and
      `withError(ErrorType.APPLICATION, "", message)`. */
  function ApplicationError(message: string): RpcError {
    RpcError(Application, Some(""), message)
  }
}
