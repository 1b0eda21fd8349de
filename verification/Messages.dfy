/** The envelopes of proto/vynkor_protocol.proto that the modelled code tells apart. */
module Messages {
  datatype Status = ActionOk | ActionError | ActionNotFound

  datatype Envelope =
    | ActionRequest(actionId: string, action: string, params: string, timeoutMs: nat, streaming: bool)
    | ActionResponse(actionId: string, status: Status, data: string, error: string)
    | ActionStreamAbort(actionId: string, reason: string)
    | KernelError(message: string, details: string)
    | OtherEnvelope(body: string)

  /** What a handler or executor returns. */
  datatype ActionResult = Success(data: string) | Failure(error: string)
}
