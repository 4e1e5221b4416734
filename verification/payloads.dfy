/** The provider replies the main process reads, reduced to the fields it
    looks at. JavaScript reads them with `||`, so an absent field, `null`
    and `""` behave alike; the model writes all three as `""` (and an
    absent progress as `0`). */
module Payloads {
  import opened Wrappers

  /** The reply to `GET /videos/{taskId}`. */
  datatype StatusReply = StatusReply(
    status: string,
    progress: int,
    videoUrl: string,
    url: string,
    outputUrl: string,
    error: string)

  /** The reply to `POST /videos`; `progress` is `None` when it is not a
      number. */
  datatype SubmitReply = SubmitReply(
    id: string,
    taskId: string,
    status: string,
    progress: Option<int>)

  /** What a record's `api_response` column holds: the last provider reply,
      or the summary written after an image request. */
  datatype ApiPayload =
    | Polled(status: StatusReply)
    | Submitted(submit: SubmitReply)
    | Images(imagePaths: seq<string>, count: nat)
}
