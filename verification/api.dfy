/** The response-interpretation layer of `ApiService` (Api.ts): what each of the three
    remote calls returns for a given settled HTTP exchange, and the upload, poll and
    download sequence of `processRfp` over a finite run of status observations. */
module Api {
  import opened Js
  import opened Text
  import opened Http
  import Disposition

  // ---------------------------------------------------------------------
  // Wire bodies (fields named after their JSON keys)
  // ---------------------------------------------------------------------

  /** The JSON reply to an upload: the job id may come under any of three keys. */
  datatype UploadBody = UploadBody(job_id: Option<string>, jobId: Option<string>, id: Option<string>)

  /** The JSON reply to a status request. */
  datatype StatusBody = StatusBody(
    status: Option<string>,
    job_id: Option<string>,
    jobId: Option<string>,
    progress: Option<Scalar>,
    message: Option<string>)

  /** The JSON reply to a download request that did not carry a spreadsheet. */
  datatype DownloadBody = DownloadBody(error: Option<string>, message: Option<string>)

  /** The token `URL.createObjectURL` returns for a downloaded blob. */
  type ObjectUrl = s: string | s != "" witness "blob:"

  // ---------------------------------------------------------------------
  // Results handed back to callers
  // ---------------------------------------------------------------------

  datatype UploadResponse = Uploaded(jobId: string) | UploadError(error: string)

  datatype StatusResponse =
    | StatusReport(status: string, jobId: string, progress: Option<int>, message: Option<string>)
    | StatusError(error: string)

  /** The shape shared by `downloadJobResult`, `processRfp` and the upload handler. */
  datatype Outcome = Succeeded(downloadUrl: string, filename: string) | Failed(error: string)

  const MissingJobIdMessage := "Upload succeeded but job id not returned"
  const UploadExceptionMessage := "Failed to upload RFP file"
  const StatusExceptionMessage := "Failed to get job status"
  const DownloadExceptionMessage := "Failed to download job result"
  const UnexpectedDownloadMessage := "Unexpected response while downloading"
  const UploadFailedMessage := "Upload failed"
  const ProcessingFailedMessage := "Processing failed"
  const TimedOutMessage := "Processing timed out"
  const SpreadsheetType := "application/vnd.openxmlformats-officedocument.spreadsheetml.sheet"
  /** The maximum wait, in milliseconds, when the environment does not configure one: thirty minutes. */
  const DefaultMaxWait := 30 * 60 * 1000

  /** The optional `error` field of an upload response. */
  function UploadErrorField(r: UploadResponse): Option<string> {
    if r.UploadError? then Some(r.error) else None
  }

  /** The optional `error` field of an outcome. */
  function OutcomeErrorField(r: Outcome): Option<string> {
    if r.Failed? then Some(r.error) else None
  }

  // ---------------------------------------------------------------------
  // uploadRfp
  // ---------------------------------------------------------------------

  /** `data.job_id || data.jobId || data.id`, when it is truthy. */
  function PickJobId(b: UploadBody): (id: Option<string>)
    ensures Truthy(b.job_id) ==> id == b.job_id
    ensures !Truthy(b.job_id) && Truthy(b.jobId) ==> id == b.jobId
    ensures !Truthy(b.job_id) && !Truthy(b.jobId) && Truthy(b.id) ==> id == b.id
    ensures !Truthy(b.job_id) && !Truthy(b.jobId) && !Truthy(b.id) ==> id == None
  {
    var fields := [b.job_id, b.jobId, b.id];
    assert fields[0] == b.job_id && fields[1] == b.jobId && fields[2] == b.id;
    FirstTruthy(fields)
  }

  function UploadRfp(reply: Reply<UploadBody>): (r: UploadResponse)
    ensures r.Uploaded? ==> r.jobId != ""
    ensures reply.Threw? ==> r == UploadError(Caught(reply.thrown, UploadExceptionMessage))
    ensures reply.Responded? && !Ok(reply.status) ==> r == UploadError(HttpError(reply.status, reply.text))
    ensures reply.Responded? && Ok(reply.status) && reply.json.Unparsable? ==>
              r == UploadError(reply.json.syntaxError)
    ensures reply.Responded? && Ok(reply.status) && reply.json.Parsed? ==>
              var b := reply.json.body;
              && (Truthy(b.job_id) ==> r == Uploaded(b.job_id.value))
              && (!Truthy(b.job_id) && Truthy(b.jobId) ==> r == Uploaded(b.jobId.value))
              && (!Truthy(b.job_id) && !Truthy(b.jobId) && Truthy(b.id) ==> r == Uploaded(b.id.value))
              && (!Truthy(b.job_id) && !Truthy(b.jobId) && !Truthy(b.id) ==> r == UploadError(MissingJobIdMessage))
  {
    match reply
    case Threw(thrown) => UploadError(Caught(thrown, UploadExceptionMessage))
    case Responded(status, _, text, json) =>
      if !Ok(status) then UploadError(HttpError(status, text))
      else
        match json
        case Unparsable(syntaxError) => UploadError(Caught(ErrorObject(syntaxError), UploadExceptionMessage))
        case Parsed(body) =>
          match PickJobId(body)
          case None => UploadError(MissingJobIdMessage)
          case Some(id) => Uploaded(id)
  }

  // ---------------------------------------------------------------------
  // getJobStatus
  // ---------------------------------------------------------------------

  function GetJobStatus(requested: string, reply: Reply<StatusBody>): (r: StatusResponse)
    ensures reply.Threw? ==> r == StatusError(Caught(reply.thrown, StatusExceptionMessage))
    ensures reply.Responded? && !Ok(reply.status) ==> r == StatusError(HttpError(reply.status, reply.text))
    ensures reply.Responded? && Ok(reply.status) && reply.json.Unparsable? ==>
              r == StatusError(reply.json.syntaxError)
    ensures r.StatusReport? <==> reply.Responded? && Ok(reply.status) && reply.json.Parsed?
    ensures r.StatusReport? ==> IsLower(r.status)
    ensures r.StatusReport? ==>
              var b := reply.json.body;
              && (Truthy(b.status) ==> r.status == ToLower(b.status.value))
              && (!Truthy(b.status) ==> r.status == "")
              && (r.progress.Some? <==> b.progress.Some? && b.progress.value.Num?)
              && (r.progress.Some? ==> r.progress.value == b.progress.value.n)
              && (Truthy(b.job_id) ==> r.jobId == b.job_id.value)
              && (!Truthy(b.job_id) && Truthy(b.jobId) ==> r.jobId == b.jobId.value)
              && (!Truthy(b.job_id) && !Truthy(b.jobId) ==> r.jobId == requested)
              && r.message == b.message
  {
    match reply
    case Threw(thrown) => StatusError(Caught(thrown, StatusExceptionMessage))
    case Responded(status, _, text, json) =>
      if !Ok(status) then StatusError(HttpError(status, text))
      else
        match json
        case Unparsable(syntaxError) => StatusError(Caught(ErrorObject(syntaxError), StatusExceptionMessage))
        case Parsed(body) =>
          var progress := if body.progress.Some? && body.progress.value.Num? then Some(body.progress.value.n) else None;
          var ids := [body.job_id, body.jobId];
          assert ids[0] == body.job_id && ids[1] == body.jobId;
          StatusReport(ToLower(Or(body.status, "")), Or(FirstTruthy(ids), requested), progress, body.message)
  }

  // ---------------------------------------------------------------------
  // downloadJobResult
  // ---------------------------------------------------------------------

  /** `contentType && contentType.includes(<spreadsheet MIME type>)`. */
  predicate IsSpreadsheet(contentType: Option<string>) {
    Truthy(contentType) && Includes(contentType.value, SpreadsheetType)
  }

  function DownloadJobResult(reply: Reply<DownloadBody>, objectUrl: ObjectUrl): (r: Outcome)
    ensures r.Succeeded? <==> reply.Responded? && Ok(reply.status) && IsSpreadsheet(reply.headers.contentType)
    ensures r.Succeeded? ==>
              && r.downloadUrl == objectUrl
              && QuoteFree(r.filename)
              && r.filename == Disposition.FilenameFrom(reply.headers.contentDisposition)
    ensures reply.Threw? ==> r == Failed(Caught(reply.thrown, DownloadExceptionMessage))
    ensures reply.Responded? && !Ok(reply.status) ==> r == Failed(HttpError(reply.status, reply.text))
    ensures reply.Responded? && Ok(reply.status) && !IsSpreadsheet(reply.headers.contentType) ==>
              match reply.json
              case Unparsable(syntaxError) => r == Failed(syntaxError)
              case Parsed(b) => r == Failed(Or(b.error, Or(b.message, UnexpectedDownloadMessage)))
  {
    match reply
    case Threw(thrown) => Failed(Caught(thrown, DownloadExceptionMessage))
    case Responded(status, headers, text, json) =>
      if !Ok(status) then Failed(HttpError(status, text))
      else if IsSpreadsheet(headers.contentType) then
        Succeeded(objectUrl, Disposition.FilenameFrom(headers.contentDisposition))
      else
        match json
        case Unparsable(syntaxError) => Failed(Caught(ErrorObject(syntaxError), DownloadExceptionMessage))
        case Parsed(body) => Failed(Or(body.error, Or(body.message, UnexpectedDownloadMessage)))
  }

  // ---------------------------------------------------------------------
  // The polling loop of processRfp
  // ---------------------------------------------------------------------

  /** One pass of the loop: the status reply, and the milliseconds elapsed since polling
      began, read when the timeout is checked after that reply. */
  datatype Observation = Observation(reply: Reply<StatusBody>, elapsed: int)

  /** How polling ended. `Exhausted` means the finite run of observations ran out while the
      loop would have gone on waiting. */
  datatype PollEnd =
    | Completed
    | StatusFailure(error: string)
    | JobFailed(message: Option<string>)
    | TimedOut
    | Exhausted

  /** What one observation decides, in the order the loop checks: a failed status call,
      then `completed`, then `failed`, then the strict timeout; `None` keeps polling. */
  function Verdict(jobId: string, o: Observation, maxWait: int): (v: Option<PollEnd>)
    ensures v != Some(Exhausted)
    ensures GetJobStatus(jobId, o.reply).StatusError? ==>
              v == Some(StatusFailure(GetJobStatus(jobId, o.reply).error))
    ensures v == None <==>
              var s := GetJobStatus(jobId, o.reply);
              s.StatusReport? && s.status != "completed" && s.status != "failed" && o.elapsed <= maxWait
    ensures v == Some(TimedOut) ==> o.elapsed > maxWait
    ensures var s := GetJobStatus(jobId, o.reply);
              s.StatusReport? && s.status == "completed" ==> v == Some(Completed)
    ensures var s := GetJobStatus(jobId, o.reply);
              s.StatusReport? && s.status == "failed" ==> v == Some(JobFailed(s.message))
    ensures var s := GetJobStatus(jobId, o.reply);
              s.StatusReport? && s.status != "completed" && s.status != "failed" && o.elapsed > maxWait ==>
                v == Some(TimedOut)
  {
    match GetJobStatus(jobId, o.reply)
    case StatusError(error) => Some(StatusFailure(error))
    case StatusReport(status, _, _, message) =>
      if status == "completed" then Some(Completed)
      else if status == "failed" then Some(JobFailed(message))
      else if o.elapsed > maxWait then Some(TimedOut)
      else None
  }

  /** The message a stopped poll reports. */
  function StopMessage(end: PollEnd): (m: string)
    requires end.StatusFailure? || end.JobFailed? || end.TimedOut?
    ensures m != ""
    ensures end.StatusFailure? && end.error != "" ==> m == end.error
    ensures end.JobFailed? && Truthy(end.message) ==> m == end.message.value
    ensures end.JobFailed? && !Truthy(end.message) ==> m == ProcessingFailedMessage
    ensures end.StatusFailure? && end.error == "" ==> m == StatusExceptionMessage
    ensures end.TimedOut? ==> m == TimedOutMessage
  {
    match end
    case StatusFailure(error) => Or(Some(error), StatusExceptionMessage)
    case JobFailed(message) => Or(message, ProcessingFailedMessage)
    case TimedOut => TimedOutMessage
  }

  datatype Polling = Polling(polls: nat, end: PollEnd)

  /** Poll until an observation decides; `polls` is the number of status requests made. */
  function AwaitCompletion(jobId: string, obs: seq<Observation>, maxWait: int): (r: Polling)
    ensures r.polls <= |obs|
    ensures forall i :: 0 <= i < r.polls && i < |obs| && !(r.end != Exhausted && i == r.polls - 1) ==>
              Verdict(jobId, obs[i], maxWait) == None
    ensures r.end == Exhausted ==> r.polls == |obs|
    ensures r.end != Exhausted ==> 1 <= r.polls && Verdict(jobId, obs[r.polls - 1], maxWait) == Some(r.end)
    decreases |obs|
  {
    if |obs| == 0 then Polling(0, Exhausted)
    else
      match Verdict(jobId, obs[0], maxWait)
      case Some(end) => Polling(1, end)
      case None =>
        var rest := AwaitCompletion(jobId, obs[1..], maxWait);
        Polling(1 + rest.polls, rest.end)
  }

  // ---------------------------------------------------------------------
  // processRfp
  // ---------------------------------------------------------------------

  /** The remote calls made, in order. */
  datatype Request = UploadRequest | StatusRequest(jobId: string) | DownloadRequest(jobId: string)

  /** Either the call resolved with an outcome, or it is still polling when the
      observations run out. */
  datatype RunResult = Finished(outcome: Outcome) | AwaitingStatus

  datatype Session = Session(requests: seq<Request>, result: RunResult)

  function StatusRequests(jobId: string, n: nat): (rs: seq<Request>)
    ensures |rs| == n
    ensures forall i :: 0 <= i < n ==> rs[i] == StatusRequest(jobId)
  {
    seq(n, _ => StatusRequest(jobId))
  }

  /** Whether the upload step produced a job to poll (`upload.success && upload.jobId`). */
  predicate Accepted(up: UploadResponse) {
    up.Uploaded? && up.jobId != ""
  }

  function ProcessRfp(upload: Reply<UploadBody>, obs: seq<Observation>, download: Reply<DownloadBody>,
                      objectUrl: ObjectUrl, maxWait: int): (r: Session)
    ensures |r.requests| >= 1 && r.requests[0] == UploadRequest
    ensures !Accepted(UploadRfp(upload)) ==>
              r == Session([UploadRequest], Finished(Failed(Or(UploadErrorField(UploadRfp(upload)), UploadFailedMessage))))
    ensures (r.result.Finished? && r.result.outcome.Failed? && r.result.outcome.error == "") ==>
              r.result == Finished(DownloadJobResult(download, objectUrl))
  {
    var up := UploadRfp(upload);
    if !Accepted(up) then
      Session([UploadRequest], Finished(Failed(Or(UploadErrorField(up), UploadFailedMessage))))
    else
      var jobId := up.jobId;
      var p := AwaitCompletion(jobId, obs, maxWait);
      var polled := [UploadRequest] + StatusRequests(jobId, p.polls);
      match p.end
      case Exhausted => Session(polled, AwaitingStatus)
      case Completed => Session(polled + [DownloadRequest(jobId)], Finished(DownloadJobResult(download, objectUrl)))
      case _ => Session(polled, Finished(Failed(StopMessage(p.end))))
  }
}
