/** Whole runs of the upload handler on the exchanges of a worked example: a 1 MB PDF, job
    `abc123`, statuses `pending`, `processing`, `completed`, and a spreadsheet named
    `report.xlsx`. Each run is stated for any replies that decode to the example's values;
    separate lemmas show that the example's concrete replies do. */
module SampleRuns {
  import opened Js
  import opened Text
  import opened Http
  import opened Validator
  import opened Api
  import opened Progress
  import opened Workflow
  import opened WorkflowProofs
  import Disposition

  const NoHeaders := Headers(None, None)

  /** A 2xx status reply carrying only a status string. */
  function StatusReply(status: string): Reply<StatusBody> {
    Responded(200, NoHeaders, "", Parsed(StatusBody(Some(status), None, None, None, None)))
  }

  // The example's exchanges.
  const ExampleFile := FileInfo(PdfType, 1024 * 1024)
  const ExampleUpload: Reply<UploadBody> := Responded(200, NoHeaders, "", Parsed(UploadBody(Some("abc123"), None, None)))
  const ExampleObservations := [Observation(StatusReply("pending"), 0), Observation(StatusReply("processing"), 3000),
                                Observation(StatusReply("completed"), 6000)]
  const ExampleDownloadReply: Reply<DownloadBody> :=
    Responded(200, Headers(Some(SpreadsheetType), Some("attachment; filename=\"report.xlsx\"")), "", Parsed(DownloadBody(None, None)))

  /** The poll succeeded and reported `status` with no progress hint. */
  predicate Reports(jobId: string, o: Observation, status: string) {
    var s := GetJobStatus(jobId, o.reply);
    s.StatusReport? && s.status == status && s.progress.None?
  }

  // ---------------------------------------------------------------------
  // The concrete replies decode to the example's values
  // ---------------------------------------------------------------------

  lemma PendingIsLower() ensures IsLower("pending") {}
  lemma ProcessingIsLower() ensures IsLower("processing") {}
  lemma CompletedIsLower() ensures IsLower("completed") {}
  lemma FailedIsLower() ensures IsLower("failed") {}

  /** A lower-case status reply is reported as is, under the requested job id, without a hint. */
  lemma StatusReplyReport(jobId: string, status: string, elapsed: int)
    requires status != "" && IsLower(status)
    ensures GetJobStatus(jobId, StatusReply(status)) == StatusReport(status, jobId, None, None)
    ensures Reports(jobId, Observation(StatusReply(status), elapsed), status)
  {
    LowerIsFixed(status);
  }

  /** The upload reply names the job under `job_id`. */
  lemma ExampleUploadAccepted()
    ensures UploadRfp(ExampleUpload) == Uploaded("abc123")
  {
  }

  lemma SpreadsheetTypeRecognised()
    ensures IsSpreadsheet(Some(SpreadsheetType))
  {
    assert OccursAt(SpreadsheetType, 0, SpreadsheetType);
  }

  /** A 2xx reply of the spreadsheet type yields the object URL and the name its
      `Content-Disposition` header gives. */
  lemma SpreadsheetDownload(disposition: Option<string>, text: string, json: Json<DownloadBody>, objectUrl: ObjectUrl)
    ensures DownloadJobResult(Responded(200, Headers(Some(SpreadsheetType), disposition), text, json), objectUrl)
            == Succeeded(objectUrl, Disposition.FilenameFrom(disposition))
  {
    SpreadsheetTypeRecognised();
  }

  /** The download reply is a spreadsheet named `report.xlsx`. */
  lemma ExampleDownload(objectUrl: ObjectUrl)
    ensures DownloadJobResult(ExampleDownloadReply, objectUrl) == Succeeded(objectUrl, "report.xlsx")
  {
    SpreadsheetDownload(Some("attachment; filename=\"report.xlsx\""), "", Parsed(DownloadBody(None, None)), objectUrl);
    Disposition.QuotedFilenameExample();
  }

  /** A 1 MB PDF passes validation. */
  lemma ExampleFileIsValid()
    ensures ValidateFile(ExampleFile) == Valid
  {
  }

  // ---------------------------------------------------------------------
  // Estimates along the example
  // ---------------------------------------------------------------------

  lemma PendingEstimate()
    ensures Estimate("pending", None, UploadStarted) == 13
  {
    PendingIsLower();
    StatusKeyOfNormalised("pending");
    assert Floor("pending") == 12;
  }

  lemma ProcessingEstimate()
    ensures Estimate("processing", None, 13) == 20
  {
    ProcessingIsLower();
    StatusKeyOfNormalised("processing");
    assert Floor("processing") == 20;
  }

  lemma CompletedEstimate()
    ensures Estimate("completed", None, 20) == 95
  {
    CompletedWithoutHintIs95(20);
  }

  lemma FailedEstimate()
    ensures Estimate("failed", None, UploadStarted) == 20
  {
    FailedIsLower();
    StatusKeyOfNormalised("failed");
    assert Floor("failed") == UnknownStatusFloor;
  }

  /** One undecided, successful poll: report the estimate and carry on from it. */
  lemma PollCarriesOn(jobId: string, obs: seq<Observation>, last: int, maxWait: int)
    requires |obs| > 0 && Verdict(jobId, obs[0], maxWait) == None
    ensures var s := GetJobStatus(jobId, obs[0].reply);
            var next := Estimate(s.status, s.progress, last);
            var rest := Poll(jobId, obs[1..], next, maxWait);
            Poll(jobId, obs, last, maxWait) == Polled([OnProgress(next)] + rest.events, 1 + rest.polls, rest.end, rest.estimate)
  {
  }

  /** Three polls reporting `pending`, `processing` and `completed`, the first two in time. */
  predicate ExampleStatuses(jobId: string, obs: seq<Observation>, maxWait: int) {
    && |obs| == 3 && obs[0].elapsed <= maxWait && obs[1].elapsed <= maxWait
    && Reports(jobId, obs[0], "pending") && Reports(jobId, obs[1], "processing")
    && Reports(jobId, obs[2], "completed")
  }

  /** The last poll of the example: `completed` after an estimate of 20 reports 95 and stops. */
  lemma CompletedPoll(jobId: string, obs: seq<Observation>, maxWait: int)
    requires |obs| == 1 && Reports(jobId, obs[0], "completed")
    ensures Poll(jobId, obs, 20, maxWait) == Polled([OnProgress(95)], 1, Completed, 95)
  {
    CompletedEstimate();
  }

  /** `processing` then `completed`, from an estimate of 13: 20, then 95. */
  lemma ProcessingThenCompleted(jobId: string, obs: seq<Observation>, maxWait: int)
    requires |obs| == 2 && obs[0].elapsed <= maxWait
    requires Reports(jobId, obs[0], "processing") && Reports(jobId, obs[1], "completed")
    ensures Poll(jobId, obs, 13, maxWait) == Polled([OnProgress(20), OnProgress(95)], 2, Completed, 95)
  {
    ProcessingEstimate();
    PollCarriesOn(jobId, obs, 13, maxWait);
    CompletedPoll(jobId, obs[1..], maxWait);
  }

  /** `pending`, `processing`, `completed` within the wait: the loop reports 13, 20 and 95,
      then stops on `completed` after three status requests. */
  lemma ExamplePolling(jobId: string, obs: seq<Observation>, maxWait: int)
    requires ExampleStatuses(jobId, obs, maxWait)
    ensures Poll(jobId, obs, UploadStarted, maxWait) ==
            Polled([OnProgress(13), OnProgress(20), OnProgress(95)], 3, Completed, 95)
  {
    PendingEstimate();
    PollCarriesOn(jobId, obs, UploadStarted, maxWait);
    ProcessingThenCompleted(jobId, obs[1..], maxWait);
  }

  lemma Flatten<T>(a: seq<T>, b: seq<T>, c: seq<T>)
    requires |a| == 1 && |b| == 3
    ensures a + b + c == [a[0], b[0], b[1], b[2]] + c
  {
  }

  // ---------------------------------------------------------------------
  // The runs
  // ---------------------------------------------------------------------

  /** A run whose polling ended `completed` and whose download produced a named file. */
  lemma SucceededRun(file: FileInfo, upload: Reply<UploadBody>, obs: seq<Observation>, download: Reply<DownloadBody>,
                     objectUrl: ObjectUrl, maxWait: int, jobId: string, p: Polled, name: string)
    requires ValidateFile(file).Valid? && UploadRfp(upload) == Uploaded(jobId)
    requires Poll(jobId, obs, UploadStarted, maxWait) == p && p.end == Completed
    requires DownloadJobResult(download, objectUrl) == Succeeded(objectUrl, name) && name != ""
    ensures var r := UploadAndProcessFile(file, upload, obs, download, objectUrl, maxWait);
            && r.events == [OnProgress(UploadStarted)] + p.events + [OnProgress(Done), OnSuccess(objectUrl, name)]
            && r.requests == [UploadRequest] + StatusRequests(jobId, p.polls) + [DownloadRequest(jobId)]
            && r.result == Finished(Succeeded(objectUrl, name))
  {
    AcceptedRunShape(file, upload, obs, download, objectUrl, maxWait);
    AcceptedRunResult(file, upload, obs, download, objectUrl, maxWait);
  }

  lemma ThreeStatusRequests(jobId: string)
    ensures StatusRequests(jobId, 3) == [StatusRequest(jobId), StatusRequest(jobId), StatusRequest(jobId)]
  {
  }

  /** The hypotheses of the successful run: a valid file, job `abc123`, the three statuses in
      time, and a download named `report.xlsx`. */
  predicate HappyPath(file: FileInfo, upload: Reply<UploadBody>, obs: seq<Observation>, download: Reply<DownloadBody>,
                      objectUrl: ObjectUrl, maxWait: int)
  {
    && ValidateFile(file).Valid? && UploadRfp(upload) == Uploaded("abc123")
    && ExampleStatuses("abc123", obs, maxWait)
    && DownloadJobResult(download, objectUrl) == Succeeded(objectUrl, "report.xlsx")
  }

  lemma HappyPathEvents(file: FileInfo, upload: Reply<UploadBody>, obs: seq<Observation>, download: Reply<DownloadBody>,
                        objectUrl: ObjectUrl, maxWait: int)
    requires HappyPath(file, upload, obs, download, objectUrl, maxWait)
    ensures UploadAndProcessFile(file, upload, obs, download, objectUrl, maxWait).events ==
            [OnProgress(10)] + [OnProgress(13), OnProgress(20), OnProgress(95)] + [OnProgress(100), OnSuccess(objectUrl, "report.xlsx")]
  {
    var p := Polled([OnProgress(13), OnProgress(20), OnProgress(95)], 3, Completed, 95);
    ExamplePolling("abc123", obs, maxWait);
    SucceededRun(file, upload, obs, download, objectUrl, maxWait, "abc123", p, "report.xlsx");
  }

  lemma HappyPathRequests(file: FileInfo, upload: Reply<UploadBody>, obs: seq<Observation>, download: Reply<DownloadBody>,
                          objectUrl: ObjectUrl, maxWait: int)
    requires HappyPath(file, upload, obs, download, objectUrl, maxWait)
    ensures UploadAndProcessFile(file, upload, obs, download, objectUrl, maxWait).requests ==
            [UploadRequest] + StatusRequests("abc123", 3) + [DownloadRequest("abc123")]
  {
    var p := Polled([OnProgress(13), OnProgress(20), OnProgress(95)], 3, Completed, 95);
    ExamplePolling("abc123", obs, maxWait);
    SucceededRun(file, upload, obs, download, objectUrl, maxWait, "abc123", p, "report.xlsx");
  }

  lemma HappyPathResult(file: FileInfo, upload: Reply<UploadBody>, obs: seq<Observation>, download: Reply<DownloadBody>,
                        objectUrl: ObjectUrl, maxWait: int)
    requires HappyPath(file, upload, obs, download, objectUrl, maxWait)
    ensures UploadAndProcessFile(file, upload, obs, download, objectUrl, maxWait).result ==
            Finished(Succeeded(objectUrl, "report.xlsx"))
  {
    var p := Polled([OnProgress(13), OnProgress(20), OnProgress(95)], 3, Completed, 95);
    ExamplePolling("abc123", obs, maxWait);
    SucceededRun(file, upload, obs, download, objectUrl, maxWait, "abc123", p, "report.xlsx");
  }

  /** The successful run: progress 10, 13, 20, 95, 100, then one `onSuccess` with the file
      name; the upload, three status requests and the download. */
  lemma HappyPathRun(file: FileInfo, upload: Reply<UploadBody>, obs: seq<Observation>, download: Reply<DownloadBody>,
                     objectUrl: ObjectUrl, maxWait: int)
    requires HappyPath(file, upload, obs, download, objectUrl, maxWait)
    ensures var r := UploadAndProcessFile(file, upload, obs, download, objectUrl, maxWait);
            && r.events == [OnProgress(10), OnProgress(13), OnProgress(20), OnProgress(95), OnProgress(100),
                            OnSuccess(objectUrl, "report.xlsx")]
            && r.requests == [UploadRequest] + StatusRequests("abc123", 3) + [DownloadRequest("abc123")]
            && StatusRequests("abc123", 3) == [StatusRequest("abc123"), StatusRequest("abc123"), StatusRequest("abc123")]
            && r.result == Finished(Succeeded(objectUrl, "report.xlsx"))
  {
    HappyPathEvents(file, upload, obs, download, objectUrl, maxWait);
    Flatten([OnProgress(10)], [OnProgress(13), OnProgress(20), OnProgress(95)],
            [OnProgress(100), OnSuccess(objectUrl, "report.xlsx")]);
    HappyPathResult(file, upload, obs, download, objectUrl, maxWait);
    HappyPathRequests(file, upload, obs, download, objectUrl, maxWait);
    ThreeStatusRequests("abc123");
  }

  /** The three status replies, polled at 0, 3 and 6 seconds. */
  lemma ExampleStatusesHold(maxWait: int)
    requires maxWait >= 3000
    ensures ExampleStatuses("abc123", ExampleObservations, maxWait)
  {
    PendingIsLower();
    ProcessingIsLower();
    CompletedIsLower();
    StatusReplyReport("abc123", "pending", 0);
    StatusReplyReport("abc123", "processing", 3000);
    StatusReplyReport("abc123", "completed", 6000);
  }

  /** The concrete exchanges of the example meet the hypotheses of `HappyPathRun`. */
  lemma HappyPathExchanges(objectUrl: ObjectUrl, maxWait: int)
    requires maxWait >= 3000
    ensures HappyPath(ExampleFile, ExampleUpload, ExampleObservations, ExampleDownloadReply, objectUrl, maxWait)
  {
    ExampleFileIsValid();
    ExampleUploadAccepted();
    ExampleStatusesHold(maxWait);
    ExampleDownload(objectUrl);
  }

  /** The worked example end to end, with the default thirty-minute wait. */
  lemma ExampleRun(objectUrl: ObjectUrl)
    ensures var r := UploadAndProcessFile(ExampleFile, ExampleUpload, ExampleObservations, ExampleDownloadReply,
                                          objectUrl, DefaultMaxWait);
            && r.events == [OnProgress(10), OnProgress(13), OnProgress(20), OnProgress(95), OnProgress(100),
                            OnSuccess(objectUrl, "report.xlsx")]
            && r.result == Finished(Succeeded(objectUrl, "report.xlsx"))
  {
    HappyPathExchanges(objectUrl, DefaultMaxWait);
    HappyPathRun(ExampleFile, ExampleUpload, ExampleObservations, ExampleDownloadReply, objectUrl, DefaultMaxWait);
  }

  /** A first poll reporting `failed` with a message reports 20 and stops. */
  lemma FailedPoll(jobId: string, obs: seq<Observation>, maxWait: int, message: string)
    requires |obs| >= 1
    requires GetJobStatus(jobId, obs[0].reply) == StatusReport("failed", jobId, None, Some(message))
    ensures Poll(jobId, obs, UploadStarted, maxWait) == Polled([OnProgress(20)], 1, JobFailed(Some(message)), 20)
  {
    FailedEstimate();
  }

  /** The job reports `failed` with a message on the first poll: progress 10 and 20, then
      `onError` with that message, and no download. */
  lemma FailedJobRun(file: FileInfo, upload: Reply<UploadBody>, obs: seq<Observation>, download: Reply<DownloadBody>,
                     objectUrl: ObjectUrl, maxWait: int, message: string)
    requires ValidateFile(file).Valid? && UploadRfp(upload) == Uploaded("abc123")
    requires |obs| >= 1 && message != ""
    requires GetJobStatus("abc123", obs[0].reply) == StatusReport("failed", "abc123", None, Some(message))
    ensures var r := UploadAndProcessFile(file, upload, obs, download, objectUrl, maxWait);
            && r.events == [OnProgress(10)] + [OnProgress(20)] + [OnError(message)]
            && r.requests == [UploadRequest] + StatusRequests("abc123", 1)
            && r.result == Finished(Failed(message))
  {
    FailedPoll("abc123", obs, maxWait, message);
    AcceptedRunShape(file, upload, obs, download, objectUrl, maxWait);
    AcceptedRunResult(file, upload, obs, download, objectUrl, maxWait);
  }

  /** A `failed` status reply carrying the message `corrupt file` decodes as such. */
  lemma CorruptFileReply()
    ensures var failed := Responded(200, NoHeaders, "", Parsed(StatusBody(Some("failed"), None, None, None, Some("corrupt file"))));
            GetJobStatus("abc123", failed) == StatusReport("failed", "abc123", None, Some("corrupt file"))
  {
    FailedIsLower();
    LowerIsFixed("failed");
  }
}
