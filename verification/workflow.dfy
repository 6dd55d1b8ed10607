/** The upload handler of folder.ts (`FileUploadHandler`): validate, upload, poll with a
    synthesised progress estimate, download, reporting to the caller through the
    `onProgress`, `onError` and `onSuccess` callbacks. A run is a pure function of the
    file, the settled exchanges and a finite run of status observations; it yields the
    callbacks in the order they are invoked, the remote calls made and the returned result. */
module Workflow {
  import opened Js
  import opened Http
  import opened Validator
  import opened Api
  import opened Progress

  /** One callback invocation. */
  datatype Event =
    | OnProgress(percent: int)
    | OnError(message: string)
    | OnSuccess(downloadUrl: string, filename: string)

  /** Callbacks invoked, remote calls made, and how the run ended. */
  datatype Run = Run(events: seq<Event>, requests: seq<Request>, result: RunResult)

  const InvalidFileMessage := "Invalid file"
  const DownloadFailedMessage := "Failed to download result"
  const NoFileMessage := "No file selected"

  predicate AllProgress(events: seq<Event>) {
    forall i :: 0 <= i < |events| ==> events[i].OnProgress?
  }

  /** The percentages reported, in order. */
  function Percents(events: seq<Event>): (ps: seq<int>)
    ensures |ps| <= |events|
    ensures AllProgress(events) ==> |ps| == |events|
    ensures forall p :: p in ps ==> OnProgress(p) in events
  {
    if |events| == 0 then []
    else if events[0].OnProgress? then [events[0].percent] + Percents(events[1..])
    else Percents(events[1..])
  }

  /** What the polling loop produced: the progress callbacks, the number of status requests,
      how it ended and the last estimate. */
  datatype Polled = Polled(events: seq<Event>, polls: nat, end: PollEnd, estimate: int)

  /** The polling loop. Each successful poll reports exactly one estimate before the terminal
      checks; it ends exactly where the loop of `processRfp` ends. */
  function Poll(jobId: string, obs: seq<Observation>, last: int, maxWait: int): (r: Polled)
    ensures AllProgress(r.events)
    ensures r.polls == AwaitCompletion(jobId, obs, maxWait).polls
    ensures r.end == AwaitCompletion(jobId, obs, maxWait).end
    ensures |r.events| == if r.end.StatusFailure? then r.polls - 1 else r.polls
    ensures UploadStarted <= last <= HintCeiling ==>
              UploadStarted <= r.estimate <= HintCeiling &&
              forall i :: 0 <= i < |r.events| ==> UploadStarted <= r.events[i].percent <= HintCeiling
    decreases |obs|
  {
    if |obs| == 0 then Polled([], 0, Exhausted, last)
    else
      match GetJobStatus(jobId, obs[0].reply)
      case StatusError(error) => Polled([], 1, StatusFailure(error), last)
      case StatusReport(status, _, hint, message) =>
        var next := Estimate(status, hint, last);
        if status == "completed" then Polled([OnProgress(next)], 1, Completed, next)
        else if status == "failed" then Polled([OnProgress(next)], 1, JobFailed(message), next)
        else if obs[0].elapsed > maxWait then Polled([OnProgress(next)], 1, TimedOut, next)
        else
          var rest := Poll(jobId, obs[1..], next, maxWait);
          Polled([OnProgress(next)] + rest.events, 1 + rest.polls, rest.end, rest.estimate)
  }

  /** `uploadAndProcessFile`. */
  function UploadAndProcessFile(file: FileInfo, upload: Reply<UploadBody>, obs: seq<Observation>,
                                download: Reply<DownloadBody>, objectUrl: ObjectUrl, maxWait: int): (r: Run)
    ensures ValidateFile(file).Invalid? ==>
              r == Run([OnError(ValidateFile(file).error)], [], Finished(Failed(ValidateFile(file).error)))
    ensures ValidateFile(file).Valid? ==> |r.events| >= 1 && r.events[0] == OnProgress(UploadStarted)
    ensures ValidateFile(file).Valid? ==> |r.requests| >= 1 && r.requests[0] == UploadRequest
  {
    var validation := ValidateFile(file);
    if validation.Invalid? then
      var error := Or(Some(validation.error), InvalidFileMessage);
      Run([OnError(error)], [], Finished(Failed(error)))
    else
      var up := UploadRfp(upload);
      if !Accepted(up) then
        var error := Or(UploadErrorField(up), UploadFailedMessage);
        Run([OnProgress(UploadStarted), OnError(error)], [UploadRequest], Finished(Failed(error)))
      else
        var jobId := up.jobId;
        var p := Poll(jobId, obs, UploadStarted, maxWait);
        var events := [OnProgress(UploadStarted)] + p.events;
        var requests := [UploadRequest] + StatusRequests(jobId, p.polls);
        match p.end
        case Exhausted => Run(events, requests, AwaitingStatus)
        case Completed =>
          var d := DownloadJobResult(download, objectUrl);
          var fetched := requests + [DownloadRequest(jobId)];
          if d.Succeeded? && d.downloadUrl != "" && d.filename != "" then
            Run(events + [OnProgress(Done), OnSuccess(d.downloadUrl, d.filename)], fetched,
                Finished(Succeeded(d.downloadUrl, d.filename)))
          else
            var error := Or(OutcomeErrorField(d), DownloadFailedMessage);
            Run(events + [OnError(error)], fetched, Finished(Failed(error)))
        case _ =>
          var error := StopMessage(p.end);
          Run(events + [OnError(error)], requests, Finished(Failed(error)))
  }

  /** `selectAndProcessFile`, with the file picker's answer as input. */
  function SelectAndProcessFile(selection: Option<FileInfo>, upload: Reply<UploadBody>, obs: seq<Observation>,
                                download: Reply<DownloadBody>, objectUrl: ObjectUrl, maxWait: int): (r: Run)
    ensures selection.None? ==> r == Run([], [], Finished(Failed(NoFileMessage)))
    ensures selection.Some? ==> |r.events| >= 1
  {
    match selection
    case None => Run([], [], Finished(Failed(NoFileMessage)))
    case Some(file) => UploadAndProcessFile(file, upload, obs, download, objectUrl, maxWait)
  }
}
