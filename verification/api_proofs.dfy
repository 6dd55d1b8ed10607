/** Properties of the polling loop and of `processRfp`. */
module ApiProofs {
  import opened Js
  import opened Http
  import opened Api

  /** Whether a download was requested. */
  predicate Downloads(requests: seq<Request>) {
    exists i :: 0 <= i < |requests| && requests[i].DownloadRequest?
  }

  lemma NoDownloadAmongStatusRequests(jobId: string, n: nat)
    ensures !Downloads([UploadRequest] + StatusRequests(jobId, n))
  {
    var rs := [UploadRequest] + StatusRequests(jobId, n);
    forall i | 0 <= i < |rs|
      ensures !rs[i].DownloadRequest?
    {
      if i > 0 {
        assert rs[i] == StatusRequests(jobId, n)[i - 1];
      }
    }
  }

  // ---------------------------------------------------------------------
  // The polling loop, against a closed-form description
  // ---------------------------------------------------------------------

  /** The loop stops at the first observation that decides something, after exactly that
      many status requests. */
  lemma {:induction false} StopsAtFirstDecision(jobId: string, obs: seq<Observation>, maxWait: int, k: nat)
    requires k < |obs| && Verdict(jobId, obs[k], maxWait).Some?
    requires forall i :: 0 <= i < k ==> Verdict(jobId, obs[i], maxWait) == None
    ensures AwaitCompletion(jobId, obs, maxWait) == Polling(k + 1, Verdict(jobId, obs[k], maxWait).value)
    decreases k
  {
    if k > 0 {
      var later := obs[1..];
      assert forall i :: 0 <= i < k - 1 ==> later[i] == obs[i + 1];
      assert later[k - 1] == obs[k];
      StopsAtFirstDecision(jobId, later, maxWait, k - 1);
    }
  }

  /** When no observation decides anything, the loop is still waiting after all of them. */
  lemma WaitsWhileUndecided(jobId: string, obs: seq<Observation>, maxWait: int)
    requires forall i :: 0 <= i < |obs| ==> Verdict(jobId, obs[i], maxWait) == None
    ensures AwaitCompletion(jobId, obs, maxWait) == Polling(|obs|, Exhausted)
  {
  }

  /** `completed` and `failed` are checked before the timeout: a terminal status that arrives
      late still ends the loop with that status. */
  lemma TerminalStatusBeatsTimeout(jobId: string, o: Observation, maxWait: int)
    requires GetJobStatus(jobId, o.reply).StatusReport?
    requires o.elapsed > maxWait
    ensures var s := GetJobStatus(jobId, o.reply);
            && (s.status == "completed" ==> Verdict(jobId, o, maxWait) == Some(Completed))
            && (s.status == "failed" ==> Verdict(jobId, o, maxWait) == Some(JobFailed(s.message)))
            && (s.status != "completed" && s.status != "failed" ==> Verdict(jobId, o, maxWait) == Some(TimedOut))
  {
  }

  /** The timeout is strict: a poll at exactly the maximum wait keeps the loop going. */
  lemma TimeoutIsStrict(jobId: string, o: Observation, maxWait: int)
    requires GetJobStatus(jobId, o.reply).StatusReport?
    requires GetJobStatus(jobId, o.reply).status != "completed" && GetJobStatus(jobId, o.reply).status != "failed"
    ensures o.elapsed == maxWait ==> Verdict(jobId, o, maxWait) == None
    ensures Verdict(jobId, o, maxWait) == None <==> o.elapsed <= maxWait
  {
  }

  // ---------------------------------------------------------------------
  // processRfp
  // ---------------------------------------------------------------------

  /** The shape of a session whose upload produced a job: the upload, one status request per
      poll and, after a completed poll only, the download. */
  lemma AcceptedSessionShape(upload: Reply<UploadBody>, obs: seq<Observation>, download: Reply<DownloadBody>,
                             objectUrl: ObjectUrl, maxWait: int)
    requires Accepted(UploadRfp(upload))
    ensures var s := ProcessRfp(upload, obs, download, objectUrl, maxWait);
            var jobId := UploadRfp(upload).jobId;
            var p := AwaitCompletion(jobId, obs, maxWait);
            && s.requests == [UploadRequest] + StatusRequests(jobId, p.polls)
                             + (if p.end == Completed then [DownloadRequest(jobId)] else [])
            && (p.end == Exhausted ==> s.result == AwaitingStatus)
            && (p.end == Completed ==> s.result == Finished(DownloadJobResult(download, objectUrl)))
            && (p.end != Exhausted && p.end != Completed ==> s.result == Finished(Failed(StopMessage(p.end))))
  {
  }

  /** A download is requested exactly when a poll reported `completed`; it is the last request,
      and every poll before that one decided nothing. */
  lemma DownloadOnlyAfterCompleted(upload: Reply<UploadBody>, obs: seq<Observation>, download: Reply<DownloadBody>,
                                   objectUrl: ObjectUrl, maxWait: int)
    ensures var s := ProcessRfp(upload, obs, download, objectUrl, maxWait);
            Downloads(s.requests) <==>
              Accepted(UploadRfp(upload)) && AwaitCompletion(UploadRfp(upload).jobId, obs, maxWait).end == Completed
    ensures var s := ProcessRfp(upload, obs, download, objectUrl, maxWait);
            Downloads(s.requests) ==>
              var jobId := UploadRfp(upload).jobId;
              var k := AwaitCompletion(jobId, obs, maxWait).polls - 1;
              && 0 <= k < |obs|
              && s.requests[|s.requests| - 1] == DownloadRequest(jobId)
              && GetJobStatus(jobId, obs[k].reply).StatusReport?
              && GetJobStatus(jobId, obs[k].reply).status == "completed"
              && (forall i :: 0 <= i < k ==> Verdict(jobId, obs[i], maxWait) == None)
  {
    var s := ProcessRfp(upload, obs, download, objectUrl, maxWait);
    if !Accepted(UploadRfp(upload)) {
      assert s.requests == [UploadRequest];
      NoDownloadAmongStatusRequests("", 0);
    } else {
      var jobId := UploadRfp(upload).jobId;
      var p := AwaitCompletion(jobId, obs, maxWait);
      AcceptedSessionShape(upload, obs, download, objectUrl, maxWait);
      NoDownloadAmongStatusRequests(jobId, p.polls);
      if p.end == Completed {
        assert s.requests[|s.requests| - 1] == DownloadRequest(jobId);
      } else {
        assert s.requests == [UploadRequest] + StatusRequests(jobId, p.polls);
      }
    }
  }

  /** A rejected upload makes no further request, whatever the job would have done. */
  lemma RejectedUploadStops(upload: Reply<UploadBody>, obs1: seq<Observation>, obs2: seq<Observation>,
                            download1: Reply<DownloadBody>, download2: Reply<DownloadBody>,
                            objectUrl: ObjectUrl, maxWait: int)
    requires !Accepted(UploadRfp(upload))
    ensures ProcessRfp(upload, obs1, download1, objectUrl, maxWait) == ProcessRfp(upload, obs2, download2, objectUrl, maxWait)
    ensures ProcessRfp(upload, obs1, download1, objectUrl, maxWait).requests == [UploadRequest]
    ensures var r := ProcessRfp(upload, obs1, download1, objectUrl, maxWait).result;
            r.Finished? && r.outcome.Failed? && r.outcome.error != ""
  {
  }
}
