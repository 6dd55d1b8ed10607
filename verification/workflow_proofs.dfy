/** Properties of the callback trace produced by the upload handler. */
module WorkflowProofs {
  import opened Js
  import opened Text
  import opened Http
  import opened Validator
  import opened Api
  import opened Progress
  import opened Workflow
  import opened ApiProofs

  // ---------------------------------------------------------------------
  // Vocabulary
  // ---------------------------------------------------------------------

  /** Consecutive reported percentages never go down. */
  predicate NonDecreasing(ps: seq<int>) {
    forall i :: 0 <= i < |ps| - 1 ==> ps[i] <= ps[i + 1]
  }

  predicate IsTerminal(e: Event) {
    e.OnError? || e.OnSuccess?
  }

  /** A successful poll that carried a hint above 95. */
  predicate HighHint(jobId: string, o: Observation) {
    var s := GetJobStatus(jobId, o.reply);
    s.StatusReport? && s.progress.Some? && s.progress.value > HeuristicCeiling
  }

  /** A successful poll that carried no hint. */
  predicate Hintless(jobId: string, o: Observation) {
    var s := GetJobStatus(jobId, o.reply);
    s.StatusReport? && s.progress.None?
  }

  /** The precondition under which the estimate never regresses: once a poll has hinted
      above 95, no later poll comes without a hint. */
  predicate NoHintlessAfterHighHint(jobId: string, obs: seq<Observation>) {
    forall i, j :: 0 <= i < j < |obs| && HighHint(jobId, obs[i]) ==> !Hintless(jobId, obs[j])
  }

  // ---------------------------------------------------------------------
  // Helpers about percentages
  // ---------------------------------------------------------------------

  lemma {:induction false} PercentsAppend(a: seq<Event>, b: seq<Event>)
    ensures Percents(a + b) == Percents(a) + Percents(b)
    decreases |a|
  {
    if |a| == 0 {
      assert a + b == b;
    } else {
      assert (a + b)[1..] == a[1..] + b;
      PercentsAppend(a[1..], b);
    }
  }

  lemma PercentsOfProgress(p: int)
    ensures Percents([OnProgress(p)]) == [p]
  {
  }

  lemma PercentsOfTerminal(e: Event)
    requires IsTerminal(e)
    ensures Percents([e]) == []
  {
  }

  /** Every percentage reported by a poll lies in [10, 99]. */
  lemma PollPercentsInRange(jobId: string, obs: seq<Observation>, last: int, maxWait: int)
    requires UploadStarted <= last <= HintCeiling
    ensures forall p :: p in Percents(Poll(jobId, obs, last, maxWait).events) ==> UploadStarted <= p <= HintCeiling
  {
    var events := Poll(jobId, obs, last, maxWait).events;
    forall p | p in Percents(events)
      ensures UploadStarted <= p <= HintCeiling
    {
      var i :| 0 <= i < |events| && events[i] == OnProgress(p);
    }
  }

  // ---------------------------------------------------------------------
  // Monotonicity of the estimate
  // ---------------------------------------------------------------------

  /** One step of the polling loop: a successful poll reports its estimate, and the loop
      goes on from that estimate exactly when the observation decides nothing. */
  lemma PollUnfold(jobId: string, obs: seq<Observation>, last: int, maxWait: int)
    requires |obs| > 0 && GetJobStatus(jobId, obs[0].reply).StatusReport?
    ensures var s := GetJobStatus(jobId, obs[0].reply);
            var next := Estimate(s.status, s.progress, last);
            Poll(jobId, obs, last, maxWait).events ==
              [OnProgress(next)]
              + (if Verdict(jobId, obs[0], maxWait) == None then Poll(jobId, obs[1..], next, maxWait).events else [])
  {
  }

  /** The same step, read off the reported percentages. */
  lemma PollPercentsUnfold(jobId: string, obs: seq<Observation>, last: int, maxWait: int)
    requires |obs| > 0 && GetJobStatus(jobId, obs[0].reply).StatusReport?
    ensures var s := GetJobStatus(jobId, obs[0].reply);
            var next := Estimate(s.status, s.progress, last);
            Percents(Poll(jobId, obs, last, maxWait).events) ==
              [next]
              + (if Verdict(jobId, obs[0], maxWait) == None then Percents(Poll(jobId, obs[1..], next, maxWait).events) else [])
  {
    var s := GetJobStatus(jobId, obs[0].reply);
    var next := Estimate(s.status, s.progress, last);
    PollUnfold(jobId, obs, last, maxWait);
    var tail := if Verdict(jobId, obs[0], maxWait) == None then Poll(jobId, obs[1..], next, maxWait).events else [];
    PercentsAppend([OnProgress(next)], tail);
  }

  lemma ConsNonDecreasing(x: int, ps: seq<int>)
    requires NonDecreasing(ps)
    requires |ps| > 0 ==> x <= ps[0]
    ensures NonDecreasing([x] + ps)
  {
    var xs := [x] + ps;
    forall i | 0 <= i < |xs| - 1
      ensures xs[i] <= xs[i + 1]
    {
      if i > 0 {
        assert xs[i] == ps[i - 1] && xs[i + 1] == ps[i];
      }
    }
  }

  /** The hypotheses of the monotonicity argument carry over from one poll to the rest of the loop. */
  lemma MonotoneStep(jobId: string, obs: seq<Observation>, last: int)
    requires |obs| > 0 && GetJobStatus(jobId, obs[0].reply).StatusReport?
    requires UploadStarted <= last <= HintCeiling
    requires last > HeuristicCeiling ==> forall j :: 0 <= j < |obs| ==> !Hintless(jobId, obs[j])
    requires NoHintlessAfterHighHint(jobId, obs)
    ensures var s := GetJobStatus(jobId, obs[0].reply);
            var next := Estimate(s.status, s.progress, last);
            && last <= next
            && UploadStarted <= next <= HintCeiling
            && (next > HeuristicCeiling ==> forall j :: 0 <= j < |obs[1..]| ==> !Hintless(jobId, obs[1..][j]))
            && NoHintlessAfterHighHint(jobId, obs[1..])
  {
    var s := GetJobStatus(jobId, obs[0].reply);
    assert s.progress.None? ==> Hintless(jobId, obs[0]);
    EstimateMonotone(s.status, s.progress, last);
    EstimateInRange(s.status, s.progress, last);
    var next := Estimate(s.status, s.progress, last);
    assert next > HeuristicCeiling ==> HighHint(jobId, obs[0]) || last > HeuristicCeiling;
    assert forall j :: 0 <= j < |obs[1..]| ==> obs[1..][j] == obs[j + 1];
  }

  /** Monotonicity of the loop under the hypothesis over every observation given. */
  lemma {:induction false} PollMonotoneOver(jobId: string, obs: seq<Observation>, last: int, maxWait: int)
    requires UploadStarted <= last <= HintCeiling
    requires last > HeuristicCeiling ==> forall j :: 0 <= j < |obs| ==> !Hintless(jobId, obs[j])
    requires NoHintlessAfterHighHint(jobId, obs)
    ensures NonDecreasing([last] + Percents(Poll(jobId, obs, last, maxWait).events))
    decreases |obs|
  {
    if |obs| > 0 && GetJobStatus(jobId, obs[0].reply).StatusReport? {
      var s := GetJobStatus(jobId, obs[0].reply);
      var next := Estimate(s.status, s.progress, last);
      PollPercentsUnfold(jobId, obs, last, maxWait);
      MonotoneStep(jobId, obs, last);
      if Verdict(jobId, obs[0], maxWait) == None {
        PollMonotoneOver(jobId, obs[1..], next, maxWait);
      }
      ConsNonDecreasing(last, Percents(Poll(jobId, obs, last, maxWait).events));
    } else {
      assert Poll(jobId, obs, last, maxWait).events == [];
    }
  }

  /** The loop reads only the observations it polls: cutting off those after its last
      status request changes nothing. */
  lemma {:induction false} PollPrefix(jobId: string, obs: seq<Observation>, last: int, maxWait: int, k: nat)
    requires Poll(jobId, obs, last, maxWait).polls <= k <= |obs|
    ensures Poll(jobId, obs[..k], last, maxWait) == Poll(jobId, obs, last, maxWait)
    decreases |obs|
  {
    if k == |obs| {
      assert obs[..k] == obs;
    } else {
      var cut := obs[..k];
      assert cut[0] == obs[0];
      assert cut[1..] == obs[1..][..k - 1];
      if Verdict(jobId, obs[0], maxWait) == None {
        var s := GetJobStatus(jobId, obs[0].reply);
        PollPrefix(jobId, obs[1..], Estimate(s.status, s.progress, last), maxWait, k - 1);
      }
    }
  }

  /** Within the polling loop, each estimate is at least the one before it, provided that
      among the observations the loop polls no hint-less one follows an estimate above 95. */
  lemma PollMonotone(jobId: string, obs: seq<Observation>, last: int, maxWait: int)
    requires UploadStarted <= last <= HintCeiling
    requires var polled := obs[..Poll(jobId, obs, last, maxWait).polls];
             && (last > HeuristicCeiling ==> forall j :: 0 <= j < |polled| ==> !Hintless(jobId, polled[j]))
             && NoHintlessAfterHighHint(jobId, polled)
    ensures NonDecreasing([last] + Percents(Poll(jobId, obs, last, maxWait).events))
  {
    var k := Poll(jobId, obs, last, maxWait).polls;
    PollPrefix(jobId, obs, last, maxWait, k);
    PollMonotoneOver(jobId, obs[..k], last, maxWait);
  }

  /** A first poll that decides stops the loop, so the hypothesis of monotonicity concerns that
      poll alone: a hint-less reply after a `completed` poll hinting 97 is never requested. */
  lemma FirstDecisionBoundsHypothesis(jobId: string, obs: seq<Observation>, maxWait: int)
    requires |obs| >= 1 && Verdict(jobId, obs[0], maxWait) != None
    ensures Poll(jobId, obs, UploadStarted, maxWait).polls == 1
    ensures NoHintlessAfterHighHint(jobId, obs[..1])
  {
  }

  /** A run of the handler depends only on the status observations its loop polls. */
  lemma RunReadsPolledOnly(file: FileInfo, upload: Reply<UploadBody>, obs: seq<Observation>,
                           download: Reply<DownloadBody>, objectUrl: ObjectUrl, maxWait: int, k: nat)
    requires Accepted(UploadRfp(upload)) ==> Poll(UploadRfp(upload).jobId, obs, UploadStarted, maxWait).polls <= k
    requires k <= |obs|
    ensures UploadAndProcessFile(file, upload, obs[..k], download, objectUrl, maxWait)
            == UploadAndProcessFile(file, upload, obs, download, objectUrl, maxWait)
  {
    if Accepted(UploadRfp(upload)) {
      PollPrefix(UploadRfp(upload).jobId, obs, UploadStarted, maxWait, k);
    }
  }

  /** The callbacks that close a run after the polling loop. */
  function Closing(result: RunResult): seq<Event> {
    match result
    case AwaitingStatus => []
    case Finished(Succeeded(url, name)) => [OnProgress(Done), OnSuccess(url, name)]
    case Finished(Failed(error)) => [OnError(error)]
  }

  lemma PercentsOfClosing(result: RunResult)
    ensures Percents(Closing(result)) == if result.Finished? && result.outcome.Succeeded? then [Done] else []
  {
    if result.Finished? && result.outcome.Succeeded? {
      assert Closing(result)[1..] == [OnSuccess(result.outcome.downloadUrl, result.outcome.filename)];
    }
  }

  /** The shape of a run whose upload was accepted: 10, the polling loop's estimates and
      one closing callback; the upload, one status request per poll and, after a completed
      poll only, the download. */
  lemma AcceptedRunEvents(file: FileInfo, upload: Reply<UploadBody>, obs: seq<Observation>,
                          download: Reply<DownloadBody>, objectUrl: ObjectUrl, maxWait: int)
    requires ValidateFile(file).Valid? && Accepted(UploadRfp(upload))
    ensures var r := UploadAndProcessFile(file, upload, obs, download, objectUrl, maxWait);
            var p := Poll(UploadRfp(upload).jobId, obs, UploadStarted, maxWait);
            r.events == [OnProgress(UploadStarted)] + p.events + Closing(r.result)
  {
    var r := UploadAndProcessFile(file, upload, obs, download, objectUrl, maxWait);
    var p := Poll(UploadRfp(upload).jobId, obs, UploadStarted, maxWait);
    var events := [OnProgress(UploadStarted)] + p.events;
    if p.end == Exhausted {
      assert r.events == events;
    } else if p.end == Completed {
      assert r.events == events + Closing(r.result);
    } else {
      assert r.events == events + Closing(r.result);
    }
  }

  lemma AcceptedRunRequests(file: FileInfo, upload: Reply<UploadBody>, obs: seq<Observation>,
                            download: Reply<DownloadBody>, objectUrl: ObjectUrl, maxWait: int)
    requires ValidateFile(file).Valid? && Accepted(UploadRfp(upload))
    ensures var r := UploadAndProcessFile(file, upload, obs, download, objectUrl, maxWait);
            var jobId := UploadRfp(upload).jobId;
            var p := Poll(jobId, obs, UploadStarted, maxWait);
            r.requests == [UploadRequest] + StatusRequests(jobId, p.polls)
                          + (if p.end == Completed then [DownloadRequest(jobId)] else [])
  {
  }

  /** A run whose upload was accepted: 10, the loop's estimates, then the closing callbacks;
      the upload, one status request per poll and, after `completed` only, the download. */
  lemma AcceptedRunShape(file: FileInfo, upload: Reply<UploadBody>, obs: seq<Observation>,
                         download: Reply<DownloadBody>, objectUrl: ObjectUrl, maxWait: int)
    requires ValidateFile(file).Valid? && Accepted(UploadRfp(upload))
    ensures var r := UploadAndProcessFile(file, upload, obs, download, objectUrl, maxWait);
            var jobId := UploadRfp(upload).jobId;
            var p := Poll(jobId, obs, UploadStarted, maxWait);
            && r.events == [OnProgress(UploadStarted)] + p.events + Closing(r.result)
            && r.requests == [UploadRequest] + StatusRequests(jobId, p.polls)
                             + (if p.end == Completed then [DownloadRequest(jobId)] else [])
  {
    AcceptedRunEvents(file, upload, obs, download, objectUrl, maxWait);
    AcceptedRunRequests(file, upload, obs, download, objectUrl, maxWait);
  }

  /** How a run whose upload was accepted ends, by how the polling loop ended. */
  lemma AcceptedRunResult(file: FileInfo, upload: Reply<UploadBody>, obs: seq<Observation>,
                          download: Reply<DownloadBody>, objectUrl: ObjectUrl, maxWait: int)
    requires ValidateFile(file).Valid? && Accepted(UploadRfp(upload))
    ensures var r := UploadAndProcessFile(file, upload, obs, download, objectUrl, maxWait);
            var p := Poll(UploadRfp(upload).jobId, obs, UploadStarted, maxWait);
            && (p.end == Exhausted ==> r.result == AwaitingStatus)
            && (p.end == Completed ==>
                  var d := DownloadJobResult(download, objectUrl);
                  r.result == if d.Succeeded? && d.downloadUrl != "" && d.filename != "" then Finished(d)
                              else Finished(Failed(Or(OutcomeErrorField(d), DownloadFailedMessage))))
            && (p.end != Exhausted && p.end != Completed ==> r.result == Finished(Failed(StopMessage(p.end))))
  {
  }

  /** A run that stops before polling reports 10 at most. */
  lemma RejectedRunPercents(file: FileInfo, upload: Reply<UploadBody>, obs: seq<Observation>,
                            download: Reply<DownloadBody>, objectUrl: ObjectUrl, maxWait: int)
    requires !(ValidateFile(file).Valid? && Accepted(UploadRfp(upload)))
    ensures var r := UploadAndProcessFile(file, upload, obs, download, objectUrl, maxWait);
            && Percents(r.events) == (if ValidateFile(file).Valid? then [UploadStarted] else [])
            && r.result.Finished? && r.result.outcome.Failed?
  {
    var r := UploadAndProcessFile(file, upload, obs, download, objectUrl, maxWait);
    if ValidateFile(file).Valid? {
      assert r.events == [OnProgress(UploadStarted), OnError(r.result.outcome.error)];
      assert r.events[1..] == [OnError(r.result.outcome.error)];
    }
  }

  lemma SnocNonDecreasing(ps: seq<int>, x: int)
    requires NonDecreasing(ps)
    requires |ps| > 0 ==> ps[|ps| - 1] <= x
    ensures NonDecreasing(ps + [x])
  {
    var xs := ps + [x];
    forall i | 0 <= i < |xs| - 1
      ensures xs[i] <= xs[i + 1]
    {
      if i + 1 < |ps| {
        assert xs[i] == ps[i] && xs[i + 1] == ps[i + 1];
      }
    }
  }

  /** The percentages a run reports: 10, then one per successful poll, then 100 on success. */
  lemma RunPercents(file: FileInfo, upload: Reply<UploadBody>, obs: seq<Observation>,
                    download: Reply<DownloadBody>, objectUrl: ObjectUrl, maxWait: int)
    requires ValidateFile(file).Valid? && Accepted(UploadRfp(upload))
    ensures var r := UploadAndProcessFile(file, upload, obs, download, objectUrl, maxWait);
            var p := Poll(UploadRfp(upload).jobId, obs, UploadStarted, maxWait);
            Percents(r.events) ==
              [UploadStarted] + Percents(p.events)
              + (if r.result.Finished? && r.result.outcome.Succeeded? then [Done] else [])
  {
    var r := UploadAndProcessFile(file, upload, obs, download, objectUrl, maxWait);
    var p := Poll(UploadRfp(upload).jobId, obs, UploadStarted, maxWait);
    var head := [OnProgress(UploadStarted)] + p.events;
    AcceptedRunShape(file, upload, obs, download, objectUrl, maxWait);
    PercentsAppend([OnProgress(UploadStarted)], p.events);
    PercentsAppend(head, Closing(r.result));
    PercentsOfClosing(r.result);
    assert Percents(r.events) == Percents(head) + Percents(Closing(r.result));
  }

  /** Every reported percentage lies in [10, 100], and 100 is reported exactly when the run succeeds. */
  lemma ProgressWithinBounds(file: FileInfo, upload: Reply<UploadBody>, obs: seq<Observation>,
                             download: Reply<DownloadBody>, objectUrl: ObjectUrl, maxWait: int)
    ensures var r := UploadAndProcessFile(file, upload, obs, download, objectUrl, maxWait);
            && (forall p :: p in Percents(r.events) ==> UploadStarted <= p <= Done)
            && (Done in Percents(r.events) <==> r.result.Finished? && r.result.outcome.Succeeded?)
  {
    if ValidateFile(file).Valid? && Accepted(UploadRfp(upload)) {
      RunPercents(file, upload, obs, download, objectUrl, maxWait);
      PollPercentsInRange(UploadRfp(upload).jobId, obs, UploadStarted, maxWait);
    } else {
      RejectedRunPercents(file, upload, obs, download, objectUrl, maxWait);
    }
  }

  /** Reported progress never goes down, provided that among the status replies the loop
      polls no hint-less one follows a hint above 95. */
  lemma ProgressMonotone(file: FileInfo, upload: Reply<UploadBody>, obs: seq<Observation>,
                         download: Reply<DownloadBody>, objectUrl: ObjectUrl, maxWait: int)
    requires Accepted(UploadRfp(upload)) ==>
               var jobId := UploadRfp(upload).jobId;
               NoHintlessAfterHighHint(jobId, obs[..Poll(jobId, obs, UploadStarted, maxWait).polls])
    ensures NonDecreasing(Percents(UploadAndProcessFile(file, upload, obs, download, objectUrl, maxWait).events))
  {
    if ValidateFile(file).Valid? && Accepted(UploadRfp(upload)) {
      var jobId := UploadRfp(upload).jobId;
      var r := UploadAndProcessFile(file, upload, obs, download, objectUrl, maxWait);
      var head := [UploadStarted] + Percents(Poll(jobId, obs, UploadStarted, maxWait).events);
      RunPercents(file, upload, obs, download, objectUrl, maxWait);
      PollMonotone(jobId, obs, UploadStarted, maxWait);
      if r.result.Finished? && r.result.outcome.Succeeded? {
        PollPercentsInRange(jobId, obs, UploadStarted, maxWait);
        assert head[|head| - 1] in head;
        SnocNonDecreasing(head, Done);
      } else {
        assert Percents(r.events) == head;
      }
    } else {
      RejectedRunPercents(file, upload, obs, download, objectUrl, maxWait);
    }
  }

  /** A poll that decided nothing was a successful status poll. */
  lemma UndecidedIsReport(jobId: string, o: Observation, maxWait: int)
    requires Verdict(jobId, o, maxWait) == None
    ensures GetJobStatus(jobId, o.reply).StatusReport?
  {
  }

  lemma SecondOf(ps: seq<int>, first: int, rest: seq<int>, second: int)
    requires ps == [first] + rest && |rest| >= 1 && rest[0] == second
    ensures |ps| >= 2 && ps[0] == first && ps[1] == second
  {
  }

  /** A loop whose first poll succeeded reports that poll's estimate first. */
  lemma PollHead(jobId: string, obs: seq<Observation>, last: int, maxWait: int)
    requires |obs| > 0 && GetJobStatus(jobId, obs[0].reply).StatusReport?
    ensures var s := GetJobStatus(jobId, obs[0].reply);
            var ps := Percents(Poll(jobId, obs, last, maxWait).events);
            |ps| >= 1 && ps[0] == Estimate(s.status, s.progress, last)
  {
    PollPercentsUnfold(jobId, obs, last, maxWait);
  }

  /** The first two percentages of a loop whose first poll decided nothing and whose second
      poll succeeded. */
  lemma PollFirstTwo(jobId: string, obs: seq<Observation>, last: int, maxWait: int)
    requires |obs| >= 2
    requires Verdict(jobId, obs[0], maxWait) == None && GetJobStatus(jobId, obs[1].reply).StatusReport?
    ensures var s0 := GetJobStatus(jobId, obs[0].reply);
            var s1 := GetJobStatus(jobId, obs[1].reply);
            var first := Estimate(s0.status, s0.progress, last);
            var ps := Percents(Poll(jobId, obs, last, maxWait).events);
            |ps| >= 2 && ps[0] == first && ps[1] == Estimate(s1.status, s1.progress, first)
  {
    var s0 := GetJobStatus(jobId, obs[0].reply);
    var s1 := GetJobStatus(jobId, obs[1].reply);
    var first := Estimate(s0.status, s0.progress, last);
    UndecidedIsReport(jobId, obs[0], maxWait);
    PollPercentsUnfold(jobId, obs, last, maxWait);
    var later := obs[1..];
    assert later[0] == obs[1];
    PollHead(jobId, later, first, maxWait);
    SecondOf(Percents(Poll(jobId, obs, last, maxWait).events), first,
             Percents(Poll(jobId, later, first, maxWait).events), Estimate(s1.status, s1.progress, first));
  }

  /** Within the polling loop: an undecided poll hinting above 95 followed by a hint-less
      poll reports an estimate above 95 and then 95. */
  lemma PollRegresses(jobId: string, obs: seq<Observation>, last: int, maxWait: int)
    requires UploadStarted <= last <= HintCeiling
    requires |obs| >= 2
    requires Verdict(jobId, obs[0], maxWait) == None && HighHint(jobId, obs[0]) && Hintless(jobId, obs[1])
    ensures var ps := Percents(Poll(jobId, obs, last, maxWait).events);
            |ps| >= 2 && ps[0] > HeuristicCeiling && ps[1] == HeuristicCeiling
  {
    PollFirstTwo(jobId, obs, last, maxWait);
  }

  /** The precondition cannot be dropped: a hint above 95 followed by a hint-less poll makes
      the reported progress fall back to 95. */
  lemma HighHintThenHintlessRegresses(file: FileInfo, upload: Reply<UploadBody>, obs: seq<Observation>,
                                      download: Reply<DownloadBody>, objectUrl: ObjectUrl, maxWait: int)
    requires ValidateFile(file).Valid? && Accepted(UploadRfp(upload))
    requires |obs| >= 2
    requires var jobId := UploadRfp(upload).jobId;
             && Verdict(jobId, obs[0], maxWait) == None
             && HighHint(jobId, obs[0])
             && Hintless(jobId, obs[1])
    ensures var ps := Percents(UploadAndProcessFile(file, upload, obs, download, objectUrl, maxWait).events);
            |ps| >= 3 && ps[1] > HeuristicCeiling && ps[2] == HeuristicCeiling && !NonDecreasing(ps)
  {
    RunPercents(file, upload, obs, download, objectUrl, maxWait);
    PollRegresses(UploadRfp(upload).jobId, obs, UploadStarted, maxWait);
  }

  // ---------------------------------------------------------------------
  // Terminal callbacks
  // ---------------------------------------------------------------------

  /** A finished run ends with one terminal callback after nothing but progress. */
  predicate EndsOnce(events: seq<Event>, result: RunResult) {
    var n := |events|;
    && (result.Finished? ==>
          n >= 1 && IsTerminal(events[n - 1]) && forall i :: 0 <= i < n - 1 ==> events[i].OnProgress?)
    && (result == AwaitingStatus ==> AllProgress(events))
    && (result.Finished? && result.outcome.Succeeded? ==>
          n >= 2 && events[n - 2] == OnProgress(Done)
          && events[n - 1] == OnSuccess(result.outcome.downloadUrl, result.outcome.filename))
    && (result.Finished? && result.outcome.Failed? ==> n >= 1 && events[n - 1] == OnError(result.outcome.error))
  }

  lemma ProgressThenClosingEndsOnce(head: seq<Event>, result: RunResult)
    requires AllProgress(head)
    ensures EndsOnce(head + Closing(result), result)
  {
    var events := head + Closing(result);
    forall i | 0 <= i < |events| - 1
      ensures events[i].OnProgress?
    {
      if i < |head| {
        assert events[i] == head[i];
      } else {
        assert events[i] == Closing(result)[i - |head|];
      }
    }
    if result == AwaitingStatus {
      assert events == head;
    }
  }

  lemma AcceptedRunEndsOnce(file: FileInfo, upload: Reply<UploadBody>, obs: seq<Observation>,
                            download: Reply<DownloadBody>, objectUrl: ObjectUrl, maxWait: int)
    requires ValidateFile(file).Valid? && Accepted(UploadRfp(upload))
    ensures var r := UploadAndProcessFile(file, upload, obs, download, objectUrl, maxWait);
            EndsOnce(r.events, r.result)
  {
    var r := UploadAndProcessFile(file, upload, obs, download, objectUrl, maxWait);
    var p := Poll(UploadRfp(upload).jobId, obs, UploadStarted, maxWait);
    AcceptedRunShape(file, upload, obs, download, objectUrl, maxWait);
    var head := [OnProgress(UploadStarted)] + p.events;
    assert AllProgress(head);
    ProgressThenClosingEndsOnce(head, r.result);
  }

  lemma RejectedRunEndsOnce(file: FileInfo, upload: Reply<UploadBody>, obs: seq<Observation>,
                            download: Reply<DownloadBody>, objectUrl: ObjectUrl, maxWait: int)
    requires !(ValidateFile(file).Valid? && Accepted(UploadRfp(upload)))
    ensures var r := UploadAndProcessFile(file, upload, obs, download, objectUrl, maxWait);
            EndsOnce(r.events, r.result)
  {
  }

  /** A finished run ends with exactly one terminal callback, after nothing but progress;
      a run still waiting on the job has reported progress only. */
  lemma TerminalEventIsLast(file: FileInfo, upload: Reply<UploadBody>, obs: seq<Observation>,
                            download: Reply<DownloadBody>, objectUrl: ObjectUrl, maxWait: int)
    ensures var r := UploadAndProcessFile(file, upload, obs, download, objectUrl, maxWait);
            EndsOnce(r.events, r.result)
  {
    if ValidateFile(file).Valid? && Accepted(UploadRfp(upload)) {
      AcceptedRunEndsOnce(file, upload, obs, download, objectUrl, maxWait);
    } else {
      RejectedRunEndsOnce(file, upload, obs, download, objectUrl, maxWait);
    }
  }

  /** When the upload is rejected the run reports 10 and the upload's error, and makes no
      further request: a thrown `Error` (the abort on timeout is one) surfaces its message,
      a non-2xx reply its status and body. */
  lemma UploadFailureReported(file: FileInfo, upload: Reply<UploadBody>, obs: seq<Observation>,
                              download: Reply<DownloadBody>, objectUrl: ObjectUrl, maxWait: int)
    requires ValidateFile(file).Valid? && !Accepted(UploadRfp(upload))
    ensures var r := UploadAndProcessFile(file, upload, obs, download, objectUrl, maxWait);
            && r.requests == [UploadRequest]
            && |r.events| == 2 && r.events[0] == OnProgress(UploadStarted) && r.events[1].OnError?
            && r.result == Finished(Failed(r.events[1].message))
            && r.events[1].message != ""
            && (upload.Threw? && upload.thrown.ErrorObject? && upload.thrown.message != "" ==>
                  r.events[1].message == upload.thrown.message)
            && (upload.Threw? && upload.thrown.NonError? ==> r.events[1].message == UploadExceptionMessage)
            && (upload.Responded? && !Ok(upload.status) ==>
                  r.events[1].message == HttpError(upload.status, upload.text))
  {
  }

  /** The upload aborted by its timer: one progress report, then "Timeout", and no poll. */
  lemma UploadTimeoutReported(file: FileInfo, obs: seq<Observation>,
                              download: Reply<DownloadBody>, objectUrl: ObjectUrl, maxWait: int)
    requires ValidateFile(file).Valid?
    ensures var r := UploadAndProcessFile(file, Threw(ErrorObject("Timeout")), obs, download, objectUrl, maxWait);
            r == Run([OnProgress(UploadStarted), OnError("Timeout")], [UploadRequest], Finished(Failed("Timeout")))
  {
    UploadFailureReported(file, Threw(ErrorObject("Timeout")), obs, download, objectUrl, maxWait);
  }

  // ---------------------------------------------------------------------
  // Agreement with processRfp
  // ---------------------------------------------------------------------

  /** What the handler reports for what `processRfp` returned: the same, except that a
      success without a URL or a file name, or a failure without a message, becomes
      "Failed to download result". */
  function Reported(result: RunResult): RunResult {
    match result
    case AwaitingStatus => AwaitingStatus
    case Finished(Succeeded(url, name)) =>
      if url != "" && name != "" then result else Finished(Failed(DownloadFailedMessage))
    case Finished(Failed(error)) => Finished(Failed(Or(Some(error), DownloadFailedMessage)))
  }

  /** For a valid file the handler makes exactly the requests `processRfp` makes, and reports
      what `processRfp` returned, read through `Reported`. */
  lemma AgreesWithProcessRfp(file: FileInfo, upload: Reply<UploadBody>, obs: seq<Observation>,
                             download: Reply<DownloadBody>, objectUrl: ObjectUrl, maxWait: int)
    requires ValidateFile(file).Valid?
    ensures var r := UploadAndProcessFile(file, upload, obs, download, objectUrl, maxWait);
            var s := ProcessRfp(upload, obs, download, objectUrl, maxWait);
            r.requests == s.requests && r.result == Reported(s.result)
  {
    if Accepted(UploadRfp(upload)) {
      AcceptedRunShape(file, upload, obs, download, objectUrl, maxWait);
      AcceptedRunResult(file, upload, obs, download, objectUrl, maxWait);
      AcceptedSessionShape(upload, obs, download, objectUrl, maxWait);
    }
  }

  /** A download is requested only after a poll reported `completed`, and then it is the
      last request. */
  lemma RunDownloadsOnlyAfterCompleted(file: FileInfo, upload: Reply<UploadBody>, obs: seq<Observation>,
                                       download: Reply<DownloadBody>, objectUrl: ObjectUrl, maxWait: int)
    ensures var r := UploadAndProcessFile(file, upload, obs, download, objectUrl, maxWait);
            Downloads(r.requests) ==>
              && ValidateFile(file).Valid? && Accepted(UploadRfp(upload))
              && Poll(UploadRfp(upload).jobId, obs, UploadStarted, maxWait).end == Completed
              && r.requests[|r.requests| - 1] == DownloadRequest(UploadRfp(upload).jobId)
  {
    if ValidateFile(file).Valid? {
      AgreesWithProcessRfp(file, upload, obs, download, objectUrl, maxWait);
      DownloadOnlyAfterCompleted(upload, obs, download, objectUrl, maxWait);
    } else {
      var r := UploadAndProcessFile(file, upload, obs, download, objectUrl, maxWait);
      assert r.requests == [];
    }
  }

  // ---------------------------------------------------------------------
  // How a run ends
  // ---------------------------------------------------------------------

  /** A job that completes and whose result downloads as a named spreadsheet ends in exactly
      one `onSuccess`, with no `onError`, right after progress 100. */
  lemma CompletedAndDownloadedSucceeds(file: FileInfo, upload: Reply<UploadBody>, obs: seq<Observation>,
                                       download: Reply<DownloadBody>, objectUrl: ObjectUrl, maxWait: int)
    requires ValidateFile(file).Valid? && Accepted(UploadRfp(upload))
    requires Poll(UploadRfp(upload).jobId, obs, UploadStarted, maxWait).end == Completed
    requires DownloadJobResult(download, objectUrl).Succeeded?
    requires DownloadJobResult(download, objectUrl).filename != ""
    ensures var r := UploadAndProcessFile(file, upload, obs, download, objectUrl, maxWait);
            var n := |r.events|;
            && r.result == Finished(DownloadJobResult(download, objectUrl))
            && r.events[n - 1] == OnSuccess(objectUrl, DownloadJobResult(download, objectUrl).filename)
            && r.events[n - 2] == OnProgress(Done)
            && forall i :: 0 <= i < n - 1 ==> r.events[i].OnProgress?
  {
    AcceptedRunShape(file, upload, obs, download, objectUrl, maxWait);
    AcceptedRunResult(file, upload, obs, download, objectUrl, maxWait);
    TerminalEventIsLast(file, upload, obs, download, objectUrl, maxWait);
  }

  /** A job reported `failed`, or still running past the maximum wait, ends in exactly one
      `onError` with the job's message (or "Processing failed") or the timeout message, and
      nothing is downloaded. */
  lemma FailedOrTimedOutReportsError(file: FileInfo, upload: Reply<UploadBody>, obs: seq<Observation>,
                                     download: Reply<DownloadBody>, objectUrl: ObjectUrl, maxWait: int)
    requires ValidateFile(file).Valid? && Accepted(UploadRfp(upload))
    requires var end := Poll(UploadRfp(upload).jobId, obs, UploadStarted, maxWait).end;
             end.JobFailed? || end == TimedOut
    ensures var r := UploadAndProcessFile(file, upload, obs, download, objectUrl, maxWait);
            var end := Poll(UploadRfp(upload).jobId, obs, UploadStarted, maxWait).end;
            var n := |r.events|;
            && r.events[n - 1] == OnError(r.result.outcome.error)
            && (forall i :: 0 <= i < n - 1 ==> r.events[i].OnProgress?)
            && (end.JobFailed? ==> r.result == Finished(Failed(Or(end.message, ProcessingFailedMessage))))
            && (end == TimedOut ==> r.result == Finished(Failed(TimedOutMessage)))
            && !Downloads(r.requests)
  {
    AcceptedRunShape(file, upload, obs, download, objectUrl, maxWait);
    AcceptedRunResult(file, upload, obs, download, objectUrl, maxWait);
    TerminalEventIsLast(file, upload, obs, download, objectUrl, maxWait);
    RunDownloadsOnlyAfterCompleted(file, upload, obs, download, objectUrl, maxWait);
  }

  /** A download that is not a spreadsheet reports the server's `error` (else its `message`). */
  lemma RejectedDownloadReported(file: FileInfo, upload: Reply<UploadBody>, obs: seq<Observation>,
                                 body: DownloadBody, objectUrl: ObjectUrl, maxWait: int)
    requires ValidateFile(file).Valid? && Accepted(UploadRfp(upload))
    requires Poll(UploadRfp(upload).jobId, obs, UploadStarted, maxWait).end == Completed
    ensures var download := Responded(200, Headers(Some("application/json"), None), "", Parsed(body));
            var r := UploadAndProcessFile(file, upload, obs, download, objectUrl, maxWait);
            && (Truthy(body.error) ==> r.result == Finished(Failed(body.error.value)))
            && (!Truthy(body.error) && Truthy(body.message) ==> r.result == Finished(Failed(body.message.value)))
            && (!Truthy(body.error) && !Truthy(body.message) ==> r.result == Finished(Failed(UnexpectedDownloadMessage)))
            && r.events[|r.events| - 1] == OnError(r.result.outcome.error)
  {
    var download := Responded(200, Headers(Some("application/json"), None), "", Parsed(body));
    assert !Includes("application/json", SpreadsheetType);
    AcceptedRunShape(file, upload, obs, download, objectUrl, maxWait);
    AcceptedRunResult(file, upload, obs, download, objectUrl, maxWait);
    TerminalEventIsLast(file, upload, obs, download, objectUrl, maxWait);
  }

  /** A spreadsheet whose `Content-Disposition` names an empty file (`filename=""`) is a
      success for `processRfp` but a failure for the handler. */
  lemma EmptyFilenameFailsRun(file: FileInfo, upload: Reply<UploadBody>, obs: seq<Observation>,
                              download: Reply<DownloadBody>, objectUrl: ObjectUrl, maxWait: int)
    requires ValidateFile(file).Valid? && Accepted(UploadRfp(upload))
    requires Poll(UploadRfp(upload).jobId, obs, UploadStarted, maxWait).end == Completed
    requires DownloadJobResult(download, objectUrl).Succeeded?
    requires DownloadJobResult(download, objectUrl).filename == ""
    ensures ProcessRfp(upload, obs, download, objectUrl, maxWait).result == Finished(Succeeded(objectUrl, ""))
    ensures UploadAndProcessFile(file, upload, obs, download, objectUrl, maxWait).result
            == Finished(Failed(DownloadFailedMessage))
  {
    AcceptedRunShape(file, upload, obs, download, objectUrl, maxWait);
    AcceptedRunResult(file, upload, obs, download, objectUrl, maxWait);
    AcceptedSessionShape(upload, obs, download, objectUrl, maxWait);
  }
}
