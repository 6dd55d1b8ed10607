# RFP upload, poll and download — a Dafny model

The front end of the RFP analyser does three things. It sends a PDF to a backend that starts an
asynchronous job. It polls the job's status until the job completes, fails or takes too long.
It then downloads the generated spreadsheet. Two pieces of TypeScript carry this logic:

- `ApiService` (`src/components/service/Api.ts`) turns each HTTP exchange into a result record:
  `uploadRfp`, `getJobStatus` and `downloadJobResult`. The last of these reads the download's
  file name from the `Content-Disposition` header with a regular expression. `processRfp` chains
  the three calls with a polling loop.
- `FileUploadHandler` (`src/components/service/folder.ts`) runs the same sequence for the UI.
  It first validates the file and synthesises a progress estimate after every poll. It reports
  to its caller through `onProgress`, `onError` and `onSuccess`.

The model makes every asynchronous step a pure function of what the step observed:

- A settled HTTP exchange is a `Reply`. Either the call threw (an `Error` with its message, or
  any other value), or a response arrived with a status, two headers, the body as text and the
  outcome of parsing the body as JSON.
- A polling loop runs over a finite sequence of `Observation`s. Each one is a status reply
  together with the milliseconds elapsed when the timeout is checked. When the sequence runs out
  before the loop decides anything, the run ends in `AwaitingStatus`.
- A run of the handler is the list of callbacks it invokes, in order, the remote calls it makes,
  and what it returns.

Modules:

| module | file | contents |
|---|---|---|
| `Js` | js.dfy | optional fields, truthiness, `a \|\| b`, `a \|\| b \|\| c` |
| `Text` | text.dfy | `toLowerCase` (ASCII), `${n}` for naturals, `includes`, removing quotes |
| `Http` | http.dfy | settled exchanges, `error instanceof Error ? … : …`, `HTTP <status>: <body>` |
| `Validator` | validator.dfy | `validateFile` |
| `Disposition` | disposition.dfy | the file-name regular expression, as a scanner proved equal to its meaning |
| `Api` | api.dfy | `uploadRfp`, `getJobStatus`, `downloadJobResult`, the loop of `processRfp`, `processRfp` |
| `ApiProofs` | api_proofs.dfy | the loop against a closed form; request order of `processRfp` |
| `Progress` | progress.dfy | the progress estimate |
| `Workflow` | workflow.dfy | `uploadAndProcessFile`, `selectAndProcessFile` |
| `WorkflowProofs` | workflow_proofs.dfy | progress bounds and monotonicity, terminal callbacks, agreement with `processRfp` |
| `SampleRuns` | sample_runs.dfy | whole runs on a worked example, and the concrete replies that produce them |

## Where the code departs from what it declares

The model follows the code in each of these cases.

- **Progress monotonicity.** Each step of the estimate is written to move forward: the hint
  step keeps `Math.max(status.progress, lastProgress)` (folder.ts:108) and the heuristic adds 3
  to the last estimate (folder.ts:123-124). The heuristic's cap of 95 still pulls the estimate
  back when a poll hints above 95 and a later poll carries no hint.
  `WorkflowProofs.ProgressMonotone` proves monotonicity under the hypothesis that, among the
  status replies the loop actually polls, no hint-less one follows a hint above 95; replies after
  the loop has stopped are never requested and do not count (`WorkflowProofs.PollPrefix`).
  `WorkflowProofs.HighHintThenHintlessRegresses` shows the hypothesis cannot be dropped.
- **Completion does not guarantee success.** After a `completed` poll within the time bound, the
  handler calls `onSuccess` only when the download succeeds with a non-empty file name
  (folder.ts:148). A reply that is not a spreadsheet fails the run with the server's message. A
  header `filename=""` makes `processRfp` succeed with an empty name while the handler reports
  "Failed to download result". `WorkflowProofs.EmptyFilenameFailsRun` states this case.
- **Status values.** The response type declares four status values (Api.ts:18). The code accepts
  any string, lower-cases it and looks it up in a table of floors; an unknown key gets the floor
  20.
- **Terminal checks and the timeout.** `completed` and `failed` are checked before the timeout,
  so a terminal status that arrives late still wins. The timeout itself is strict: `>`, not `>=`.

## Model

| member | source | states |
|---|---|---|
| Js.Or | src/components/service/folder.ts:73 | `a \|\| fallback` yields `a` exactly when it is a non-empty string, else the fallback; the result is empty only when both are |
| Js.FirstTruthy | src/components/service/Api.ts:75 | the result is present iff some field is truthy, and it is the first truthy field |
| Text.ToLower | src/components/service/Api.ts:109 | same length, each character lower-cased, and the result has no upper-case letter |
| Text.ToLowerIdempotent | src/components/service/folder.ts:111 | lower-casing a status that `getJobStatus` already lower-cased changes nothing |
| Text.DecimalRoundTrip | src/components/service/Api.ts:71 | reading back the decimal rendering of a status code gives the code |
| Text.DecimalInjective | src/components/service/Api.ts:71 | distinct status codes render differently |
| Text.StripQuotes | src/components/service/Api.ts:154 | the result has no quote character, is no longer than the input, and keeps only the input's characters |
| Text.StripQuotesAppend | src/components/service/Api.ts:154 | removing quotes distributes over concatenation |
| Text.StripQuotesIdempotent | src/components/service/Api.ts:154 | removing quotes twice is removing them once |
| Http.Caught | src/components/service/Api.ts:84-90 | an `Error` yields its message; any other thrown value yields the fallback |
| Http.HttpError | src/components/service/Api.ts:68-72 | the message is `HTTP `, the status digits, a colon, a space and the body, in that order and nothing else |
| Http.HttpErrorInjective | src/components/service/Api.ts:71 | status and body can be read back: different failures give different messages |
| Validator.ValidateFile | src/components/service/Api.ts:246-265 | valid iff the type is exactly `application/pdf` and the size is at most 50 MiB; the type is checked first; every refusal has a message |
| Validator.CeilingIsInclusive | src/components/service/Api.ts:255-262 | a PDF of exactly 52428800 bytes passes and one byte more is refused |
| Validator.TypeCheckedFirst | src/components/service/Api.ts:247-253 | a file of the wrong type gets the same verdict whatever its size |
| Disposition.ClosingQuote | src/components/service/Api.ts:152 | finds the quote closing `(['"]).*?\2`, or shows that none closes it before a line terminator |
| Disposition.Capture | src/components/service/Api.ts:152 | capture group 1 is the quoted span when one closes, else the run up to `;` or line feed |
| Disposition.MatchesAtByScan | src/components/service/Api.ts:152 | the scanner's test at a position holds iff `filename[^;=\n]*=` matches there |
| Disposition.FirstMatch | src/components/service/Api.ts:152 | the result is the leftmost matching position, and none exists when it is absent |
| Disposition.EqualsIsNameEnd | src/components/service/Api.ts:152 | the `=` that ends the name part of a match is unique |
| Disposition.FilenameFrom | src/components/service/Api.ts:149-156 | the default name for a missing header, no match or an empty capture; otherwise the capture of the leftmost match with its quotes removed |
| Disposition.QuotedFilename | src/components/service/Api.ts:152-154 | `filename="v"` after a prefix without `f` yields `v` |
| Disposition.UnquotedFilename | src/components/service/Api.ts:152-154 | `filename=v` yields `v` when `v` runs up to `;`, a line feed or the end |
| Disposition.EmptyValueGivesDefault | src/components/service/Api.ts:152-153 | an empty first value gives `rfp_analysis.xlsx` even when a later parameter would match |
| Disposition.EmptyQuotedValueGivesEmptyName | src/components/service/Api.ts:152-154 | `filename=""` yields the empty name, not the default |
| Disposition.QuotedFilenameExample | src/components/service/Api.ts:150-155 | `attachment; filename="report.xlsx"` yields `report.xlsx` |
| Api.PickJobId | src/components/service/Api.ts:75 | `job_id`, else `jobId`, else `id`, whichever is first non-empty, else none |
| Api.UploadRfp | src/components/service/Api.ts:46-91 | a thrown error, a non-2xx reply, unparsable JSON and a missing id each give their error; otherwise the first non-empty id |
| Api.GetJobStatus | src/components/service/Api.ts:96-126 | a report iff the reply is 2xx JSON; the status is lower-cased (empty when absent), only a numeric `progress` is kept, the job id falls back to the requested one, and `message` is passed on |
| Api.DownloadJobResult | src/components/service/Api.ts:131-172 | success iff a 2xx reply has the spreadsheet content type; it then carries the object URL and the header's file name; each other case gives its error, with the body's `error`, then `message`, then a fixed text |
| Api.Verdict | src/components/service/Api.ts:196-209 | one poll decides nothing iff it succeeded with a status other than `completed`/`failed` within the wait; a failed call stops with its error; `completed` stops as completed and `failed` as a failed job with the poll's message, whatever the time; any other status past the wait times out, and a timeout happens only past the wait |
| Api.StopMessage | src/components/service/Api.ts:197-208 | the message of a stopped loop is non-empty: the call's error or "Failed to get job status" when it is empty, the job's message or "Processing failed" when it has none, and "Processing timed out" for a timeout |
| Api.AwaitCompletion | src/components/service/Api.ts:195-211 | the loop stops at the first deciding observation, after exactly that many requests, with every earlier poll undecided |
| Api.StatusRequests | src/components/service/Api.ts:196 | one status request per poll, for the job being polled |
| Api.ProcessRfp | src/components/service/Api.ts:178-219 | the upload comes first; a rejected upload ends the session with its error or "Upload failed"; an empty error can only come from the download |
| ApiProofs.StopsAtFirstDecision | src/components/service/Api.ts:195-211 | closed form of the loop: for the first deciding observation `k`, `k+1` polls ending with its verdict |
| ApiProofs.WaitsWhileUndecided | src/components/service/Api.ts:195-211 | with no deciding observation the loop is still waiting after all of them |
| ApiProofs.TerminalStatusBeatsTimeout | src/components/service/Api.ts:201-209 | a late `completed` or `failed` still ends with that status; any other late status times out |
| ApiProofs.TimeoutIsStrict | src/components/service/Api.ts:207 | a poll at exactly the maximum wait keeps polling; the loop carries on iff the elapsed time is within the wait |
| ApiProofs.AcceptedSessionShape | src/components/service/Api.ts:182-214 | after an accepted upload: upload, one status request per poll, and the download only after `completed`; the result by how the loop ended |
| ApiProofs.DownloadOnlyAfterCompleted | src/components/service/Api.ts:201-214 | a download is requested iff the upload was accepted and the loop ended `completed`; it is then last, after a poll that reported `completed` |
| ApiProofs.RejectedUploadStops | src/components/service/Api.ts:182-185 | a rejected upload makes no other request, and its outcome does not depend on the job |
| Progress.Floor | src/components/service/folder.ts:112-122 | the floor is 12 for `queued` and `pending`, 15 for `started`, 35 for `parsing`, 55 for `extracting`, 75 for `generating`, 20 for `processing`, 100 for `completed`, and 20 for any key outside the table |
| Progress.StatusKey | src/components/service/folder.ts:111 | the key is lower case |
| Progress.StatusKeyOfNormalised | src/components/service/folder.ts:111 | a lower-case status is its own key; an empty one counts as `processing` |
| Progress.HintStep | src/components/service/folder.ts:107-108 | with a hint the estimate is the larger of the hint and the last estimate, clamped to at most 99: it is at most 99 and at most that larger value, and unless it is 99 it is at least both |
| Progress.HeuristicStep | src/components/service/folder.ts:122-124 | without a hint the estimate is the larger of the last plus 3 and the floor, clamped to at most 95: at most 95 and at most that larger value, and at least each of the two capped at 95 |
| Progress.Estimate | src/components/service/folder.ts:106-125 | one poll keeps the estimate within [10, 99]; it does not go down unless a hint-less poll follows an estimate above 95; without a hint it is at most 95; an in-range hint is a lower bound |
| Progress.EstimateInRange | src/components/service/folder.ts:107-125 | from an estimate in [10, 99] the next one stays in [10, 99] |
| Progress.CompletedWithoutHintIs95 | src/components/service/folder.ts:120-124 | a `completed` poll without a hint reports 95, not the table's 100 |
| Progress.EstimateMonotone | src/components/service/folder.ts:107-125 | the estimate does not go down unless a hint-less poll follows an estimate above 95 |
| Progress.HighHintThenNoHintRegresses | src/components/service/folder.ts:108-124 | a hint of 96 to 99 followed by a hint-less poll makes the estimate go down |
| Workflow.Poll | src/components/service/folder.ts:97-144 | the handler's loop reports only progress, one report per successful poll, and stops exactly where `processRfp`'s loop stops; from [10, 99] every estimate stays in [10, 99] |
| Workflow.UploadAndProcessFile | src/components/service/folder.ts:63-162 | an invalid file gives one `onError` with the validator's message and no request; a valid one starts with progress 10 and the upload |
| Workflow.SelectAndProcessFile | src/components/service/folder.ts:174-182 | no file selected: "No file selected", with no callback and no request |
| WorkflowProofs.PollPercentsInRange | src/components/service/folder.ts:107-126 | every percentage the loop reports lies in [10, 99] |
| WorkflowProofs.PollPrefix | src/components/service/folder.ts:97-144 | the loop reads only the replies it polls: dropping every observation after its last status request leaves its reports, request count, end and estimate unchanged |
| WorkflowProofs.FirstDecisionBoundsHypothesis | src/components/service/folder.ts:128-142 | a first poll that decides ends the loop after one request, so the monotonicity hypothesis holds whatever replies would have followed |
| WorkflowProofs.RunReadsPolledOnly | src/components/service/folder.ts:90-162 | a run of the handler is unchanged when the observations after the loop's last status request are dropped |
| WorkflowProofs.PollMonotone | src/components/service/folder.ts:95-126 | the loop's estimates never go down while, among the replies it polls, no hint-less one follows an estimate above 95 |
| WorkflowProofs.AcceptedRunShape | src/components/service/folder.ts:80-162 | after an accepted upload: 10, the loop's reports, then the closing callbacks; the upload, the polls and, after `completed` only, the download |
| WorkflowProofs.AcceptedRunResult | src/components/service/folder.ts:128-162 | the result by how the loop ended, including the checks on the download's URL and file name |
| WorkflowProofs.RunPercents | src/components/service/folder.ts:80-149 | the percentages of a run are 10, one per successful poll, then 100 on success only |
| WorkflowProofs.ProgressWithinBounds | src/components/service/folder.ts:80-149 | every percentage lies in [10, 100], and 100 is reported iff the run succeeds |
| WorkflowProofs.ProgressMonotone | src/components/service/folder.ts:95-149 | progress never goes down when, among the status replies the loop polls, no hint-less one follows a hint above 95 |
| WorkflowProofs.HighHintThenHintlessRegresses | src/components/service/folder.ts:107-126 | a first poll hinting above 95 and a hint-less second poll make the reported progress go down |
| WorkflowProofs.TerminalEventIsLast | src/components/service/folder.ts:63-162 | a finished run ends with exactly one `onError` or `onSuccess` after progress only; success is preceded by 100; a run still polling has reported progress only |
| WorkflowProofs.UploadFailureReported | src/components/service/folder.ts:80-88 | a rejected upload reports 10 and the upload's non-empty error, with no further request |
| WorkflowProofs.UploadTimeoutReported | src/components/service/Api.ts:52-90 | an upload aborted by its timer reports 10, then "Timeout", and stops |
| WorkflowProofs.AgreesWithProcessRfp | src/components/service/folder.ts:82-162 | for a valid file the handler makes the same requests as `processRfp` and returns its result, except that a nameless success or an empty error becomes "Failed to download result" |
| WorkflowProofs.RunDownloadsOnlyAfterCompleted | src/components/service/folder.ts:128-147 | a download is requested only after a `completed` poll, as the last request |
| WorkflowProofs.CompletedAndDownloadedSucceeds | src/components/service/folder.ts:146-156 | `completed` plus a named spreadsheet: one `onSuccess` with the object URL and name, right after 100, and only progress before |
| WorkflowProofs.FailedOrTimedOutReportsError | src/components/service/folder.ts:131-142 | `failed` or a timeout: one final `onError` with the job's message, "Processing failed" or the timeout text, and no download |
| WorkflowProofs.RejectedDownloadReported | src/components/service/Api.ts:162-164 | a JSON reply to the download fails the run with the body's `error`, else its `message`, else a fixed text |
| WorkflowProofs.EmptyFilenameFailsRun | src/components/service/folder.ts:148-159 | an empty file name is a success for `processRfp` but a failure for the handler |
| SampleRuns.StatusReplyReport | src/components/service/Api.ts:108-116 | a 2xx reply with a lower-case status is reported as is, under the requested id, without a hint |
| SampleRuns.SpreadsheetDownload | src/components/service/Api.ts:145-159 | a 2xx spreadsheet reply gives the object URL and the header's file name |
| SampleRuns.ExampleDownload | src/components/service/Api.ts:145-159 | the example's download reply gives `report.xlsx` |
| SampleRuns.PendingEstimate | src/components/service/folder.ts:112-124 | `pending` after 10 gives 13 |
| SampleRuns.ProcessingEstimate | src/components/service/folder.ts:112-124 | `processing` after 13 gives 20 |
| SampleRuns.FailedEstimate | src/components/service/folder.ts:122-124 | `failed`, which has no floor of its own, after 10 gives 20 |
| SampleRuns.ExamplePolling | src/components/service/folder.ts:97-130 | `pending`, `processing`, `completed` in time: reports 13, 20, 95, then stops after three polls |
| SampleRuns.HappyPathRun | src/components/service/folder.ts:63-156 | the example's run: progress 10, 13, 20, 95, 100, then `onSuccess` with `report.xlsx`; upload, three polls, download |
| SampleRuns.HappyPathExchanges | src/components/service/Api.ts:46-159 | the example's concrete replies meet the hypotheses of the successful run |
| SampleRuns.ExampleRun | src/components/service/folder.ts:63-156 | the example end to end with the default thirty-minute wait |
| SampleRuns.FailedJobRun | src/components/service/folder.ts:126-135 | a first poll reporting `failed` with a message: 10, 20, then `onError` with that message, and no download |
| SampleRuns.CorruptFileReply | src/components/service/Api.ts:108-116 | a `failed` reply with message `corrupt file` is reported as such |

## Left out

- Network, timers and the browser. `fetch`, `FormData`, `AbortController`, `setTimeout` and the
  delay between polls are not modelled. Each settled exchange is an input `Reply`. The time read
  at each timeout check is an input `elapsed`. The poll interval (3000 ms by default) only spaces
  the polls out, so it does not appear.
- Configuration from `import.meta.env`. The maximum wait is a parameter, and its thirty-minute
  default is the constant `Api.DefaultMaxWait`. Endpoint selection, base URLs and
  `encodeURIComponent` only choose where a request goes; a request is modelled by its kind and
  job id.
- Logging (`log`, `enableLogs`) has no effect on results.
- The file picker, `selectFile`. It is DOM plumbing, and its answer is an input
  (`Option<FileInfo>`). The same applies to `downloadFile`, and to `URL.createObjectURL`, whose
  result is an opaque non-empty token (`ObjectUrl`).
- The `catch` blocks of `uploadAndProcessFile`, `selectAndProcessFile` and `processRfp`
  (folder.ts:163-168, folder.ts:183-187, Api.ts:215-218). The service calls catch their own
  errors, so these blocks are reached only when a callback throws. Callbacks are modelled as
  recorded events that cannot throw.
- Callbacks that are absent. `options` defaults to `{}` and every callback is invoked as
  `onX?.(…)` (folder.ts:65-67, 74, 80, 126, 149-150); the model records every invocation as an
  event, which is what a caller that supplies all three callbacks observes.
- Api.DownloadJobResult: reading the body with `response.blob()` (Api.ts:147) is not modelled. A
  2xx spreadsheet reply whose body cannot be read fails in the source, with the read error's
  message from the `catch` at Api.ts:165-170, but succeeds in the model.
- JSON values of unexpected types. A non-string `status`, `job_id`, `message` or `error` is not
  modelled, and neither is a `progress` hint that is a non-integer number, `NaN` or infinite.
  Hints are integers, and any other kind of `progress` counts as no hint.
- Text.ToLower: lower-cases ASCII letters only, not the full Unicode case mapping of
  `toLowerCase`.
- Progress.Floor: inherited object keys such as `constructor`, which the source's plain-object
  table would return instead of a number, are treated as unknown keys.
- Http.Ok: a status of 0 (opaque responses) is not modelled separately; it is simply not 2xx.
- Workflow.UploadAndProcessFile: its own contract covers only the invalid-file case and the
  first callback and request. The full behaviour is stated by the lemmas of `WorkflowProofs`
  about it.
- The React components, the page layout and the build configuration are not part of this model.
