/** The progress estimate synthesised by the upload handler (folder.ts): after each
    successful status poll the estimate moves either towards the server's hint or, when
    no hint is given, by a fixed step from a floor keyed by the status. */
module Progress {
  import opened Js
  import opened Text

  /** Reported just before the upload starts, and the estimate the first poll starts from. */
  const UploadStarted := 10
  /** Reported once the result has been downloaded. */
  const Done := 100
  /** A hint never takes the estimate past this before the download. */
  const HintCeiling := 99
  /** The heuristic never takes the estimate past this. */
  const HeuristicCeiling := 95
  /** The heuristic's increment per poll. */
  const StepSize := 3
  /** The floor for a status with no entry in the table. */
  const UnknownStatusFloor := 20
  /** The key used when the status is empty. */
  const DefaultStatusKey := "processing"

  /** The floor per status key. */
  const Floors: map<string, int> := map[
    "queued" := 12,
    "pending" := 12,
    "started" := 15,
    "parsing" := 35,
    "extracting" := 55,
    "generating" := 75,
    "processing" := 20,
    "completed" := 100
  ]

  function Min(a: int, b: int): int { if a <= b then a else b }
  function Max(a: int, b: int): int { if a >= b then a else b }

  /** The floor for a status key: the table entry, or 20 for any other key. */
  function Floor(key: string): (f: int)
    ensures 12 <= f <= 100
    ensures key !in Floors ==> f == UnknownStatusFloor
    ensures key == "queued" || key == "pending" ==> f == 12
    ensures key == "started" ==> f == 15
    ensures key == "parsing" ==> f == 35
    ensures key == "extracting" ==> f == 55
    ensures key == "generating" ==> f == 75
    ensures key == "processing" ==> f == 20
    ensures key == "completed" ==> f == 100
  {
    if key in Floors then Floors[key] else UnknownStatusFloor
  }

  /** `(status || 'processing').toLowerCase()`. */
  function StatusKey(status: string): (key: string)
    ensures IsLower(key)
  {
    ToLower(Or(Some(status), DefaultStatusKey))
  }

  /** A status that is already lower case is its own key (the status handed over by
      `getJobStatus` always is), and an empty status counts as `processing`. */
  lemma StatusKeyOfNormalised(status: string)
    requires IsLower(status)
    ensures status != "" ==> StatusKey(status) == status
    ensures status == "" ==> StatusKey(status) == DefaultStatusKey
  {
    LowerIsFixed(status);
    LowerIsFixed(DefaultStatusKey);
  }

  /** With a hint: `min(max(hint, last), 99)`. */
  function HintStep(hint: int, last: int): (next: int)
    ensures next <= HintCeiling
    ensures last <= HintCeiling ==> last <= next
    ensures hint <= HintCeiling ==> hint <= next
    ensures next == HintCeiling || next == hint || next == last
    ensures next <= Max(hint, last)
    ensures next == HintCeiling || (hint <= next && last <= next)
  {
    Min(Max(hint, last), HintCeiling)
  }

  /** Without a hint: `min(max(last + 3, floor), 95)`. */
  function HeuristicStep(key: string, last: int): (next: int)
    ensures next <= HeuristicCeiling
    ensures next >= Min(last + StepSize, HeuristicCeiling)
    ensures next >= Min(Floor(key), HeuristicCeiling)
    ensures last <= HeuristicCeiling ==> last <= next
    ensures last > HeuristicCeiling ==> next == HeuristicCeiling
    ensures next <= Max(last + StepSize, Floor(key))
  {
    Min(Max(last + StepSize, Floor(key)), HeuristicCeiling)
  }

  /** The estimate after a successful poll that reported `status` and maybe a hint: it
      stays within [10, 99] and does not go down, except when a hint-less poll follows an
      estimate above 95; a hint-less poll never reports more than 95. */
  function Estimate(status: string, hint: Option<int>, last: int): (next: int)
    ensures UploadStarted <= last <= HintCeiling ==> UploadStarted <= next <= HintCeiling
    ensures last <= HintCeiling && (hint.None? ==> last <= HeuristicCeiling) ==> last <= next
    ensures hint.None? ==> next <= HeuristicCeiling
    ensures hint.Some? && UploadStarted <= hint.value <= HintCeiling ==> hint.value <= next
  {
    match hint
    case Some(h) => HintStep(h, last)
    case None => HeuristicStep(StatusKey(status), last)
  }

  /** The estimate stays within [10, 99] from one poll to the next, whatever the hint. */
  lemma EstimateInRange(status: string, hint: Option<int>, last: int)
    requires UploadStarted <= last <= HintCeiling
    ensures UploadStarted <= Estimate(status, hint, last) <= HintCeiling
  {
  }

  /** A `completed` poll without a hint reports 95, never 100. */
  lemma CompletedWithoutHintIs95(last: int)
    ensures Estimate("completed", None, last) == HeuristicCeiling
  {
    StatusKeyOfNormalised("completed");
  }

  /** The estimate does not go down, except when a hint-less poll follows an estimate above 95. */
  lemma EstimateMonotone(status: string, hint: Option<int>, last: int)
    requires last <= HintCeiling
    requires hint.None? ==> last <= HeuristicCeiling
    ensures last <= Estimate(status, hint, last)
  {
  }

  /** The one way the estimate regresses: a hint of 96 to 99 followed by a hint-less poll. */
  lemma HighHintThenNoHintRegresses(status: string, hint: int)
    requires 96 <= hint <= 99
    ensures Estimate(status, None, Estimate(status, Some(hint), UploadStarted)) < Estimate(status, Some(hint), UploadStarted)
  {
  }
}
