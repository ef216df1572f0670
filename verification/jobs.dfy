/** Job records, the status state machine, and what one run of the pipeline
    does to a record, as values. The class that owns the table and applies
    these to it is `Manager.JobManager`. */
module Jobs {
  import opened Wrappers
  import opened Text

  /** The closed set of values the `status` column takes. */
  datatype JobStatus = Pending | Transcribing | Summarizing | Emailing | Done | Error

  /** Statuses that startup recovery treats as work cut off by a restart. */
  const InterruptedStatuses: set<JobStatus> := {Pending, Transcribing, Summarizing, Emailing}

  const InterruptedMessage := "interrupted by restart"
  /** SQLite's message when an INSERT reuses a primary key. */
  const DuplicateIdMessage := "UNIQUE constraint failed: jobs.id"
  /** Python's message when `os.path.basename` is given `None`. */
  const NoAudioPathMessage := "expected str, bytes or os.PathLike object, not NoneType"
  /** Python's message when the label lookup finds no row and indexes `None`. */
  const NoRowMessage := "'NoneType' object is not subscriptable"

  /** One row of the `jobs` table (`meetingLabel` is the `label` column).
      `createdAt` is the local wall-clock reading taken when the row was
      created, numbered so that it orders as its stored ISO-8601 text does;
      after the clock is set back, a later row can have a smaller reading. */
  datatype Job = Job(
    id: string,
    meetingLabel: string,
    status: JobStatus,
    summary: Option<string>,
    transcriptPath: Option<string>,
    audioPath: Option<string>,
    error: Option<string>,
    createdAt: int)

  type Table = map<string, Job>

  /** Every row is stored under its own id. */
  ghost predicate WellKeyed(t: Table) {
    forall id :: id in t ==> t[id].id == id
  }

  // ---------------------------------------------------------------------
  // The state machine

  /** The edges of the lifecycle: forward through the stages, from any
      in-flight status to `Error`, and from `Error` back to `Pending` by retry. */
  predicate Edge(a: JobStatus, b: JobStatus) {
    || (a == Pending && b == Transcribing)
    || (a == Transcribing && b == Summarizing)
    || (a == Summarizing && b == Emailing)
    || (a == Emailing && b == Done)
    || (a in InterruptedStatuses && b == Error)
    || (a == Error && b == Pending)
  }

  /** A sequence of statuses that follows the edges. */
  predicate IsPath(ss: seq<JobStatus>) {
    forall i :: 0 <= i < |ss| - 1 ==> Edge(ss[i], ss[i + 1])
  }

  /** The record invariant: `error` is set exactly in `Error`, a finished job
      has its results, and work in flight has none yet. */
  ghost predicate WellFormed(j: Job) {
    && (j.status == Error <==> j.error.Some?)
    && (j.status == Done ==> j.summary.Some? && j.transcriptPath.Some?)
    && (j.status in InterruptedStatuses ==> j.summary.None? && j.transcriptPath.None?)
  }

  ghost predicate AllWellFormed(t: Table) {
    forall id :: id in t ==> WellFormed(t[id])
  }

  // ---------------------------------------------------------------------
  // Creation, recovery, retry

  /** The row `create_job` inserts. */
  function NewJob(id: string, meetingLabel: string, audioPath: Option<string>, createdAt: int): Job {
    Job(id, meetingLabel, Pending, None, None, audioPath, None, createdAt)
  }

  lemma NewJobIsWellFormed(id: string, meetingLabel: string, audioPath: Option<string>, createdAt: int)
    ensures WellFormed(NewJob(id, meetingLabel, audioPath, createdAt))
    ensures NewJob(id, meetingLabel, audioPath, createdAt).status == Pending
  {
  }

  /** One row after startup recovery. */
  function RecoverJob(j: Job): Job {
    if j.status in InterruptedStatuses then j.(status := Error, error := Some(InterruptedMessage)) else j
  }

  /** The table after the recovery UPDATE. */
  function RecoverAll(t: Table): (r: Table)
    ensures r.Keys == t.Keys
    ensures forall id :: id in t && t[id].status in InterruptedStatuses ==>
              r[id] == t[id].(status := Error, error := Some(InterruptedMessage))
    ensures forall id :: id in t && t[id].status !in InterruptedStatuses ==> r[id] == t[id]
  {
    map id | id in t :: RecoverJob(t[id])
  }

  lemma RecoverAllIdempotent(t: Table)
    ensures RecoverAll(RecoverAll(t)) == RecoverAll(t)
  {
  }

  /** After recovery nothing is in flight, every change followed an edge, and
      the invariant is kept. */
  lemma RecoverAllSettles(t: Table)
    ensures forall id :: id in RecoverAll(t) ==> RecoverAll(t)[id].status in {Done, Error}
    ensures forall id :: id in t && RecoverAll(t)[id] != t[id] ==> Edge(t[id].status, RecoverAll(t)[id].status)
    ensures WellKeyed(t) ==> WellKeyed(RecoverAll(t))
    ensures AllWellFormed(t) ==> AllWellFormed(RecoverAll(t))
  {
    forall id | id in RecoverAll(t)
      ensures RecoverAll(t)[id].status in {Done, Error}
    {
      match t[id].status
      case Done =>
      case Error =>
      case _ =>
    }
  }

  /** The row `retry_job` writes back: status `Pending`, results and error cleared. */
  function ResetForRetry(j: Job): Job {
    j.(status := Pending, error := None, summary := None, transcriptPath := None)
  }

  lemma ResetForRetryFollowsEdge(j: Job)
    requires j.status == Error
    ensures Edge(j.status, ResetForRetry(j).status)
    ensures WellFormed(ResetForRetry(j))
    ensures ResetForRetry(j).id == j.id && ResetForRetry(j).meetingLabel == j.meetingLabel
    ensures ResetForRetry(j).audioPath == j.audioPath && ResetForRetry(j).createdAt == j.createdAt
  {
  }

  // ---------------------------------------------------------------------
  // One run of the pipeline

  /** Where the transcript of `audioPath` is written: `transcriptDir` joined
      with the audio file's basename, every `.mp3` in it replaced by `.txt`. */
  function TranscriptPath(transcriptDir: string, audioPath: string): string {
    JoinPath(transcriptDir, Replace(Basename(audioPath), ".mp3", ".txt"))
  }

  /** The transcript of `<prefix>/<stem>.mp3` is `<dir>/<stem>.txt`. */
  lemma TranscriptPathOfMp3(transcriptDir: string, prefix: string, stem: string)
    requires transcriptDir != [] && transcriptDir[|transcriptDir| - 1] != '/'
    requires prefix == [] || prefix[|prefix| - 1] == '/'
    requires '/' !in stem && !Occurs(".mp3", stem)
    ensures TranscriptPath(transcriptDir, prefix + stem + ".mp3") == transcriptDir + "/" + stem + ".txt"
  {
    assert '/' !in stem + ".mp3";
    assert prefix + stem + ".mp3" == prefix + (stem + ".mp3");
    BasenameOfLastComponent(prefix, stem + ".mp3");
    ReplaceMp3Suffix(stem);
  }

  /** The transcript file name is the audio basename, same length, no `/`,
      placed inside `transcriptDir`. */
  lemma TranscriptPathShape(transcriptDir: string, audioPath: string)
    ensures var name := Replace(Basename(audioPath), ".mp3", ".txt");
      && |name| == |Basename(audioPath)|
      && '/' !in name
      && TranscriptPath(transcriptDir, audioPath)
         == transcriptDir + (if transcriptDir == [] || transcriptDir[|transcriptDir| - 1] == '/' then [] else "/") + name
  {
    var name := Replace(Basename(audioPath), ".mp3", ".txt");
    ReplaceChars(Basename(audioPath), ".mp3", ".txt");
    assert '/' !in ".txt";
    if name != [] {
      assert name[0] in name;
    }
  }

  /** A call the pipeline makes to a collaborator outside the core. */
  datatype StageCall =
    | Transcribe(audioPath: string, outputPath: string)
    | Summarize(transcript: string)
    | SendNotes(meetingLabel: string, summary: string, transcriptPath: string)

  /** What each collaborator returns or raises when it is called. */
  datatype StageOutcomes = StageOutcomes(
    transcribed: Result<string, string>,
    summarized: Result<string, string>,
    sent: Outcome<string>)

  /** How a run ends: the final UPDATE of the success path, or of the
      exception handler with the exception's message. */
  datatype Ending = Finished(summary: string, transcriptPath: string) | Failed(message: string)

  /** One run: the statuses written on the way, the calls made, the ending. */
  datatype Attempt = Attempt(writes: seq<JobStatus>, calls: seq<StageCall>, ending: Ending)

  /** The run of `process`. `meetingLabel` is what the label lookup finds
      (`None` when the row is missing); `audioPath` is the argument, which may
      be `None`, and then computing the transcript path raises first. */
  function RunPipeline(meetingLabel: Option<string>, audioPath: Option<string>, transcriptDir: string,
                       o: StageOutcomes): Attempt
  {
    match audioPath
    case None => Attempt([], [], Failed(NoAudioPathMessage))
    case Some(audio) => RunStages(meetingLabel, audio, TranscriptPath(transcriptDir, audio), o)
  }

  /** The stages of `process` once the transcript path `out` is known. */
  function RunStages(meetingLabel: Option<string>, audio: string, out: string, o: StageOutcomes): Attempt {
    var transcribe := Transcribe(audio, out);
    match o.transcribed
    case Failure(e) => Attempt([Transcribing], [transcribe], Failed(e))
    case Success(text) =>
      match o.summarized
      case Failure(e) => Attempt([Transcribing, Summarizing], [transcribe, Summarize(text)], Failed(e))
      case Success(summary) =>
        match meetingLabel
        case None => Attempt([Transcribing, Summarizing, Emailing], [transcribe, Summarize(text)], Failed(NoRowMessage))
        case Some(l) =>
          var calls := [transcribe, Summarize(text), SendNotes(l, summary, out)];
          match o.sent
          case Fail(e) => Attempt([Transcribing, Summarizing, Emailing], calls, Failed(e))
          case Pass => Attempt([Transcribing, Summarizing, Emailing], calls, Finished(summary, out))
  }

  /** The last status a run leaves: `Done` or `Error`. */
  function FinalStatus(e: Ending): JobStatus {
    if e.Finished? then Done else Error
  }

  /** The final UPDATE of a run applied to the table; a missing id matches no row. */
  function Settle(t: Table, id: string, e: Ending): Table {
    if id !in t then t
    else match e
      case Finished(summary, path) =>
        t[id := t[id].(status := Done, summary := Some(summary), transcriptPath := Some(path))]
      case Failed(message) => t[id := t[id].(status := Error, error := Some(message))]
  }

  /** The table after `_set_status`; a missing id matches no row. */
  function WithStatus(t: Table, id: string, s: JobStatus): Table {
    if id in t then t[id := t[id].(status := s)] else t
  }

  /** A status written during a run is overwritten by the run's last UPDATE,
      and does not change the label the run looks up. */
  lemma StatusWriteIsSuperseded(t: Table, id: string, s: JobStatus, e: Ending)
    ensures Settle(WithStatus(t, id, s), id, e) == Settle(t, id, e)
    ensures LabelOf(WithStatus(t, id, s), id) == LabelOf(t, id)
  {
  }

  /** The label lookup of `process`. */
  function LabelOf(t: Table, id: string): Option<string> {
    if id in t then Some(t[id].meetingLabel) else None
  }

  /** When every stage succeeds: the statuses are written in pipeline order,
      each collaborator is called once with the previous stage's output, and
      the job ends `Done` with the summary and the computed transcript path. */
  lemma ProcessSucceeds(t: Table, id: string, audio: string, transcriptDir: string,
                        text: string, summary: string)
    requires id in t
    ensures var a := RunPipeline(LabelOf(t, id), Some(audio), transcriptDir,
                                 StageOutcomes(Success(text), Success(summary), Pass));
      var path := TranscriptPath(transcriptDir, audio);
      && a.writes + [FinalStatus(a.ending)] == [Transcribing, Summarizing, Emailing, Done]
      && a.calls == [Transcribe(audio, path), Summarize(text), SendNotes(t[id].meetingLabel, summary, path)]
      && Settle(t, id, a.ending)
         == t[id := t[id].(status := Done, summary := Some(summary), transcriptPath := Some(path))]
  {
  }

  /** When a stage fails: no later stage is called, the job ends `Error` with
      the failure's message, and its summary and transcript path are kept. */
  lemma ProcessStopsAtFirstFailure(t: Table, id: string, audioPath: Option<string>,
                                   transcriptDir: string, o: StageOutcomes)
    requires id in t
    ensures var a := RunPipeline(LabelOf(t, id), audioPath, transcriptDir, o);
      && (audioPath.None? ==> a.calls == [] && a.ending == Failed(NoAudioPathMessage))
      && (audioPath.Some? && o.transcribed.Failure? ==>
            |a.calls| == 1 && a.calls[0].Transcribe? && a.ending == Failed(o.transcribed.error))
      && (audioPath.Some? && o.transcribed.Success? && o.summarized.Failure? ==>
            |a.calls| == 2 && a.calls[1].Summarize? && a.ending == Failed(o.summarized.error))
      && (audioPath.Some? && o.transcribed.Success? && o.summarized.Success? && o.sent.Fail? ==>
            |a.calls| == 3 && a.calls[2].SendNotes? && a.ending == Failed(o.sent.error))
      && (a.ending.Failed? ==>
            Settle(t, id, a.ending) == t[id := t[id].(status := Error, error := Some(a.ending.message))])
  {
  }

  /** A run for an id with no row changes nothing. */
  lemma ProcessMissingJob(t: Table, id: string, audioPath: Option<string>,
                          transcriptDir: string, o: StageOutcomes)
    requires id !in t
    ensures Settle(t, id, RunPipeline(LabelOf(t, id), audioPath, transcriptDir, o).ending) == t
    ensures RunPipeline(LabelOf(t, id), audioPath, transcriptDir, o).ending.Failed?
  {
  }

  /** A run changes only its own row, and only its status, error and results. */
  lemma SettleTouchesOnlyJob(t: Table, id: string, e: Ending)
    ensures Settle(t, id, e).Keys == t.Keys
    ensures forall k :: k in t && k != id ==> Settle(t, id, e)[k] == t[k]
    ensures id in t ==>
      var j := Settle(t, id, e)[id];
      j.id == t[id].id && j.meetingLabel == t[id].meetingLabel && j.audioPath == t[id].audioPath
      && j.createdAt == t[id].createdAt && j.status == FinalStatus(e)
  {
  }

  /** A run on any well-formed row that is not in `Error` leaves it well-formed. */
  lemma ProcessKeepsWellFormed(t: Table, id: string, audioPath: Option<string>,
                               transcriptDir: string, o: StageOutcomes)
    requires id in t && t[id].status != Error && WellFormed(t[id])
    ensures WellFormed(Settle(t, id, RunPipeline(LabelOf(t, id), audioPath, transcriptDir, o).ending)[id])
  {
  }

  /** A successful run on a row in `Error` ends `Done` but keeps the old error
      message: the success UPDATE does not clear the `error` column. */
  lemma ProcessOnFailedRowKeepsError(t: Table, id: string, audio: string, transcriptDir: string,
                                     text: string, summary: string)
    requires id in t && t[id].status == Error && t[id].error.Some?
    ensures var j := Settle(t, id, RunPipeline(LabelOf(t, id), Some(audio), transcriptDir,
                                               StageOutcomes(Success(text), Success(summary), Pass)).ending)[id];
      && j.status == Done
      && j.error == t[id].error
      && !WellFormed(j)
  {
  }

  /** The statuses a job passes through in one run started from `Pending`. */
  function History(a: Attempt): seq<JobStatus> {
    [Pending] + a.writes + [FinalStatus(a.ending)]
  }

  lemma StagesFollowStateMachine(meetingLabel: Option<string>, audio: string, out: string, o: StageOutcomes)
    ensures IsPath(History(RunStages(meetingLabel, audio, out, o)))
  {
    var a := RunStages(meetingLabel, audio, out, o);
    if a.ending.Finished? {
      assert History(a) == [Pending, Transcribing, Summarizing, Emailing, Done];
    } else {
      assert History(a) == [Pending, Transcribing, Error]
          || History(a) == [Pending, Transcribing, Summarizing, Error]
          || History(a) == [Pending, Transcribing, Summarizing, Emailing, Error];
    }
  }

  /** A run started on a `Pending` job follows the state machine's edges and
      keeps the record invariant. */
  lemma ProcessFollowsStateMachine(t: Table, id: string, audioPath: Option<string>,
                                   transcriptDir: string, o: StageOutcomes)
    requires id in t && t[id].status == Pending && WellFormed(t[id])
    ensures var a := RunPipeline(LabelOf(t, id), audioPath, transcriptDir, o);
      && IsPath(History(a))
      && WellFormed(Settle(t, id, a.ending)[id])
  {
    match audioPath
    case None =>
      assert History(RunPipeline(LabelOf(t, id), audioPath, transcriptDir, o)) == [Pending, Error];
    case Some(audio) =>
      StagesFollowStateMachine(LabelOf(t, id), audio, TranscriptPath(transcriptDir, audio), o);
  }
}
