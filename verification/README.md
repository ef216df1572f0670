# Meeting-notes job tracker and speaker merger, in Dafny

This project models the two parts of the meeting recorder that hold its logic:

- **The job tracker** (`jobs.py`, class `JobManager`). It keeps a table of
  jobs keyed by id, one per recording. A job moves from `pending` through
  `transcribing`, `summarizing` and `emailing` to `done`, or to `error` when a
  stage raises. A failed job can be retried, and at startup any job left in
  flight is marked as interrupted.
- **The speaker merger** (`diarizer.py`). It gives each transcribed segment
  the speaker of the diarization span that covers its midpoint, or else of the
  nearest span. It then groups consecutive segments of one speaker into
  `"<speaker>: text text"` lines. It falls back to the plain transcript when
  there is no token, the diarization fails, or fewer than two speakers are
  found.

Modules:

- `Wrappers` (`wrappers.dfy`): `Option`, `Result` and `Outcome`, which stand
  for `None` and for a call that returns or raises.
- `Text` (`text.dfy`): the Python string and path primitives the core uses:
  - `str.strip`, `str.join` and `str.replace`;
  - `os.path.basename` and the two-argument POSIX `os.path.join`.
- `Jobs` (`jobs.dfy`): the job record, the status state machine, recovery and
  retry as functions on records. It also defines one run of `process` as a
  value (`RunPipeline`): the statuses it writes, the calls it makes, and the
  final UPDATE it ends with (`Settle`).
- `Manager` (`manager.dfy`): class `JobManager`. Its `table: map<string, Job>`
  field stands for the SQLite `jobs` table, and its methods update the table
  in place. Each method is proved against the functions of `Jobs`.
- `Diarizer` (`diarizer.dfy`):
  - `_find_speaker`, as pure functions;
  - the grouping loop of `diarize`, as the method `MergeTurns`, proved equal
    to a run-grouping function `Turns`;
  - `diarize` itself, as a method whose inputs are the pipeline's spans (or
    its failure) and the token.

## Model

| member | source | states |
|---|---|---|
| Text.IsSpace | diarizer.py:27 | reference definition of Python's `str.isspace` on one character, the set `strip()` removes; `TrimStart`, `TrimEnd` and `StripKeepsMiddle` use it |
| Text.TrimStart | diarizer.py:27 | `lstrip` leaves a suffix of the input whose removed prefix is all whitespace and whose first character is not whitespace |
| Text.TrimEnd | diarizer.py:27 | `rstrip` leaves a prefix whose removed tail is all whitespace and whose last character is not whitespace |
| Text.Strip | diarizer.py:27 | `strip` never lengthens its input, and its result has no whitespace at either end |
| Text.StripKeepsMiddle | diarizer.py:27 | `strip` returns a contiguous slice of its input, with only whitespace before and after that slice |
| Text.JoinWith | diarizer.py:27 | reference definition of `sep.join`: no items give `""`, one item is itself, and further items follow a separator each; used by `PlainText`, `Line` and `Diarize` |
| Text.Replace | jobs.py:84 | reference definition of `str.replace` with a non-empty pattern; its contract: the length is kept when pattern and replacement have the same length. `ReplaceFirstOccurrence`, `ReplaceAbsent` and `ReplaceChars` state what it does |
| Text.ReplaceFirstOccurrence | jobs.py:84 | at the first occurrence of the pattern, everything before it is kept, the occurrence becomes the replacement, and the rest of the string is replaced in turn; with `ReplaceAbsent` this fixes every occurrence, left to right and without overlap |
| Text.ReplaceChars | jobs.py:84 | `replace` introduces no character that is in neither the input nor the replacement |
| Text.Basename | jobs.py:84 | `basename` contains no `/` and is no longer than the path |
| Text.BasenameIsLastComponent | jobs.py:84 | the basename is a suffix of the path, preceded by a `/` unless it is the whole path |
| Text.ReplaceAbsent | jobs.py:84 | `replace` is the identity when the pattern does not occur |
| Text.ReplaceMp3Suffix | jobs.py:84 | a name ending in `.mp3`, with no other `.mp3` in it, becomes the same stem ending in `.txt` |
| Text.JoinPath | jobs.py:82-85 | reference definition of two-argument POSIX `os.path.join`: an absolute name replaces the directory, and otherwise a `/` is inserted unless the directory is empty or already ends in one; `TranscriptPathShape` states the case used |
| Text.BasenameOfLastComponent | jobs.py:84 | the basename of `dir + name` is `name` when `name` has no `/` and `dir` is empty or ends in `/` |
| Jobs.NewJob | jobs.py:57-60 | reference definition of the row the INSERT writes; `NewJobIsWellFormed` and `JobManager.CreateJob` state its properties |
| Jobs.NewJobIsWellFormed | jobs.py:54-62 | the inserted row is `pending`, with no summary, transcript path or error, so it satisfies the record invariant |
| Jobs.RecoverJob | jobs.py:48-51 | reference definition of the recovery UPDATE on one row; `RecoverAll` states its effect |
| Jobs.RecoverAll | jobs.py:46-52 | recovery keeps the same ids; it sets exactly the `pending`, `transcribing`, `summarizing` and `emailing` rows (jobs.py:11) to `error` with "interrupted by restart", changes no other field, and leaves every other row alone |
| Jobs.RecoverAllIdempotent | jobs.py:46-52 | recovering twice gives the same table as recovering once |
| Jobs.RecoverAllSettles | jobs.py:46-52 | after recovery every row is `done` or `error`; each changed row followed a state-machine edge; keys and the record invariant are preserved |
| Jobs.ResetForRetry | jobs.py:126-129 | reference definition of the retry UPDATE on one row; `ResetForRetryFollowsEdge` and `JobManager.RetryJob` state its properties |
| Jobs.ResetForRetryFollowsEdge | jobs.py:126-129 | a retried row goes `error` → `pending` along an edge, satisfies the record invariant, and keeps its id, label, audio path and creation time |
| Jobs.TranscriptPath | jobs.py:82-85 | reference definition of the transcript path; `TranscriptPathOfMp3` and `TranscriptPathShape` state its properties |
| Jobs.TranscriptPathOfMp3 | jobs.py:82-85 | the transcript of `<prefix>/<stem>.mp3` is `<transcript_dir>/<stem>.txt` |
| Jobs.TranscriptPathShape | jobs.py:82-85 | the transcript file name has the audio basename's length and no `/`, and the path is `transcript_dir` followed by that name, with a `/` inserted unless `transcript_dir` is empty or already ends in `/` |
| Jobs.RunPipeline | jobs.py:79-117 | reference definition of one run of `process` (statuses written, calls made, how it ends); `ProcessSucceeds`, `ProcessStopsAtFirstFailure`, `ProcessMissingJob`, `ProcessFollowsStateMachine` and `JobManager.Process` state its properties |
| Jobs.RunStages | jobs.py:86-103 | reference definition of the stages once the transcript path is known; `StagesFollowStateMachine` and `JobManager.RunStages` state its properties |
| Jobs.Settle | jobs.py:104-117 | reference definition of the final UPDATE of a run; `SettleTouchesOnlyJob` states its properties |
| Jobs.WithStatus | jobs.py:74-77 | reference definition of the `_set_status` UPDATE; `StatusWriteIsSuperseded` and `JobManager.SetStatus` state its properties |
| Jobs.LabelOf | jobs.py:93-95 | reference definition of the label SELECT: the row's label, or `None` when there is no row; `ProcessMissingJob` and `JobManager.Process` use it |
| Jobs.StatusWriteIsSuperseded | jobs.py:74-77 | an intermediate status write is overwritten by the run's final UPDATE and does not change the label lookup |
| Jobs.ProcessSucceeds | jobs.py:86-109 | with every stage succeeding: the statuses are `transcribing`, `summarizing`, `emailing` and then `done`; transcribe, summarize and send_notes are each called once with the previous stage's output and the computed path; the row ends `done` with that summary and path, and nothing else changes |
| Jobs.ProcessStopsAtFirstFailure | jobs.py:81-117 | a `None` audio path raises before any call; a failing stage is the last call made; the row ends `error` with the failure's message, and its summary and transcript path are kept |
| Jobs.ProcessMissingJob | jobs.py:93-95 | for an id with no row the run ends in the exception branch, and the table is unchanged |
| Jobs.SettleTouchesOnlyJob | jobs.py:104-117 | the final UPDATE changes only the job's own row, and there only status, error and results |
| Jobs.ProcessKeepsWellFormed | jobs.py:104-117 | a run on a well-formed row in any status but `error` leaves the row well-formed |
| Jobs.ProcessOnFailedRowKeepsError | jobs.py:104-109 | a successful run on a row in `error` ends `done` with its old error message still set, so the row is no longer well-formed |
| Jobs.StagesFollowStateMachine | jobs.py:86-117 | the statuses of a run with an audio path form a path of state-machine edges from `pending` |
| Jobs.ProcessFollowsStateMachine | jobs.py:79-117 | a run started on a `pending` row that satisfies the record invariant follows the state machine's edges and leaves the row satisfying the invariant |
| Manager.InsertNewestFirst | jobs.py:68-72 | inserting into a newest-first listing keeps it newest first and adds exactly that job |
| Manager.JobManager.constructor | jobs.py:24-29 | opening the store yields the stored rows after recovery |
| Manager.JobManager.Recover | jobs.py:46-52 | the table becomes `RecoverAll` of the old table |
| Manager.JobManager.CreateJob | jobs.py:54-62 | a fresh id adds exactly one `pending` row with the given label and audio path and no summary, transcript path or error, which `GetJob` then returns; a reused id fails and changes nothing |
| Manager.JobManager.GetJob | jobs.py:64-66 | returns the row for a known id and `None` for an unknown one |
| Manager.JobManager.ListJobs | jobs.py:68-72 | returns every row exactly once (equal multisets), ordered by creation time descending, each as `GetJob` returns it |
| Manager.JobManager.SetStatus | jobs.py:74-77 | changes the status of that row only; an unknown id changes nothing |
| Manager.JobManager.Process | jobs.py:79-117 | the status writes, the calls and the final table are exactly those of `Jobs.RunPipeline` and `Jobs.Settle` for this job's label |
| Manager.JobManager.RunStages | jobs.py:86-117 | the stage sequence with its status writes matches `Jobs.RunStages` |
| Manager.JobManager.Conclude | jobs.py:104-117 | the final UPDATE: `done` with summary and path, or `error` with the message; an unknown id changes nothing |
| Manager.JobManager.RetryJob | jobs.py:119-131 | returns true exactly when the row exists and is `error`; then it resets that row to `pending` with error, summary and transcript path cleared; otherwise it changes nothing |
| Diarizer.Midpoint | diarizer.py:55 | reference definition of `(start + end) / 2`, for a segment and (inside the `min` key at diarizer.py:10) for a span |
| Diarizer.Covers | diarizer.py:7 | reference definition of the closed-interval test `start <= midpoint <= end` |
| Diarizer.Distance | diarizer.py:10 | reference definition of the `min` key: the distance from the span's own midpoint to the segment's midpoint |
| Diarizer.FirstCovering | diarizer.py:6-8 | finds the first span from a position on whose closed interval holds the midpoint, or reports that none does |
| Diarizer.NearestAmong | diarizer.py:10 | Python's `min` by midpoint distance: a span at the least distance, with every earlier span strictly farther |
| Diarizer.SpeakerIndex | diarizer.py:4-11 | the chosen span is the first covering the midpoint, or else (with none covering) the first nearest |
| Diarizer.FindSpeaker | diarizer.py:4-11 | `_find_speaker`, as a reference definition on `SpeakerIndex`; `FindSpeakerCovering`, `FindSpeakerNearest` and `FindSpeakerFromSpans` state its properties |
| Diarizer.FindSpeakerCovering | diarizer.py:6-8 | when a span covers the midpoint, the first such span's speaker is returned |
| Diarizer.FindSpeakerNearest | diarizer.py:9-10 | when no span covers the midpoint, the speaker of the first nearest span is returned |
| Diarizer.FindSpeakerFromSpans | diarizer.py:9-11 | with no spans the label is `Speaker_00`; otherwise it is some span's speaker |
| Diarizer.Attribute | diarizer.py:54-64 | reference definition of the per-segment step: the segment's stripped text with the speaker of its midpoint; `AttributeNamed`, `MergeTurns` and `DiarizedLines` state its properties |
| Diarizer.Extend | diarizer.py:58-64 | adding an utterance keeps the turns non-empty and free of adjacent same-speaker turns, and the last turn has the new speaker |
| Diarizer.Turns | diarizer.py:50-67 | the turns are non-empty runs, no two neighbours share a speaker, and there are none exactly when there are no segments |
| Diarizer.FlattenExtend | diarizer.py:58-64 | extending the turns by an utterance appends exactly that utterance to what they stand for |
| Diarizer.TurnsKeepEveryUtterance | diarizer.py:54-67 | grouping drops, reorders and relabels no segment: the turns stand for exactly the attributed segments |
| Diarizer.TurnsAreTheMaximalRuns | diarizer.py:54-67 | any grouping into non-empty turns with distinct neighbouring speakers that stands for the same segments is `Turns` |
| Diarizer.Line | diarizer.py:60 | reference definition of one output line, `"<speaker>: "` and the texts joined by spaces; `RenderNamedTurns` places it |
| Diarizer.Render | diarizer.py:59-67 | at most one line per turn |
| Diarizer.RenderAppend | diarizer.py:59-67 | a turn labelled `""` adds no line, and any other turn adds exactly its own line at the end |
| Diarizer.RenderNamedTurns | diarizer.py:59-66 | with non-empty speakers, line `i` is `"<speaker>: "` and the space-joined texts of turn `i` |
| Diarizer.AttributeNamed | diarizer.py:54-56 | spans with non-empty labels give every segment a non-empty speaker |
| Diarizer.TurnsNamed | diarizer.py:58-64 | grouping segments with non-empty speakers gives turns with non-empty speakers |
| Diarizer.DiarizedLines | diarizer.py:50-67 | with non-empty span labels, the output has one line per maximal run, in order; every segment's text is in exactly one line; neighbouring lines have different speakers |
| Diarizer.MergeTurns | diarizer.py:50-67 | the loop's lines are exactly the rendering of `Turns` of the attributed segments |
| Diarizer.PlainText | diarizer.py:27 | reference definition of the fallback transcript, the stripped segment texts joined by single spaces; `Diarize` returns it whenever it does not diarize |
| Diarizer.EffectiveToken | diarizer.py:29 | the token is empty exactly when neither the argument nor the environment gives a non-empty one, and the argument wins when it is non-empty |
| Diarizer.Speakers | diarizer.py:47 | reference definition of the set of distinct span labels; `Diarize` diarizes only when it has at least two members |
| Diarizer.Diarize | diarizer.py:14-72 | diarized exactly when the effective token is non-empty, the pipeline succeeds and there are at least two distinct speakers. When not diarized, the result is the stripped texts joined by spaces. When diarized, it is the merged lines joined by newlines; an empty segment list gives `""` |

## Left out

- Concurrency: `threading.Lock`, `process_async` and its daemon thread. Every operation is modelled as a sequential method.
- SQLite: the connection, the SQL text and commits. The table is a `map` from id to record, and `ORDER BY created_at DESC` becomes a sort inside `ListJobs`. Rows with equal creation times may come in any order, because SQLite leaves that order unspecified.
- `uuid.uuid4()[:8]` and `datetime.now().isoformat()`. The id and the creation time are parameters of `CreateJob`, and a truncated id that collides is the INSERT's IntegrityError path, modelled as a `Failure` that changes nothing.
- `createdAt` stands for the naive local wall-clock reading `datetime.now()` takes, numbered so that it orders as its stored ISO-8601 text does; `ListJobs` sorts by that reading, as `ORDER BY created_at DESC` sorts by the text. It is not the order of creation: after a daylight-saving fall-back or a clock set back, a later job has a smaller reading and is listed after older ones. Clock steps are not modelled.
- Manager.JobManager.CreateJob: the source lets the IntegrityError propagate; the model returns it as a `Failure` value.
- `transcribe`, `summarize` and `send_notes` are foreign calls. Each is an outcome parameter: a value, or a failure message. The model records which calls were made and with which arguments, but not the Whisper, model, Gmail or address settings passed alongside.
- Exception messages are opaque strings: `str(e)` of a stage's exception is the failure message the outcome carries. Python's own messages for a `None` audio path and for a missing row are fixed constants.
- Status text outside the enumeration cannot be represented. The model has no `diarizing` status and no call to `diarize` inside `process`. The code has neither, although tests/test_jobs.py expects both.
- The record invariant (error set exactly in `error`; results set in `done`; none in flight) is kept by `process` on every row not in `error` (`ProcessKeepsWellFormed`). The code lets `process` run on a row in `error`. A successful run then leaves it `done` with its old error message (`ProcessOnFailedRowKeepsError`). Only the edge-path half of `ProcessFollowsStateMachine` needs the run to start on a `pending` row.
- The pyannote pipeline (`Pipeline.from_pretrained`, inference and `itertracks`) is an input: its spans, or `None` when loading or running it raises. Reading `HF_TOKEN` from the environment is also an input.
- Timestamps are Dafny `real`s. Floating-point rounding in midpoints and distances is not modelled.
- Diarizer.DiarizedLines: "neighbouring lines have different speakers" is proved for non-empty speaker labels only. A run labelled with the empty string is dropped, so the lines on either side of it may share a speaker.
- recorder.py, emailer.py, transcriber.py, summarizer.py and app.py are not part of this model. They are I/O and library plumbing.
