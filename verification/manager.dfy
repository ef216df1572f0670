/** The job tracker: a table of job rows that the manager updates in place. */
module Manager {
  import opened Wrappers
  import opened Jobs

  /** Jobs listed newest first. */
  predicate NewestFirst(jobs: seq<Job>) {
    forall i, j :: 0 <= i < j < |jobs| ==> jobs[i].createdAt >= jobs[j].createdAt
  }

  /** `j` put into a newest-first listing, ahead of the jobs no newer than it. */
  function InsertNewestFirst(jobs: seq<Job>, j: Job): (r: seq<Job>)
    requires NewestFirst(jobs)
    ensures NewestFirst(r)
    ensures multiset(r) == multiset(jobs) + multiset{j}
    ensures |r| == |jobs| + 1 && (r[0] == j || (jobs != [] && r[0] == jobs[0]))
  {
    if jobs == [] || jobs[0].createdAt <= j.createdAt then [j] + jobs
    else
      assert jobs == [jobs[0]] + jobs[1..];
      [jobs[0]] + InsertNewestFirst(jobs[1..], j)
  }

  class JobManager {
    /** The `jobs` table, keyed by id. */
    var table: map<string, Job>

    ghost predicate Valid()
      reads this
    {
      WellKeyed(table)
    }

    /** Opening the store: the rows already stored, then startup recovery. */
    constructor (stored: Table)
      requires WellKeyed(stored)
      ensures Valid()
      ensures table == RecoverAll(stored)
    {
      table := RecoverAll(stored);
    }

    /** Every row still in flight is marked as failed by the restart. */
    method Recover()
      requires Valid()
      modifies this
      ensures Valid()
      ensures table == RecoverAll(old(table))
    {
      table := RecoverAll(table);
    }

    /** Inserts a new pending row under `id`. The id and the timestamp are the
        caller's; an id already in the table makes the INSERT fail. */
    method CreateJob(id: string, meetingLabel: string, audioPath: Option<string>, createdAt: int)
      returns (r: Result<string, string>)
      requires Valid()
      modifies this
      ensures Valid()
      ensures id in old(table) ==> r == Failure(DuplicateIdMessage) && table == old(table)
      ensures id !in old(table) ==>
        && r == Success(id)
        && table == old(table)[id := NewJob(id, meetingLabel, audioPath, createdAt)]
        && GetJob(id) == Some(Job(id, meetingLabel, Pending, None, None, audioPath, None, createdAt))
    {
      if id in table {
        return Failure(DuplicateIdMessage);
      }
      table := table[id := NewJob(id, meetingLabel, audioPath, createdAt)];
      r := Success(id);
    }

    /** A copy of the row with this id, or `None` when there is none. */
    function GetJob(id: string): (r: Option<Job>)
      reads this
      ensures r.None? <==> id !in table
      ensures r.Some? ==> r.value == table[id]
    {
      if id in table then Some(table[id]) else None
    }

    /** Every row exactly once, newest first. */
    method ListJobs() returns (jobs: seq<Job>)
      requires Valid()
      ensures NewestFirst(jobs)
      ensures multiset(jobs) == multiset(table.Values)
      ensures forall id :: id in table ==> table[id] in jobs
      ensures forall i :: 0 <= i < |jobs| ==> GetJob(jobs[i].id) == Some(jobs[i])
    {
      jobs := [];
      var rest := table.Values;
      while rest != {}
        invariant rest <= table.Values
        invariant NewestFirst(jobs)
        invariant multiset(jobs) + multiset(rest) == multiset(table.Values)
        decreases |rest|
      {
        var j :| j in rest;
        jobs := InsertNewestFirst(jobs, j);
        assert multiset(rest) == multiset(rest - {j}) + multiset{j};
        rest := rest - {j};
      }
      forall id | id in table
        ensures table[id] in jobs
      {
        assert table[id] in multiset(table.Values);
      }
      forall i | 0 <= i < |jobs|
        ensures GetJob(jobs[i].id) == Some(jobs[i])
      {
        assert jobs[i] in multiset(jobs);
        assert jobs[i] in multiset(table.Values);
        assert jobs[i] in table.Values;
        var k :| k in table && table[k] == jobs[i];
      }
    }

    /** Sets the status of the row with this id; no row, no change. */
    method SetStatus(id: string, status: JobStatus)
      requires Valid()
      modifies this
      ensures Valid()
      ensures table == WithStatus(old(table), id, status)
      ensures id in old(table) ==> table[id] == old(table)[id].(status := status)
    {
      if id in table {
        table := table[id := table[id].(status := status)];
      }
    }

    /** Runs the pipeline for one job: status writes before each stage, then
        the final UPDATE of the success path or of the exception handler.
        Returns the statuses written on the way and the calls made. */
    method Process(id: string, audioPath: Option<string>, transcriptDir: string, outcomes: StageOutcomes)
      returns (writes: seq<JobStatus>, calls: seq<StageCall>)
      requires Valid()
      modifies this
      ensures Valid()
      ensures var a := RunPipeline(LabelOf(old(table), id), audioPath, transcriptDir, outcomes);
        && writes == a.writes
        && calls == a.calls
        && table == Settle(old(table), id, a.ending)
    {
      if audioPath.None? {
        writes, calls := [], [];
        Conclude(id, Failed(NoAudioPathMessage));
        return;
      }
      var out := TranscriptPath(transcriptDir, audioPath.value);
      writes, calls := RunStages(id, audioPath.value, out, outcomes);
    }

    /** The body of `Process` once the transcript path `out` is computed: each
        stage is preceded by its status write and stops the run when it fails. */
    method RunStages(id: string, audio: string, out: string, outcomes: StageOutcomes)
      returns (writes: seq<JobStatus>, calls: seq<StageCall>)
      requires Valid()
      modifies this
      ensures Valid()
      ensures var a := Jobs.RunStages(LabelOf(old(table), id), audio, out, outcomes);
        && writes == a.writes
        && calls == a.calls
        && table == Settle(old(table), id, a.ending)
    {
      ghost var t0 := table;
      ghost var a := Jobs.RunStages(LabelOf(t0, id), audio, out, outcomes);
      SetStatus(id, Transcribing);
      StatusWriteIsSuperseded(t0, id, Transcribing, a.ending);
      ghost var t1 := table;
      writes, calls := [Transcribing], [Transcribe(audio, out)];
      if outcomes.transcribed.Failure? {
        Conclude(id, Failed(outcomes.transcribed.error));
        return;
      }
      var text := outcomes.transcribed.value;
      SetStatus(id, Summarizing);
      StatusWriteIsSuperseded(t1, id, Summarizing, a.ending);
      ghost var t2 := table;
      writes, calls := writes + [Summarizing], calls + [Summarize(text)];
      if outcomes.summarized.Failure? {
        Conclude(id, Failed(outcomes.summarized.error));
        return;
      }
      var summary := outcomes.summarized.value;
      SetStatus(id, Emailing);
      StatusWriteIsSuperseded(t2, id, Emailing, a.ending);
      writes := writes + [Emailing];
      var row := GetJob(id);
      if row.None? {
        Conclude(id, Failed(NoRowMessage));
        return;
      }
      calls := calls + [SendNotes(row.value.meetingLabel, summary, out)];
      if outcomes.sent.Fail? {
        Conclude(id, Failed(outcomes.sent.error));
        return;
      }
      Conclude(id, Finished(summary, out));
    }

    /** The last UPDATE of a run: `Done` with the results, or `Error` with the
        failure's message. An id with no row matches nothing. */
    method Conclude(id: string, e: Ending)
      requires Valid()
      modifies this
      ensures Valid()
      ensures table == Settle(old(table), id, e)
    {
      if id in table {
        match e
        case Finished(summary, path) =>
          table := table[id := table[id].(status := Done, summary := Some(summary), transcriptPath := Some(path))];
        case Failed(message) =>
          table := table[id := table[id].(status := Error, error := Some(message))];
      }
    }

    /** Puts a failed job back to `Pending` with its results and error cleared;
        refuses, changing nothing, when the id is unknown or the job has not failed. */
    method RetryJob(id: string) returns (ok: bool)
      requires Valid()
      modifies this
      ensures Valid()
      ensures ok <==> id in old(table) && old(table)[id].status == Error
      ensures ok ==> table == old(table)[id := ResetForRetry(old(table)[id])]
      ensures !ok ==> table == old(table)
    {
      if id !in table || table[id].status != Error {
        return false;
      }
      table := table[id := ResetForRetry(table[id])];
      ok := true;
    }
  }
}
