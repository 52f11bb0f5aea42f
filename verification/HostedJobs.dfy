/** The hosted job table: its conditional UPDATE statements, and one worker's pass over it. */
module HostedJobs {
  import opened Wrappers
  import opened Seqs
  import Scrub

  datatype Status = Queued | Running | Succeeded | Failed | Canceled

  type JobId = string
  type WorkerId = nat

  /** The columns the queue's statements read or write. `worker` is `None` for the empty worker id. */
  datatype Job = Job(
    status: Status, createdAt: real, startedAt: Option<real>, finishedAt: Option<real>,
    worker: Option<WorkerId>, cancelRequested: bool,
    errorTitle: string, errorMessage: string, suiteRunId: string)

  type Table = map<JobId, Job>

  predicate Terminal(s: Status) {
    s in {Succeeded, Failed, Canceled}
  }

  /** The row `create_job` inserts. */
  function NewJob(createdAt: real): Job {
    Job(Queued, createdAt, None, None, None, false, "", "", "")
  }

  // ---- the statements -----------------------------------------------------------------------

  /** A row that `ORDER BY created_at LIMIT 1` may pick: equal times leave the choice open. */
  predicate Oldest(db: Table, id: JobId) {
    && id in db && db[id].status == Queued
    && forall k :: k in db && db[k].status == Queued ==> db[id].createdAt <= db[k].createdAt
  }

  function ClaimNext(db: Table, id: JobId, started: real, worker: WorkerId): Table
    requires Oldest(db, id)
  {
    db[id := db[id].(status := Running, startedAt := Some(started), worker := Some(worker))]
  }

  function CancelQueued(db: Table, id: JobId, finished: real): Table {
    if id in db && db[id].status == Queued
    then db[id := db[id].(status := Canceled, finishedAt := Some(finished), errorTitle := "", errorMessage := "")]
    else db
  }

  function MarkCancelRequested(db: Table, id: JobId): Table {
    if id in db && db[id].status == Running then db[id := db[id].(cancelRequested := true)] else db
  }

  datatype Verdict = Verdict(status: Status, title: string, message: string, suiteRunId: string)

  function FinishJob(db: Table, id: JobId, v: Verdict, finished: real): Table {
    if id in db && db[id].status == Running
    then db[id := db[id].(status := v.status, errorTitle := v.title, errorMessage := v.message,
                          suiteRunId := v.suiteRunId, finishedAt := Some(finished))]
    else db
  }

  predicate Stale(j: Job, before: real) {
    j.status == Running && j.startedAt.Some? && j.startedAt.value < before
  }

  function RequeueStale(db: Table, before: real): Table {
    map id | id in db ::
      if Stale(db[id], before) && !db[id].cancelRequested
      then db[id].(status := Queued, worker := None, startedAt := None)
      else db[id]
  }

  function CancelStale(db: Table, before: real, finished: real): Table {
    map id | id in db ::
      if Stale(db[id], before) && db[id].cancelRequested
      then db[id].(status := Canceled, finishedAt := Some(finished), worker := None)
      else db[id]
  }

  // ---- what one run writes back ---------------------------------------------------------------

  /** How `_execute` ends: an exception before settling, or a finished suite with its upload. */
  datatype Report =
    | Crashed(title: string, message: string)
    | Ran(exitCode: int, suiteRunId: string, text: string, uploadError: Option<string>)

  const SCRUB_LIMIT: nat := 2000

  function Scrubbed(text: string, secrets: seq<string>): string {
    Scrub.Scrubbed(text, secrets, SCRUB_LIMIT)
  }

  /** `_settle` and `_mark_failed`: the row content for a report, given the cancel flag read. */
  function Settle(report: Report, canceled: bool, secrets: seq<string>): Verdict {
    match report
    case Crashed(title, message) => Verdict(Failed, title, Scrubbed(message, secrets), "")
    case Ran(exitCode, suite, text, uploadError) =>
      var upload := if suite != "" && uploadError.Some? then Scrubbed(uploadError.value, secrets) else "";
      if canceled then
        Verdict(Canceled, if upload != "" then "hosted_upload_failed" else "", upload, suite)
      else if exitCode in {0, 1} && suite != "" && upload == "" then
        Verdict(Succeeded, "", "", suite)
      else if suite == "" then
        Verdict(Failed, "hosted_suite_missing", Scrubbed(text, secrets), suite)
      else if upload != "" && exitCode in {0, 1} then
        Verdict(Failed, "hosted_upload_failed", upload, suite)
      else
        var message := Scrubbed(text, secrets);
        Verdict(Failed, "hosted_run_failed", if upload != "" then Scrubbed(message + "\n" + upload, secrets) else message, suite)
  }

  /** No run, however it ends, writes a clean secret it has seen into the job row, and the message is
      capped; it is canceled exactly when it ran and the flag was read, and succeeds exactly when it was not
      canceled, the suite ran, and no upload error is left. */
  lemma SettleHidesSecrets(report: Report, canceled: bool, secrets: seq<string>, s: string)
    requires s in secrets && Scrub.Clean(s)
    ensures var v := Settle(report, canceled, secrets);
            && Terminal(v.status) && !Contains(v.message, s) && |v.message| <= 2000
            && (v.status == Canceled <==> report.Ran? && canceled)
            && (v.status == Succeeded <==>
                  report.Ran? && !canceled && report.exitCode in {0, 1} && report.suiteRunId != ""
                  && (report.uploadError.None? || Scrubbed(report.uploadError.value, secrets) == ""))
  {
    assert !Contains("", s);
    forall text: string ensures !Contains(Scrubbed(text, secrets), s) {
      Scrub.ReplacedAllHasNo(text, secrets, s);
      Scrub.TruncatedHasNo(Scrub.ReplacedAll(text, secrets), SCRUB_LIMIT, s);
    }
  }

  // ---- one worker's pass ------------------------------------------------------------------------

  /** The store with nobody else at work; every method is one committed statement unless it says so. */
  class HostedStore {
    var jobs: Table

    constructor ()
      ensures jobs == map[]
    {
      jobs := map[];
    }

    /** `create_job`: a queued row that nobody has touched. */
    method CreateJob(id: JobId, at: real)
      requires id !in jobs
      modifies this
      ensures jobs.Keys == old(jobs).Keys + {id} && forall k :: k in old(jobs) ==> jobs[k] == old(jobs)[k]
      ensures jobs[id].status == Queued && jobs[id].createdAt == at && !jobs[id].cancelRequested
      ensures jobs[id].startedAt == None && jobs[id].finishedAt == None && jobs[id].worker == None
      ensures jobs[id].errorTitle == "" && jobs[id].errorMessage == "" && jobs[id].suiteRunId == ""
    {
      jobs := jobs[id := NewJob(at)];
    }

    /** `claim_next`: the UPDATE, then the SELECT by worker id. */
    method ClaimNextJob(worker: WorkerId, now: real) returns (id: Option<JobId>)
      requires forall k :: k in jobs ==> jobs[k].worker != Some(worker)
      modifies this
      ensures id.None? <==> forall k :: k in old(jobs) ==> old(jobs)[k].status != Queued
      ensures id.None? ==> jobs == old(jobs)
      ensures id.Some? ==> Oldest(old(jobs), id.value) && jobs == ClaimNext(old(jobs), id.value, now, worker)
    {
      var queued := map k | k in jobs && jobs[k].status == Queued :: jobs[k];
      assert forall k :: k in jobs && jobs[k].status == Queued ==> k in queued && queued[k] == jobs[k];
      if queued == map[] { return None; }
      var pick := PickOldest(queued);
      assert Oldest(jobs, pick);
      jobs := ClaimNext(jobs, pick, now, worker);
      assert jobs[pick].worker == Some(worker) && jobs[pick].status == Running;
      var found :| found in jobs && jobs[found].worker == Some(worker) && jobs[found].status == Running;
      return Some(found);
    }

    /** `cancel_job` with nobody else at work: a queued job is over, a running one is asked to stop, one that is
        over stays as it is. */
    method CancelJob(id: JobId, now: real) returns (found: bool)
      modifies this
      ensures found == (id in old(jobs))
      ensures jobs.Keys == old(jobs).Keys && forall k :: k in jobs && k != id ==> jobs[k] == old(jobs)[k]
      ensures found ==> var (was, row) := (old(jobs)[id], jobs[id]);
        && (was.status == Queued ==>
              row.status == Canceled && row.finishedAt == Some(now) && row.errorTitle == "" && row.errorMessage == ""
              && row.createdAt == was.createdAt && row.worker == was.worker && row.cancelRequested == was.cancelRequested)
        && (was.status == Running ==> row == was.(cancelRequested := true))
        && (Terminal(was.status) ==> row == was)
    {
      if id !in jobs { return false; }
      var seen := jobs[id].status;
      if seen == Queued {
        // Nothing comes between, so the statement hits its row and the second one is not needed.
        jobs := CancelQueued(jobs, id, now);
      } else if seen == Running {
        jobs := MarkCancelRequested(jobs, id);
      }
      return true;
    }

    /** `_reclaim_stale`: a running job that started too long ago is canceled if somebody asked for that, and goes
        back to the queue without a worker if nobody did; every other row stays. */
    method ReclaimStale(before: real, now: real)
      modifies this
      ensures jobs.Keys == old(jobs).Keys
      ensures forall k :: k in jobs ==> var (was, row) := (old(jobs)[k], jobs[k]);
        if was.status == Running && was.startedAt.Some? && was.startedAt.value < before then
          && row.worker == None && row.createdAt == was.createdAt && row.cancelRequested == was.cancelRequested
          && (was.cancelRequested ==> row.status == Canceled && row.finishedAt == Some(now) && row.startedAt == was.startedAt)
          && (!was.cancelRequested ==> row.status == Queued && row.startedAt == None && row.finishedAt == was.finishedAt)
        else row == was
    {
      jobs := CancelStale(jobs, before, now);
      jobs := RequeueStale(jobs, before);
    }

    /** `drain_once` with stale reclaim off: claim the oldest job, run it, write the verdict. The run is
        `report`; `flagged` says whether a cancel request reached the row while it ran. */
    method DrainOnce(worker: WorkerId, report: Report, flagged: bool, secrets: seq<string>, claimAt: real, finishAt: real)
      returns (claimed: Option<JobId>)
      requires forall k :: k in jobs ==> jobs[k].worker != Some(worker)
      modifies this
      ensures claimed.None? <==> forall k :: k in old(jobs) ==> old(jobs)[k].status != Queued
      ensures claimed.None? ==> jobs == old(jobs)
      // Exactly one job moves: an oldest queued one, from queued to its terminal row.
      ensures claimed.Some? ==>
        && Oldest(old(jobs), claimed.value)
        && var was := old(jobs)[claimed.value]; var v := Settle(report, was.cancelRequested || flagged, secrets);
           jobs == old(jobs)[claimed.value := was.(status := v.status, startedAt := Some(claimAt), worker := Some(worker),
             cancelRequested := was.cancelRequested || flagged, errorTitle := v.title, errorMessage := v.message,
             suiteRunId := v.suiteRunId, finishedAt := Some(finishAt))]
      // What the row then says of the run, and which text its message is the scrubbing of.
      ensures claimed.Some? && report.Crashed? ==>
        var row := jobs[claimed.value];
        row.status == Failed && row.suiteRunId == "" && row.errorTitle == report.title && row.errorMessage == Scrubbed(report.message, secrets)
      ensures claimed.Some? && report.Ran? ==>
        var (row, ok) := (jobs[claimed.value], report.exitCode == 0 || report.exitCode == 1);
        var canceled := old(jobs)[claimed.value].cancelRequested || flagged;
        var upload := if report.suiteRunId != "" && report.uploadError.Some? then Scrubbed(report.uploadError.value, secrets) else "";
        && row.suiteRunId == report.suiteRunId
        && (row.status == Canceled <==> canceled)
        && (row.status == Succeeded <==> !canceled && ok && report.suiteRunId != "" && upload == "")
        && (row.status == Failed <==> !canceled && !(ok && report.suiteRunId != "" && upload == ""))
        && (row.status == Succeeded ==> row.errorTitle == "" && row.errorMessage == "")
        && (canceled ==> row.errorMessage == upload && (row.errorTitle == if upload == "" then "" else "hosted_upload_failed"))
        && (row.status == Failed && report.suiteRunId == "" ==>
              row.errorTitle == "hosted_suite_missing" && row.errorMessage == Scrubbed(report.text, secrets))
        && (row.status == Failed && report.suiteRunId != "" && ok ==> row.errorTitle == "hosted_upload_failed" && row.errorMessage == upload)
        && (row.status == Failed && report.suiteRunId != "" && !ok ==> row.errorTitle == "hosted_run_failed")
        && (row.status == Failed && report.suiteRunId != "" && !ok && upload == "" ==> row.errorMessage == Scrubbed(report.text, secrets))
        && (row.status == Failed && report.suiteRunId != "" && !ok && upload != "" ==>
              row.errorMessage == Scrubbed(Scrubbed(report.text, secrets) + "\n" + upload, secrets))
    {
      claimed := ClaimNextJob(worker, claimAt);
      if claimed.None? { return; }
      if flagged {
        jobs := MarkCancelRequested(jobs, claimed.value);
      }
      var canceled := jobs[claimed.value].cancelRequested;
      jobs := FinishJob(jobs, claimed.value, Settle(report, canceled, secrets), finishAt);
    }
  }

  /** A minimum by creation time. */
  method PickOldest(queued: Table) returns (pick: JobId)
    requires queued != map[]
    ensures pick in queued && forall k :: k in queued ==> queued[pick].createdAt <= queued[k].createdAt
  {
    var todo := queued.Keys;
    pick :| pick in todo;
    while todo != {}
      invariant todo <= queued.Keys && pick in queued
      invariant forall k :: k in queued && k !in todo ==> queued[pick].createdAt <= queued[k].createdAt
      decreases |todo|
    {
      var k :| k in todo;
      todo := todo - {k};
      if queued[k].createdAt < queued[pick].createdAt { pick := k; }
    }
  }
}
