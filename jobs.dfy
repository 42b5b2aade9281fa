/** `Job` and `JobManager`: the in-memory job list the application works on,
    loaded from and written back to the store's `jobs` table. */
module Jobs {
  import opened Wrappers
  import opened Tables
  import opened Store

  /** Job ids are never 0: a new `Job` draws its id from the clock in
      milliseconds, and the store's `AUTOINCREMENT` starts at 1. */
  type JobId = x: nat | x > 0 witness 1

  datatype Job = Job(
    id: JobId, name: string, jobType: string, sourcePath: string, destPath: string,
    active: bool, scheduleType: string, scheduleValue: string,
    preserveDeleted: bool, createSnapshots: bool, snapshotInterval: int,
    excludePatterns: string, enableNotifications: bool, compressBackup: bool,
    lastRun: Option<string>, nextRun: Option<string>, running: bool,
    createdAt: Option<int>, updatedAt: Option<int>)

  /** `Job()` with every argument defaulted and the id drawn from the clock. */
  function NewJob(clockMillis: JobId): (j: Job)
    ensures j.id == clockMillis && !j.running && j.lastRun.None? && j.nextRun.None?
    ensures j.scheduleType == "Daily" && j.scheduleValue == "14:00" && j.jobType == "Simple"
  {
    Job(clockMillis, "", "Simple", "", "", true, "Daily", "14:00", false, false, 24,
        "", true, false, None, None, false, None, None)
  }

  /** The 13 columns `save_jobs`, `add_job` and `update_job` hand to the store. */
  function Columns(j: Job): (f: JobFields)
    ensures f.name == j.name && f.jobType == j.jobType && f.running == j.running
    ensures f.lastRun == j.lastRun && f.nextRun == j.nextRun
  {
    JobFields(j.name, j.jobType, j.sourcePath, j.destPath, j.active, j.scheduleType, j.scheduleValue,
              j.preserveDeleted, j.createSnapshots, j.snapshotInterval, j.lastRun, j.nextRun, j.running)
  }

  /** `Job(**row)` after `load_jobs` forces `running` to False; the three
      options the table has no column for take their defaults. */
  function FromRow(r: Row<JobData>): Job
    requires r.id > 0
  {
    var f := r.data.fields;
    Job(r.id, f.name, f.jobType, f.sourcePath, f.destPath, f.active, f.scheduleType, f.scheduleValue,
        f.preserveDeleted, f.createSnapshots, f.snapshotInterval, "", true, false,
        f.lastRun, f.nextRun, false, Some(r.data.createdAt), Some(r.data.updatedAt))
  }

  /** A job written and read back keeps its id and its 13 columns except
      `running`, which comes back False, while its exclusion patterns,
      notification switch and compression switch come back as the defaults
      `""`, True and False. */
  lemma SaveLoadRoundTrip(j: Job, createdAt: int, updatedAt: int)
    ensures var back := FromRow(Row(j.id, JobData(Columns(j), createdAt, updatedAt)));
      && back == j.(running := false, excludePatterns := "", enableNotifications := true,
                   compressBackup := false, createdAt := Some(createdAt), updatedAt := Some(updatedAt))
      && Columns(back) == Columns(j).(running := false)
  {
  }

  /** `load_jobs` over the rows of `get_jobs`, in id order. */
  function Loaded(rows: seq<Row<JobData>>): (js: seq<Job>)
    requires forall i :: 0 <= i < |rows| ==> rows[i].id > 0
    ensures |js| == |rows|
    ensures forall i :: 0 <= i < |rows| ==> js[i] == FromRow(rows[i])
  {
    if rows == [] then [] else [FromRow(rows[0])] + Loaded(rows[1..])
  }

  /** Every loaded job is idle and has the default options. */
  lemma LoadedIdle(rows: seq<Row<JobData>>)
    requires forall i :: 0 <= i < |rows| ==> rows[i].id > 0
    ensures forall j :: j in Loaded(rows) ==>
      !j.running && j.excludePatterns == "" && j.enableNotifications && !j.compressBackup
  {
  }

  // ---------------------------------------------------------------- list operations

  /** The first job with the id. */
  function Find(js: seq<Job>, id: nat): (r: Option<Job>)
    ensures r.Some? ==>
      exists k :: (0 <= k < |js| && js[k] == r.value && r.value.id == id && (forall i :: 0 <= i < k ==> js[i].id != id))
    ensures r.None? <==> forall i :: 0 <= i < |js| ==> js[i].id != id
  {
    if js == [] then None
    else if js[0].id == id then
      assert js[0] == js[0];
      Some(js[0])
    else
      var r := Find(js[1..], id);
      assert forall i :: 1 <= i < |js| ==> js[i] == js[1..][i - 1];
      if r.Some? then
        var k :| (0 <= k < |js[1..]| && js[1..][k] == r.value && r.value.id == id &&
                  (forall i :: 0 <= i < k ==> js[1..][i].id != id));
        assert js[k + 1] == r.value;
        r
      else r
  }

  /** The jobs with other ids, in their order. */
  function Without(js: seq<Job>, id: nat): (r: seq<Job>)
    ensures forall j :: j in r <==> j in js && j.id != id
    ensures |r| <= |js|
  {
    if js == [] then []
    else (if js[0].id != id then [js[0]] else []) + Without(js[1..], id)
  }

  /** Removal works piece by piece, so the jobs kept stay in order. */
  lemma {:induction false} WithoutAppend(a: seq<Job>, b: seq<Job>, id: nat)
    ensures Without(a + b, id) == Without(a, id) + Without(b, id)
  {
    if a == [] {
      assert a + b == b;
    } else {
      assert (a + b)[0] == a[0] && (a + b)[1..] == a[1..] + b;
      WithoutAppend(a[1..], b, id);
    }
  }

  /** The index of the first job with the id, `|js|` when there is none. */
  function FirstIndex(js: seq<Job>, id: nat): (k: nat)
    ensures k <= |js| && forall i :: 0 <= i < k ==> js[i].id != id
    ensures k < |js| ==> js[k].id == id
  {
    if js == [] then 0 else if js[0].id == id then 0 else 1 + FirstIndex(js[1..], id)
  }

  /** `update_job`'s loop over the local copy: the first job with the id is
      replaced, every other position is unchanged. */
  method ReplaceFirst(js: seq<Job>, id: nat, updated: Job) returns (r: seq<Job>)
    ensures |r| == |js|
    ensures var k := FirstIndex(js, id);
      forall i :: 0 <= i < |js| ==> r[i] == if i == k then updated else js[i]
  {
    r := js;
    var i := 0;
    while i < |r|
      invariant 0 <= i <= |r| == |js| && r == js
      invariant forall m :: 0 <= m < i ==> js[m].id != id
    {
      if r[i].id == id {
        r := r[i := updated];
        return;
      }
      i := i + 1;
    }
  }

  // ---------------------------------------------------------------- save_jobs

  /** The `jobs` rows after `save_jobs` writes the list in order: each job is
      written with `update_job` (its id is never 0, so the `add_job` branch never
      runs); the first update the store refuses raises and ends the loop. */
  function SavedRows(rows: seq<Row<JobData>>, js: seq<Job>, now: int): seq<Row<JobData>>
    decreases |js|
  {
    if js == [] then rows
    else match FindId(rows, js[0].id)
      case None => SavedRows(rows, js[1..], now)
      case Some(row) =>
        if !JobTypeOk(js[0].jobType) then rows
        else SavedRows(ReplaceId(rows, js[0].id, JobData(Columns(js[0]), row.data.createdAt, now)), js[1..], now)
  }

  /** The ids in the table stay those it had: `save_jobs` never inserts. */
  lemma {:induction false} SavedRowsIds(rows: seq<Row<JobData>>, js: seq<Job>, now: int)
    ensures |SavedRows(rows, js, now)| == |rows|
    ensures forall i :: 0 <= i < |rows| ==> SavedRows(rows, js, now)[i].id == rows[i].id
    decreases |js|
  {
    if js != [] {
      match FindId(rows, js[0].id)
      case None => SavedRowsIds(rows, js[1..], now);
      case Some(row) =>
        if JobTypeOk(js[0].jobType) {
          SavedRowsIds(ReplaceId(rows, js[0].id, JobData(Columns(js[0]), row.data.createdAt, now)), js[1..], now);
        }
    }
  }

  /** With every job type accepted and no id listed twice, each job that has a
      row ends up with its 13 columns stored there. */
  lemma {:induction false} SavedRowsStoreJobs(rows: seq<Row<JobData>>, counter: nat, js: seq<Job>, now: int)
    requires Ascending(rows, counter)
    requires forall j :: j in js ==> JobTypeOk(j.jobType)
    requires forall a, b :: 0 <= a < b < |js| ==> js[a].id != js[b].id
    ensures forall j :: j in js && FindId(rows, j.id).Some? ==>
      var saved := SavedRows(rows, js, now);
      FindId(saved, j.id).Some? && FindId(saved, j.id).value.data.fields == Columns(j)
    decreases |js|
  {
    if js != [] {
      var j0, tail := js[0], js[1..];
      TailIds(js);
      match FindId(rows, j0.id)
      case None =>
        SavedRowsStoreJobs(rows, counter, tail, now);
      case Some(row) =>
        var data := JobData(Columns(j0), row.data.createdAt, now);
        var next := ReplaceId(rows, j0.id, data);
        ReplaceIdAscending(rows, counter, j0.id, data);
        ReplaceIdFinds(rows, counter, j0.id, data);
        SavedRowsStoreJobs(next, counter, tail, now);
        var saved := SavedRows(next, tail, now);
        assert saved == SavedRows(rows, js, now);
        assert FindId(saved, j0.id).Some? && FindId(saved, j0.id).value.data.fields == Columns(j0) by {
          SavedRowsKeep(next, tail, now, j0.id);
          SavedRowsAscending(next, counter, tail, now);
          AscendingIdsUnique(saved, counter, FindId(saved, j0.id).value, Row(j0.id, data));
        }
    }
  }

  /** Rows of jobs not in the list are untouched. */
  lemma {:induction false} SavedRowsUntouched(rows: seq<Row<JobData>>, counter: nat, js: seq<Job>, now: int)
    requires Ascending(rows, counter)
    ensures forall r :: r in rows && (forall j :: j in js ==> j.id != r.id) ==> r in SavedRows(rows, js, now)
    decreases |js|
  {
    if js != [] {
      var j0, tail := js[0], js[1..];
      assert forall j :: j in tail ==> j in js;
      match FindId(rows, j0.id)
      case None =>
        SavedRowsUntouched(rows, counter, tail, now);
      case Some(row) =>
        if JobTypeOk(j0.jobType) {
          var data := JobData(Columns(j0), row.data.createdAt, now);
          ReplaceIdAscending(rows, counter, j0.id, data);
          ReplaceIdFinds(rows, counter, j0.id, data);
          SavedRowsUntouched(ReplaceId(rows, j0.id, data), counter, tail, now);
        }
    }
  }

  lemma {:induction false} SavedRowsAscending(rows: seq<Row<JobData>>, counter: nat, js: seq<Job>, now: int)
    requires Ascending(rows, counter)
    ensures Ascending(SavedRows(rows, js, now), counter)
    decreases |js|
  {
    if js != [] {
      match FindId(rows, js[0].id)
      case None =>
        SavedRowsAscending(rows, counter, js[1..], now);
      case Some(row) =>
        if JobTypeOk(js[0].jobType) {
          var data := JobData(Columns(js[0]), row.data.createdAt, now);
          ReplaceIdAscending(rows, counter, js[0].id, data);
          SavedRowsAscending(ReplaceId(rows, js[0].id, data), counter, js[1..], now);
        }
    }
  }

  /** In a list without repeated ids, the tail has none either and none equal
      to the head's. */
  lemma TailIds(js: seq<Job>)
    requires js != [] && forall a, b :: 0 <= a < b < |js| ==> js[a].id != js[b].id
    ensures forall a, b :: 0 <= a < b < |js[1..]| ==> js[1..][a].id != js[1..][b].id
    ensures forall j :: j in js[1..] ==> j.id != js[0].id && j in js
  {
    var tail := js[1..];
    forall a, b | 0 <= a < b < |tail|
      ensures tail[a].id != tail[b].id
    {
      assert tail[a] == js[a + 1] && tail[b] == js[b + 1];
    }
    forall j | j in tail
      ensures j.id != js[0].id && j in js
    {
      var k :| 0 <= k < |tail| && tail[k] == j;
      assert js[k + 1] == j;
    }
  }

  /** After replacing the row with id `id`, lookups of any id see the
      replacement or the old row. */
  lemma ReplaceIdFinds<R>(rows: seq<Row<R>>, counter: nat, id: nat, data: R)
    requires Ascending(rows, counter) && FindId(rows, id).Some?
    ensures FindId(ReplaceId(rows, id, data), id) == Some(Row(id, data))
    ensures forall other :: other != id ==> FindId(ReplaceId(rows, id, data), other).Some? == FindId(rows, other).Some?
    ensures forall x :: x in rows && x.id != id ==> x in ReplaceId(rows, id, data)
  {
    var after := ReplaceId(rows, id, data);
    ReplaceIdAscending(rows, counter, id, data);
    var k :| 0 <= k < |rows| && rows[k] == FindId(rows, id).value;
    assert after[k] == Row(id, data);
    forall other | other != id
      ensures FindId(after, other).Some? == FindId(rows, other).Some?
    {
      if FindId(rows, other).Some? {
        var m :| 0 <= m < |rows| && rows[m] == FindId(rows, other).value;
        assert after[m] == rows[m];
      }
      if FindId(after, other).Some? {
        var m :| 0 <= m < |after| && after[m] == FindId(after, other).value;
        assert after[m] == rows[m];
      }
    }
    forall x | x in rows && x.id != id
      ensures x in after
    {
      var m :| 0 <= m < |rows| && rows[m] == x;
      assert after[m] == x;
    }
    AscendingIdsUnique(after, counter, FindId(after, id).value, Row(id, data));
  }

  /** Writing other jobs leaves a row's content where it is. */
  lemma {:induction false} SavedRowsKeep(rows: seq<Row<JobData>>, js: seq<Job>, now: int, id: nat)
    requires forall j :: j in js ==> j.id != id
    ensures forall r :: r in rows && r.id == id ==> r in SavedRows(rows, js, now)
    decreases |js|
  {
    if js != [] {
      match FindId(rows, js[0].id)
      case None => SavedRowsKeep(rows, js[1..], now, id);
      case Some(row) =>
        if JobTypeOk(js[0].jobType) {
          var next := ReplaceId(rows, js[0].id, JobData(Columns(js[0]), row.data.createdAt, now));
          forall r | r in rows && r.id == id
            ensures r in next
          {
            var m :| 0 <= m < |rows| && rows[m] == r;
            assert next[m] == r;
          }
          SavedRowsKeep(next, js[1..], now, id);
        }
    }
  }

  // ---------------------------------------------------------------- the class

  class JobManager {
    var jobs: seq<Job>
    const db: Database

    ghost predicate Valid()
      reads this, db
    {
      db.Valid()
    }

    /** `JobManager(db)` loads the jobs at once. */
    constructor (db: Database)
      requires db.Valid()
      ensures this.db == db && Valid()
      ensures jobs == Loaded(db.jobs)
    {
      this.db := db;
      new;
      LoadJobs();
    }

    /** `load_jobs`: one job per row, in id order, none of them running. */
    method LoadJobs()
      requires Valid()
      modifies this`jobs
      ensures jobs == Loaded(db.jobs)
    {
      var rows := db.jobs;
      var loaded: seq<Job> := [];
      var i := 0;
      while i < |rows|
        invariant 0 <= i <= |rows|
        invariant loaded == Loaded(rows[..i])
      {
        assert Loaded(rows[..i + 1]) == Loaded(rows[..i]) + [FromRow(rows[i])];
        loaded := loaded + [FromRow(rows[i])];
        i := i + 1;
      }
      assert rows[..i] == rows;
      jobs := loaded;
    }

    /** `save_jobs`: writes every job back, stopping at the first failure. */
    method SaveJobs(now: int)
      requires Valid()
      modifies db`jobs
      ensures Valid()
      ensures db.jobs == SavedRows(old(db.jobs), jobs, now)
    {
      var i := 0;
      while i < |jobs|
        invariant 0 <= i <= |jobs| && Valid()
        invariant SavedRows(db.jobs, jobs[i..], now) == SavedRows(old(db.jobs), jobs, now)
      {
        var j := jobs[i];
        assert jobs[i..][1..] == jobs[i + 1..];
        var ok := db.UpdateJob(j.id, Columns(j), now);
        if !ok {
          return;
        }
        i := i + 1;
      }
    }

    /** `add_job`: the store assigns the id; a job type it refuses raises out
        of the call and the list stays as it was. */
    method AddJob(job: Job, now: int) returns (r: Result<JobId>)
      requires Valid()
      modifies this`jobs, db`jobs, db`jobSeq
      ensures Valid()
      ensures JobTypeOk(job.jobType) ==>
        r.Ok? && r.value == old(db.jobSeq) + 1 && jobs == old(jobs) + [job.(id := r.value)]
        && db.jobs == Append(old(db.jobs), old(db.jobSeq), JobData(Columns(job), now, now))
      ensures !JobTypeOk(job.jobType) ==> r.Err? && jobs == old(jobs) && db.jobs == old(db.jobs)
    {
      var added := db.AddJob(Columns(job), now);
      match added
      case Err(e) =>
        r := Err(e);
      case Ok(id) =>
        r := Ok(id);
        jobs := jobs + [job.(id := id)];
    }

    /** `update_job`: the store's row first; then the first local job with the
        id is replaced. A refused update raises before the local copy changes. */
    method UpdateJob(jobId: JobId, updated: Job, now: int) returns (ok: bool)
      requires Valid()
      modifies this`jobs, db`jobs
      ensures Valid()
      ensures ok ==> |jobs| == |old(jobs)| && forall i :: 0 <= i < |jobs| ==>
        jobs[i] == if i == FirstIndex(old(jobs), jobId) then updated else old(jobs)[i]
      ensures !ok ==> jobs == old(jobs) && db.jobs == old(db.jobs)
      ensures ok <==> FindId(old(db.jobs), jobId).None? || JobTypeOk(updated.jobType)
      ensures ok ==> db.jobs == match FindId(old(db.jobs), jobId)
        case None => old(db.jobs)
        case Some(row) => ReplaceId(old(db.jobs), jobId, JobData(Columns(updated), row.data.createdAt, now))
    {
      ok := db.UpdateJob(jobId, Columns(updated), now);
      if ok {
        jobs := ReplaceFirst(jobs, jobId, updated);
      }
    }

    /** `delete_job`: the row goes, and every local job with the id. */
    method DeleteJob(jobId: JobId)
      requires Valid()
      modifies this`jobs, db`jobs
      ensures Valid()
      ensures db.jobs == RemoveId(old(db.jobs), jobId)
      ensures jobs == Without(old(jobs), jobId)
    {
      db.DeleteJob(jobId);
      jobs := Without(jobs, jobId);
    }

    /** `get_job_by_id`. */
    function GetJobById(jobId: nat): Option<Job>
      reads this
    {
      Find(jobs, jobId)
    }
  }
}
