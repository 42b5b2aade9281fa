/** `DatabaseManager`: the five tables the application keeps in SQLite, their
    queries as functions of the rows, and the class whose methods insert,
    update and delete rows. Timestamps (`CURRENT_TIMESTAMP`, `datetime('now')`,
    `datetime.now()`) are the caller's `now`, in seconds. */
module Store {
  import opened Wrappers
  import opened Tables

  // ---------------------------------------------------------------- column domains

  /** `hash_type` `CHECK (hash_type IN ('simple', 'incremental'))`. */
  datatype HashType = SimpleHash | IncrementalHash

  /** `status` `CHECK (status IN ('started', 'completed', 'success', 'error', 'skipped'))`. */
  datatype LogStatus = Started | Completed | Succeeded | Failed | Skipped

  /** `policy_type` `CHECK (policy_type IN ('keep_count', 'keep_days', 'keep_size'))`. */
  datatype PolicyKind = KeepCount | KeepDays | KeepSize

  /** `file_type` `CHECK (file_type IN ('simple_backup', 'incremental_snapshot'))`. */
  datatype FileKind = SimpleBackup | IncrementalSnapshot

  function PolicyName(k: PolicyKind): string {
    match k
    case KeepCount => "keep_count"
    case KeepDays => "keep_days"
    case KeepSize => "keep_size"
  }

  /** The text a `policy_type` column or argument holds, read back; `None` for
      text the `CHECK` constraint refuses. */
  function PolicyKindOf(s: string): (k: Option<PolicyKind>)
    ensures k.Some? <==> s == "keep_count" || s == "keep_days" || s == "keep_size"
    ensures k.Some? ==> PolicyName(k.value) == s
  {
    if s == "keep_count" then Some(KeepCount)
    else if s == "keep_days" then Some(KeepDays)
    else if s == "keep_size" then Some(KeepSize)
    else None
  }

  lemma PolicyNameRoundTrip(k: PolicyKind)
    ensures PolicyKindOf(PolicyName(k)) == Some(k)
  {
    match k
    case KeepCount =>
    case KeepDays =>
    case KeepSize =>
  }

  function FileKindName(k: FileKind): string {
    if k == SimpleBackup then "simple_backup" else "incremental_snapshot"
  }

  /** `job_type` `CHECK (job_type IN ('Simple', 'Incremental'))`. */
  predicate JobTypeOk(t: string) {
    t == "Simple" || t == "Incremental"
  }

  // ---------------------------------------------------------------- rows

  /** The 13 columns `add_job` and `update_job` write. */
  datatype JobFields = JobFields(
    name: string, jobType: string, sourcePath: string, destPath: string,
    active: bool, scheduleType: string, scheduleValue: string,
    preserveDeleted: bool, createSnapshots: bool, snapshotInterval: int,
    lastRun: Option<string>, nextRun: Option<string>, running: bool)

  datatype JobData = JobData(fields: JobFields, createdAt: int, updatedAt: int)
  datatype HashData = HashData(jobId: int, hashType: HashType, mtime: int, timestamp: int)
  datatype LogData = LogData(jobId: int, executionTime: int, status: LogStatus,
                             message: Option<string>, duration: Option<int>, filesProcessed: int)
  datatype PolicyData = PolicyData(jobId: int, policyType: PolicyKind, policyValue: int,
                                   enabled: bool, createdAt: int)
  datatype FileData = FileData(jobId: int, filePath: string, fileType: FileKind,
                               createdAt: int, fileSize: nat)

  function HashTime(d: HashData): int { d.timestamp }
  function LogTime(d: LogData): int { d.executionTime }
  function FileTime(d: FileData): int { d.createdAt }

  /** The inner `JOIN jobs j ON x.job_id = j.id`: rows whose job row is gone
      are not returned. */
  predicate HasJob(jobs: seq<Row<JobData>>, jobId: int) {
    exists r :: r in jobs && r.id == jobId
  }

  /** `if job_id:` — `None` and `0` apply no job filter. */
  predicate JobFilter(jobId: Option<int>) {
    jobId.Some? && jobId.value != 0
  }

  predicate OnJob(jobId: Option<int>, rowJob: int) {
    !JobFilter(jobId) || rowJob == jobId.value
  }

  // ---------------------------------------------------------------- backup_hashes

  function HashOf(jobId: int, t: HashType): Row<HashData> -> bool {
    (r: Row<HashData>) => r.data.jobId == jobId && r.data.hashType == t
  }

  /** `get_backup_hash`: a row of that job and type with the latest timestamp,
      or `None` when there is none. */
  function LatestHash(hashes: seq<Row<HashData>>, jobId: int, t: HashType): (r: Option<Row<HashData>>)
    ensures r.None? <==> forall x :: x in hashes ==> !HashOf(jobId, t)(x)
    ensures r.Some? ==> r.value in hashes && r.value.data.jobId == jobId && r.value.data.hashType == t
    ensures r.Some? ==> forall x :: x in hashes && HashOf(jobId, t)(x) ==> x.data.timestamp <= r.value.data.timestamp
  {
    var matching := Filter(hashes, HashOf(jobId, t));
    var sorted := SortDesc(matching, HashTime);
    SortDescMembers(matching, HashTime);
    if sorted == [] then None
    else
      SortedDescHeadMax(sorted, HashTime);
      Some(sorted[0])
  }

  // ---------------------------------------------------------------- job_logs

  function LogVisible(jobs: seq<Row<JobData>>, jobId: Option<int>): Row<LogData> -> bool {
    (r: Row<LogData>) => HasJob(jobs, r.data.jobId) && OnJob(jobId, r.data.jobId)
  }

  /** `get_job_logs(job_id, limit)`: the newest `limit` logs of jobs that
      exist, of the given job when `job_id` is truthy, newest first. */
  function JobLogs(logs: seq<Row<LogData>>, jobs: seq<Row<JobData>>, jobId: Option<int>, limit: int): (r: seq<Row<LogData>>)
    requires Distinct(logs)
    ensures forall x :: x in r ==> x in logs && HasJob(jobs, x.data.jobId) && OnJob(jobId, x.data.jobId)
    ensures SortedDesc(r, LogTime) && Distinct(r)
    ensures var all := Filter(logs, LogVisible(jobs, jobId));
      && |r| == (if 0 <= limit < |all| then limit else |all|)
      && (forall x, y :: x in all && x !in r && y in r ==> LogTime(x.data) <= LogTime(y.data))
  {
    var all := Filter(logs, LogVisible(jobs, jobId));
    FilterDistinct(logs, LogVisible(jobs, jobId));
    TopRows(all, LogTime, limit);
    Limit(SortDesc(all, LogTime), limit)
  }

  /** The rows `Limit(SortDesc(s), n)` keeps: repetition-free, taken from `s`,
      and none of the rows left behind is newer than a row kept. */
  lemma TopRows<R>(s: seq<Row<R>>, key: R -> int, n: int)
    requires Distinct(s)
    ensures var top := Limit(SortDesc(s, key), n);
      && Distinct(top) && SortedDesc(top, key)
      && (forall x :: x in top ==> x in s)
      && (forall x :: x in s && (n < 0 || n >= |s|) ==> x in top)
      && (forall x, y :: x in s && x !in top && y in top ==> key(x.data) <= key(y.data))
  {
    var sorted := SortDesc(s, key);
    var top := Limit(sorted, n);
    assert Distinct(top) by {
      PermutationDistinct(s, sorted);
      assert top <= sorted;
    }
    assert SortedDesc(top, key) by {
      assert top <= sorted;
    }
    SortDescMembers(s, key);
    assert forall x :: x in top ==> x in s by {
      assert top <= sorted;
    }
    assert forall x :: x in s && (n < 0 || n >= |s|) ==> x in top;
    TopRowsNewest(sorted, top, s, key);
  }

  lemma TopRowsNewest<R>(sorted: seq<Row<R>>, top: seq<Row<R>>, s: seq<Row<R>>, key: R -> int)
    requires SortedDesc(sorted, key) && top <= sorted
    requires forall x :: x in s ==> x in sorted
    ensures forall x, y :: x in s && x !in top && y in top ==> key(x.data) <= key(y.data)
  {
    forall x, y | x in s && x !in top && y in top
      ensures key(x.data) <= key(y.data)
    {
      var i :| 0 <= i < |sorted| && sorted[i] == x;
      var j :| 0 <= j < |top| && top[j] == y;
      assert top[j] == sorted[j];
      assert i >= |top|;
    }
  }

  /** Sorting keeps the rows. */
  lemma SortDescMembers<R>(s: seq<Row<R>>, key: R -> int)
    ensures forall x :: x in SortDesc(s, key) <==> x in s
  {
    var r := SortDesc(s, key);
    forall x ensures x in r <==> x in s {
      assert x in r <==> x in multiset(r);
      assert x in s <==> x in multiset(s);
    }
  }

  /** `datetime('now', '-N days')` with `N` written by `'-{}'.format`: `now`
      minus `days` days, or NULL for a negative `days`, whose modifier reads
      `--N days`, which SQLite does not accept. */
  function DaysCutoff(now: int, days: int): Option<int> {
    if days < 0 then None else Some(now - days * 86400)
  }

  /** `t < cutoff` in a `WHERE`: a NULL cutoff makes it NULL, so no row matches. */
  predicate Before(t: int, cutoff: Option<int>) {
    cutoff.Some? && t < cutoff.value
  }

  /** `cleanup_old_logs(days)`: the logs kept, those not executed before the
      cutoff. */
  function LogRecent(cutoff: Option<int>): Row<LogData> -> bool {
    (r: Row<LogData>) => !Before(r.data.executionTime, cutoff)
  }

  function LogsAfterCleanup(logs: seq<Row<LogData>>, days: int, now: int): (r: seq<Row<LogData>>)
    ensures forall x :: x in r <==> x in logs && (days < 0 || x.data.executionTime >= now - days * 86400)
    ensures days < 0 ==> r == logs
  {
    var kept := LogRecent(DaysCutoff(now, days));
    if days < 0 then
      FilterAll(logs, kept);
      Filter(logs, kept)
    else Filter(logs, kept)
  }

  // ---------------------------------------------------------------- retention_policies

  function PolicyVisible(jobs: seq<Row<JobData>>, jobId: Option<int>): Row<PolicyData> -> bool {
    (r: Row<PolicyData>) => r.data.enabled && HasJob(jobs, r.data.jobId) && OnJob(jobId, r.data.jobId)
  }

  /** `get_retention_policies(job_id)`: the enabled policies of jobs that exist,
      of the given job when `job_id` is truthy, in table order. */
  function Policies(policies: seq<Row<PolicyData>>, jobs: seq<Row<JobData>>, jobId: Option<int>): (r: seq<Row<PolicyData>>)
    ensures forall x :: x in r <==> x in policies && x.data.enabled && HasJob(jobs, x.data.jobId) && OnJob(jobId, x.data.jobId)
  {
    Filter(policies, PolicyVisible(jobs, jobId))
  }

  /** The `SET` list `update_retention_policy` builds: each argument given
      replaces its column, the others stay. */
  function PatchPolicy(d: PolicyData, k: Option<PolicyKind>, v: Option<int>, e: Option<bool>): (r: PolicyData)
    ensures r.jobId == d.jobId && r.createdAt == d.createdAt
    ensures r.policyType == k.GetOr(d.policyType)
    ensures r.policyValue == v.GetOr(d.policyValue)
    ensures r.enabled == e.GetOr(d.enabled)
  {
    var r1 := if k.Some? then d.(policyType := k.value) else d;
    var r2 := if v.Some? then r1.(policyValue := v.value) else r1;
    if e.Some? then r2.(enabled := e.value) else r2
  }

  /** Patching with nothing changes nothing; patching twice with the same
      arguments is patching once. */
  lemma PatchPolicyLaws(d: PolicyData, k: Option<PolicyKind>, v: Option<int>, e: Option<bool>)
    ensures PatchPolicy(d, None, None, None) == d
    ensures PatchPolicy(PatchPolicy(d, k, v, e), k, v, e) == PatchPolicy(d, k, v, e)
  {
  }

  // ---------------------------------------------------------------- backup_files

  function FileVisible(jobs: seq<Row<JobData>>, jobId: Option<int>, fileType: Option<string>): Row<FileData> -> bool {
    (r: Row<FileData>) =>
      && HasJob(jobs, r.data.jobId) && OnJob(jobId, r.data.jobId)
      && (fileType.None? || fileType.value == "" || FileKindName(r.data.fileType) == fileType.value)
  }

  /** `get_backup_files(job_id, file_type)`: the records of jobs that exist,
      restricted to the job and the type when those are truthy, newest first. */
  function BackupFiles(files: seq<Row<FileData>>, jobs: seq<Row<JobData>>, jobId: Option<int>, fileType: Option<string>): (r: seq<Row<FileData>>)
    ensures forall x :: x in r <==> x in files && FileVisible(jobs, jobId, fileType)(x)
    ensures multiset(r) == multiset(Filter(files, FileVisible(jobs, jobId, fileType)))
    ensures SortedDesc(r, FileTime)
  {
    var all := Filter(files, FileVisible(jobs, jobId, fileType));
    var r := SortDesc(all, FileTime);
    assert forall x :: x in r <==> x in multiset(all);
    r
  }

  // ---------------------------------------------------------------- cleanup_old_backups

  function OfJob(jobId: int): Row<FileData> -> bool {
    (r: Row<FileData>) => r.data.jobId == jobId
  }

  /** The job's records, newest first, that `LIMIT n` keeps. */
  function NewestOfJob(files: seq<Row<FileData>>, jobId: int, n: int): seq<Row<FileData>> {
    Limit(SortDesc(Filter(files, OfJob(jobId)), FileTime), n)
  }

  function SizeSum(s: seq<Row<FileData>>): nat {
    if s == [] then 0 else s[0].data.fileSize + SizeSum(s[1..])
  }

  function NewerOrSame(jobId: int, t: int): Row<FileData> -> bool {
    (r: Row<FileData>) => r.data.jobId == jobId && r.data.createdAt >= t
  }

  /** `SUM(file_size) OVER (ORDER BY created_at DESC)` at a row created at `t`:
      the window's default frame ends at the last row created at `t`, so rows
      with equal `created_at` share one total. */
  function RunningTotal(files: seq<Row<FileData>>, jobId: int, t: int): nat {
    SizeSum(Filter(files, NewerOrSame(jobId, t)))
  }

  /** The bytes `keep_size` allows for `value` mebibytes. */
  function SizeLimit(value: int): int {
    value * 1024 * 1024
  }

  function Survives(files: seq<Row<FileData>>, jobId: int, kind: PolicyKind, value: int, now: int): Row<FileData> -> bool {
    (r: Row<FileData>) =>
      r.data.jobId != jobId ||
      match kind
      case KeepCount => r in NewestOfJob(files, jobId, value)
      case KeepDays => !Before(r.data.createdAt, DaysCutoff(now, value))
      case KeepSize => RunningTotal(files, jobId, r.data.createdAt) <= SizeLimit(value)
  }

  /** The `backup_files` table after `cleanup_old_backups(job_id, kind, value)`. */
  function Cleanup(files: seq<Row<FileData>>, jobId: int, kind: PolicyKind, value: int, now: int): (r: seq<Row<FileData>>)
    ensures |r| <= |files|
    ensures forall x :: x in r ==> x in files
    ensures forall x :: x in files && x.data.jobId != jobId ==> x in r
    ensures kind == KeepCount ==> forall x :: x in files && x.data.jobId == jobId ==>
      (x in r <==> x in NewestOfJob(files, jobId, value))
    ensures kind == KeepDays ==> forall x :: x in files && x.data.jobId == jobId ==>
      (x in r <==> value < 0 || x.data.createdAt >= now - value * 86400)
    ensures kind == KeepSize ==> forall x :: x in files && x.data.jobId == jobId ==>
      (x in r <==> RunningTotal(files, jobId, x.data.createdAt) <= SizeLimit(value))
  {
    Filter(files, Survives(files, jobId, kind, value, now))
  }

  /** keep_count `n >= 0`: the job keeps exactly `min(n, before)` records, none
      older than a record removed. A negative `LIMIT` keeps everything. */
  lemma KeepCountNewest(files: seq<Row<FileData>>, counter: nat, jobId: int, n: int, now: int)
    requires Ascending(files, counter)
    ensures var before := Filter(files, OfJob(jobId));
      var after := Filter(Cleanup(files, jobId, KeepCount, n, now), OfJob(jobId));
      && |after| == (if 0 <= n < |before| then n else |before|)
      && (forall x, y :: x in before && x !in after && y in after ==> x.data.createdAt <= y.data.createdAt)
  {
    var before := Filter(files, OfJob(jobId));
    var rest := Cleanup(files, jobId, KeepCount, n, now);
    var after := Filter(rest, OfJob(jobId));
    var top := NewestOfJob(files, jobId, n);
    AscendingDistinct(files, counter);
    FilterDistinct(files, OfJob(jobId));
    FilterDistinct(files, Survives(files, jobId, KeepCount, n, now));
    FilterDistinct(rest, OfJob(jobId));
    TopRows(before, FileTime, n);
    assert forall x :: x in after <==> x in top;
    SameElementsSameLength(after, top);
  }

  /** keep_days: for `n >= 0` the rows removed are exactly the job's records
      created before `now` minus `n` days, in table order; a negative `n` makes
      the cutoff NULL and leaves the table as it was. */
  lemma KeepDaysExact(files: seq<Row<FileData>>, jobId: int, n: int, now: int)
    ensures n >= 0 ==> forall x :: x in files ==>
      (x !in Cleanup(files, jobId, KeepDays, n, now) <==> x.data.jobId == jobId && x.data.createdAt < now - n * 86400)
    ensures n < 0 ==> Cleanup(files, jobId, KeepDays, n, now) == files
  {
    if n < 0 {
      FilterAll(files, Survives(files, jobId, KeepDays, n, now));
    }
  }

  /** keep_size: a kept record keeps every record of the job at least as new,
      and the kept records together stay within the limit. */
  lemma KeepSizePrefix(files: seq<Row<FileData>>, jobId: int, n: int, now: int)
    ensures var after := Filter(Cleanup(files, jobId, KeepSize, n, now), OfJob(jobId));
      && (forall x, y :: x in after && y in files && y.data.jobId == jobId && y.data.createdAt >= x.data.createdAt ==> y in after)
      && (after != [] ==> SizeSum(after) <= SizeLimit(n))
  {
    var rest := Cleanup(files, jobId, KeepSize, n, now);
    var after := Filter(rest, OfJob(jobId));
    forall x, y | x in after && y in files && y.data.jobId == jobId && y.data.createdAt >= x.data.createdAt
      ensures y in after
    {
      FilterSumMono(files, NewerOrSame(jobId, y.data.createdAt), NewerOrSame(jobId, x.data.createdAt));
    }
    if after != [] {
      var m := OldestIn(after);
      var keptOfJob := (r: Row<FileData>) => Survives(files, jobId, KeepSize, n, now)(r) && OfJob(jobId)(r);
      FilterFilter(files, Survives(files, jobId, KeepSize, n, now), OfJob(jobId), keptOfJob);
      forall x | x in files
        ensures keptOfJob(x) == NewerOrSame(jobId, m.data.createdAt)(x)
      {
        if NewerOrSame(jobId, m.data.createdAt)(x) {
          FilterSumMono(files, NewerOrSame(jobId, x.data.createdAt), NewerOrSame(jobId, m.data.createdAt));
        }
      }
      FilterCongruent(files, keptOfJob, NewerOrSame(jobId, m.data.createdAt));
    }
  }

  /** A record of `s` created no later than any other. */
  function OldestIn(s: seq<Row<FileData>>): (m: Row<FileData>)
    requires s != []
    ensures m in s && forall x :: x in s ==> m.data.createdAt <= x.data.createdAt
  {
    if |s| == 1 then s[0]
    else
      var m := OldestIn(s[1..]);
      if s[0].data.createdAt <= m.data.createdAt then s[0] else m
  }

  /** A weaker condition selects at least as many bytes. */
  lemma {:induction false} FilterSumMono(s: seq<Row<FileData>>, p: Row<FileData> -> bool, q: Row<FileData> -> bool)
    requires forall x :: p(x) ==> q(x)
    ensures SizeSum(Filter(s, p)) <= SizeSum(Filter(s, q))
  {
    if s != [] {
      FilterSumMono(s[1..], p, q);
      FilterCons(s, p);
      FilterCons(s, q);
    }
  }

  lemma FilterCons<R(!new)>(s: seq<Row<R>>, p: Row<R> -> bool)
    requires s != []
    ensures Filter(s, p) == if p(s[0]) then [s[0]] + Filter(s[1..], p) else Filter(s[1..], p)
  {
  }

  /** Filtering twice is filtering once by both conditions. */
  lemma {:induction false} FilterFilter<R(!new)>(s: seq<Row<R>>, p: Row<R> -> bool, q: Row<R> -> bool, pq: Row<R> -> bool)
    requires forall x :: pq(x) == (p(x) && q(x))
    ensures Filter(Filter(s, p), q) == Filter(s, pq)
  {
    if s != [] {
      FilterFilter(s[1..], p, q, pq);
      var t := Filter(s[1..], p);
      if p(s[0]) {
        assert Filter(s, p) == [s[0]] + t;
        assert ([s[0]] + t)[0] == s[0] && ([s[0]] + t)[1..] == t;
        FilterCons([s[0]] + t, q);
      } else {
        assert Filter(s, p) == t;
      }
    }
  }

  /** Appending a row stamped later than every other makes it the latest. */
  lemma LatestAfterAppend(hashes: seq<Row<HashData>>, counter: nat, jobId: int, t: HashType, mtime: int, now: int)
    requires forall x :: x in hashes ==> x.data.timestamp < now
    ensures LatestHash(Append(hashes, counter, HashData(jobId, t, mtime, now)), jobId, t)
            == Some(Row(counter + 1, HashData(jobId, t, mtime, now)))
  {
    var added := Row(counter + 1, HashData(jobId, t, mtime, now));
    var after := Append(hashes, counter, HashData(jobId, t, mtime, now));
    assert added in after;
    var r := LatestHash(after, jobId, t);
    assert r.Some? && r.value.data.timestamp >= now;
  }

  // ---------------------------------------------------------------- the class

  /** The tables of `DatabaseManager`; each `…Seq` field is that table's
      `sqlite_sequence` entry, the last id `AUTOINCREMENT` handed out. */
  class Database {
    var jobs: seq<Row<JobData>>
    var jobSeq: nat
    var hashes: seq<Row<HashData>>
    var hashSeq: nat
    var logs: seq<Row<LogData>>
    var logSeq: nat
    var policies: seq<Row<PolicyData>>
    var policySeq: nat
    var files: seq<Row<FileData>>
    var fileSeq: nat

    ghost predicate Valid()
      reads this
    {
      && Ascending(jobs, jobSeq) && Ascending(hashes, hashSeq) && Ascending(logs, logSeq)
      && Ascending(policies, policySeq) && Ascending(files, fileSeq)
    }

    /** `init_database` on a new file: every table empty. */
    constructor ()
      ensures Valid()
      ensures jobs == [] && hashes == [] && logs == [] && policies == [] && files == []
      ensures jobSeq == 0 && hashSeq == 0 && logSeq == 0 && policySeq == 0 && fileSeq == 0
    {
      jobs, hashes, logs, policies, files := [], [], [], [], [];
      jobSeq, hashSeq, logSeq, policySeq, fileSeq := 0, 0, 0, 0, 0;
    }

    /** `add_job`: inserts one row and returns its fresh id; a `job_type` the
        `CHECK` refuses raises and inserts nothing. */
    method AddJob(f: JobFields, now: int) returns (r: Result<nat>)
      requires Valid()
      modifies this`jobs, this`jobSeq
      ensures Valid()
      ensures JobTypeOk(f.jobType) ==>
        && r == Ok(old(jobSeq) + 1) && jobSeq == old(jobSeq) + 1
        && jobs == Append(old(jobs), old(jobSeq), JobData(f, now, now))
        && forall x :: x in old(jobs) ==> x.id != r.value
      ensures !JobTypeOk(f.jobType) ==> r.Err? && jobs == old(jobs) && jobSeq == old(jobSeq)
    {
      if !JobTypeOk(f.jobType) {
        return Err("CHECK constraint failed: job_type");
      }
      AppendAscending(jobs, jobSeq, JobData(f, now, now));
      jobs := Append(jobs, jobSeq, JobData(f, now, now));
      jobSeq := jobSeq + 1;
      r := Ok(jobSeq);
    }

    /** `update_job`: the row with that id gets the 13 columns and
        `updated_at = now`, keeping its `created_at`; other rows are unchanged.
        No row with the id: nothing happens. A refused `job_type` on an
        existing row raises (`ok` false) and changes nothing. */
    method UpdateJob(id: nat, f: JobFields, now: int) returns (ok: bool)
      requires Valid()
      modifies this`jobs
      ensures Valid()
      ensures FindId(old(jobs), id).None? ==> ok && jobs == old(jobs)
      ensures FindId(old(jobs), id).Some? ==>
        var row := FindId(old(jobs), id).value;
        && (ok <==> JobTypeOk(f.jobType))
        && jobs == if ok then ReplaceId(old(jobs), id, JobData(f, row.data.createdAt, now)) else old(jobs)
    {
      match FindId(jobs, id)
      case None =>
        ok := true;
      case Some(row) =>
        if !JobTypeOk(f.jobType) {
          ok := false;
        } else {
          ReplaceIdAscending(jobs, jobSeq, id, JobData(f, row.data.createdAt, now));
          jobs := ReplaceId(jobs, id, JobData(f, row.data.createdAt, now));
          ok := true;
        }
    }

    /** `delete_job`: removes that row only; the job's hashes, logs, policies
        and file records stay, since foreign keys are never switched on. */
    method DeleteJob(id: nat)
      requires Valid()
      modifies this`jobs
      ensures Valid()
      ensures jobs == RemoveId(old(jobs), id)
    {
      FilterAscending(jobs, IdIsNot(id), jobSeq);
      jobs := RemoveId(jobs, id);
    }

    /** `update_backup_hash`: always inserts a new row; existing rows are never
        changed. */
    method UpdateBackupHash(jobId: int, t: HashType, mtime: int, now: int)
      requires Valid()
      modifies this`hashes, this`hashSeq
      ensures Valid()
      ensures hashes == Append(old(hashes), old(hashSeq), HashData(jobId, t, mtime, now))
      ensures hashSeq == old(hashSeq) + 1
    {
      AppendAscending(hashes, hashSeq, HashData(jobId, t, mtime, now));
      hashes := Append(hashes, hashSeq, HashData(jobId, t, mtime, now));
      hashSeq := hashSeq + 1;
    }

    /** `add_job_log`. */
    method AddJobLog(jobId: int, status: LogStatus, message: Option<string>, duration: Option<int>, filesProcessed: int, now: int)
      requires Valid()
      modifies this`logs, this`logSeq
      ensures Valid()
      ensures logs == Append(old(logs), old(logSeq), LogData(jobId, now, status, message, duration, filesProcessed))
      ensures logSeq == old(logSeq) + 1
    {
      AppendAscending(logs, logSeq, LogData(jobId, now, status, message, duration, filesProcessed));
      logs := Append(logs, logSeq, LogData(jobId, now, status, message, duration, filesProcessed));
      logSeq := logSeq + 1;
    }

    /** `cleanup_old_logs(days)`: removes the logs executed before `now` minus
        `days` days and returns how many. */
    method CleanupOldLogs(days: int, now: int) returns (count: nat)
      requires Valid()
      modifies this`logs
      ensures Valid()
      ensures logs == LogsAfterCleanup(old(logs), days, now)
      ensures count == |old(logs)| - |logs|
    {
      FilterAscending(logs, LogRecent(DaysCutoff(now, days)), logSeq);
      var before := |logs|;
      logs := LogsAfterCleanup(logs, days, now);
      count := before - |logs|;
    }

    /** `add_retention_policy`: inserts one row and returns its fresh id; a
        `policy_type` the `CHECK` refuses raises and inserts nothing. */
    method AddRetentionPolicy(jobId: int, policyType: string, value: int, enabled: bool, now: int) returns (r: Result<nat>)
      requires Valid()
      modifies this`policies, this`policySeq
      ensures Valid()
      ensures PolicyKindOf(policyType).Some? ==>
        && r == Ok(old(policySeq) + 1) && policySeq == old(policySeq) + 1
        && policies == Append(old(policies), old(policySeq), PolicyData(jobId, PolicyKindOf(policyType).value, value, enabled, now))
        && forall x :: x in old(policies) ==> x.id != r.value
      ensures PolicyKindOf(policyType).None? ==> r.Err? && policies == old(policies) && policySeq == old(policySeq)
    {
      match PolicyKindOf(policyType)
      case None =>
        r := Err("CHECK constraint failed: policy_type");
      case Some(k) =>
        AppendAscending(policies, policySeq, PolicyData(jobId, k, value, enabled, now));
        policies := Append(policies, policySeq, PolicyData(jobId, k, value, enabled, now));
        policySeq := policySeq + 1;
        r := Ok(policySeq);
    }

    /** `update_retention_policy`: only the arguments given change their
        columns; with none given nothing runs. A refused `policy_type` on an
        existing row raises (`ok` false) and changes nothing. */
    method UpdateRetentionPolicy(id: nat, policyType: Option<string>, value: Option<int>, enabled: Option<bool>) returns (ok: bool)
      requires Valid()
      modifies this`policies
      ensures Valid()
      ensures (policyType.None? && value.None? && enabled.None?) || FindId(old(policies), id).None? ==>
        ok && policies == old(policies)
      ensures (policyType.Some? || value.Some? || enabled.Some?) && FindId(old(policies), id).Some? ==>
        var row := FindId(old(policies), id).value;
        var kind := if policyType.Some? then PolicyKindOf(policyType.value) else Some(row.data.policyType);
        && (ok <==> kind.Some?)
        && policies == if ok then ReplaceId(old(policies), id, PatchPolicy(row.data, kind, value, enabled)) else old(policies)
    {
      ok := true;
      if policyType.None? && value.None? && enabled.None? {
        return;
      }
      match FindId(policies, id)
      case None =>
      case Some(row) =>
        var kind := if policyType.Some? then PolicyKindOf(policyType.value) else Some(row.data.policyType);
        if kind.None? {
          ok := false;
        } else {
          ReplaceIdAscending(policies, policySeq, id, PatchPolicy(row.data, kind, value, enabled));
          policies := ReplaceId(policies, id, PatchPolicy(row.data, kind, value, enabled));
        }
    }

    /** `delete_retention_policy`. */
    method DeleteRetentionPolicy(id: nat)
      requires Valid()
      modifies this`policies
      ensures Valid()
      ensures policies == RemoveId(old(policies), id)
    {
      FilterAscending(policies, IdIsNot(id), policySeq);
      policies := RemoveId(policies, id);
    }

    /** `add_backup_file`: inserts one row, `created_at` defaulting to `now`,
        and returns its fresh id. */
    method AddBackupFile(jobId: int, path: string, kind: FileKind, createdAt: Option<int>, size: nat, now: int) returns (id: nat)
      requires Valid()
      modifies this`files, this`fileSeq
      ensures Valid()
      ensures id == old(fileSeq) + 1 && fileSeq == id
      ensures files == Append(old(files), old(fileSeq), FileData(jobId, path, kind, createdAt.GetOr(now), size))
      ensures forall x :: x in old(files) ==> x.id != id
    {
      AppendAscending(files, fileSeq, FileData(jobId, path, kind, createdAt.GetOr(now), size));
      files := Append(files, fileSeq, FileData(jobId, path, kind, createdAt.GetOr(now), size));
      fileSeq := fileSeq + 1;
      id := fileSeq;
    }

    /** `delete_backup_file`. */
    method DeleteBackupFile(id: nat)
      requires Valid()
      modifies this`files
      ensures Valid()
      ensures files == RemoveId(old(files), id)
    {
      FilterAscending(files, IdIsNot(id), fileSeq);
      files := RemoveId(files, id);
    }

    /** `cleanup_old_backups`: prunes the job's file records by the policy and
        returns the cursor's `rowcount`, the number removed; for a policy type
        none of the branches handles no statement runs and `rowcount` stays -1. */
    method CleanupOldBackups(jobId: int, policyType: string, value: int, now: int) returns (count: int)
      requires Valid()
      modifies this`files
      ensures Valid()
      ensures PolicyKindOf(policyType).None? ==> files == old(files) && count == -1
      ensures PolicyKindOf(policyType).Some? ==>
        && files == Cleanup(old(files), jobId, PolicyKindOf(policyType).value, value, now)
        && count == |old(files)| - |files| >= 0
    {
      match PolicyKindOf(policyType)
      case None =>
        count := -1;
      case Some(k) =>
        FilterAscending(files, Survives(files, jobId, k, value, now), fileSeq);
        var before := |files|;
        files := Cleanup(files, jobId, k, value, now);
        count := before - |files|;
    }
  }
}
