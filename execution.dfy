/** The application's side of a run: `execute_job` and the two job executors,
    change detection, the naming of backup artifacts, retention after a run,
    the manual-run filter, one pass of the scheduler loop and notification
    routing. The disk is a map from path text to folders and archives; the
    clock, the measured duration, the `notification_mode` setting and the
    failures of the file system are parameters. */
module Execution {
  import opened Wrappers
  import opened Text
  import opened Clock
  import opened Tables
  import opened Store
  import opened Files
  import opened Schedule
  import opened Retention
  import opened Jobs
  import opened Notify

  // ---------------------------------------------------------------- paths and names

  /** `Path(p).name`: the last `/`-separated piece. */
  function BaseName(p: string): (r: string)
    ensures '/' !in r
  {
    var parts := Split(p, '/');
    parts[|parts| - 1]
  }

  /** `Path(dir) / name`. */
  function Under(dir: string, name: string): string {
    dir + "/" + name
  }

  /** What the source path names: the tree below a folder, or nothing. */
  function SourceTree(disk: Disk, path: string): Tree {
    if path in disk && disk[path].Folder? then disk[path].tree else map[]
  }

  /** A simple job's backup: `{folder}_{YYYYMMDD_HHMMSS}` under the destination,
      with `.zip` when the job compresses. */
  function SimpleBackupPath(job: Job, now: int): string
    requires InRange(now)
  {
    Under(job.destPath, BaseName(job.sourcePath) + "_" + CompactStamp(now) + (if job.compressBackup then ".zip" else ""))
  }

  /** An incremental job's mirror: `dest/<source name>`. */
  function SyncPath(job: Job): string {
    Under(job.destPath, BaseName(job.sourcePath))
  }

  /** A snapshot of the mirror: `{folder}_INCREMENTAL_{YYYYMMDD_HHMMSS}` beside it. */
  function SnapshotPath(job: Job, now: int): string
    requires InRange(now)
  {
    Under(job.destPath, BaseName(job.sourcePath) + "_INCREMENTAL_" + CompactStamp(now))
  }

  /** A job's backups taken in different seconds never overwrite each other,
      and neither does a snapshot overwrite an earlier one. */
  lemma ArtifactNamesDistinct(job: Job, a: int, b: int)
    requires InRange(a) && InRange(b) && a != b
    ensures SimpleBackupPath(job, a) != SimpleBackupPath(job, b)
    ensures SnapshotPath(job, a) != SnapshotPath(job, b)
  {
    var x, y := CompactStamp(a), CompactStamp(b);
    var head := BaseName(job.sourcePath);
    if SimpleBackupPath(job, a) == SimpleBackupPath(job, b) {
      NameInjective(job.destPath, head + "_", x, y, if job.compressBackup then ".zip" else "");
      CompactStampInjective(a, b);
    }
    if SnapshotPath(job, a) == SnapshotPath(job, b) {
      assert head + "_INCREMENTAL_" + x + "" == head + "_INCREMENTAL_" + x;
      assert head + "_INCREMENTAL_" + y + "" == head + "_INCREMENTAL_" + y;
      NameInjective(job.destPath, head + "_INCREMENTAL_", x, y, "");
      CompactStampInjective(a, b);
    }
  }

  /** Names built alike around parts of one length differ where those parts differ. */
  lemma NameInjective(dir: string, head: string, x: string, y: string, ext: string)
    requires |x| == |y| && Under(dir, head + x + ext) == Under(dir, head + y + ext)
    ensures x == y
  {
    var n := |dir| + 1 + |head|;
    assert Under(dir, head + x + ext)[n..n + |x|] == x;
    assert Under(dir, head + y + ext)[n..n + |y|] == y;
  }

  /** The mirror is never taken for a backup or a snapshot. The reason is
      shallow: both artifact names add a timestamp suffix to the job's base
      name, so they are longer than the mirror's name, and a length
      comparison is the whole proof. */
  lemma MirrorNameIsOwn(job: Job, now: int)
    requires InRange(now)
    ensures SyncPath(job) != SimpleBackupPath(job, now) && SyncPath(job) != SnapshotPath(job, now)
  {
    assert |SimpleBackupPath(job, now)| > |SyncPath(job)|;
    assert |SnapshotPath(job, now)| > |SyncPath(job)|;
  }

  // ---------------------------------------------------------------- change detection

  /** Some file of the tree is newer than `m`. */
  predicate NewerFile(t: Tree, m: int) {
    exists c :: c in t && t[c].File? && t[c].mtime > m
  }

  /** `m` is the newest modification time over the files, or 0 without files. */
  predicate IsMaxMtime(t: Tree, m: int) {
    && m >= 0
    && (forall c :: c in t && t[c].File? ==> t[c].mtime <= m)
    && (m == 0 || exists c :: c in t && t[c].File? && t[c].mtime == m)
  }

  /** `has_changes_simple`: the source exists and there is no `'simple'` hash
      record, or the newest file time (0 when there are no files) is later than
      the recorded one. */
  predicate SourceChanged(disk: Disk, path: string, last: Option<Row<HashData>>) {
    path in disk && (last.None? || last.value.data.mtime < 0 || NewerFile(SourceTree(disk, path), last.value.data.mtime))
  }

  /** Recording the newest file time, later than every earlier record, makes
      the unchanged source read as unchanged. */
  lemma UpdatedHashShowsNoChange(disk: Disk, path: string, hashes: seq<Row<HashData>>, counter: nat,
                                 jobId: int, m: int, now: int)
    requires IsMaxMtime(SourceTree(disk, path), m)
    requires forall x :: x in hashes ==> x.data.timestamp < now
    ensures !SourceChanged(disk, path, LatestHash(Append(hashes, counter, HashData(jobId, SimpleHash, m, now)), jobId, SimpleHash))
  {
    LatestAfterAppend(hashes, counter, jobId, SimpleHash, m, now);
  }

  // ---------------------------------------------------------------- retention

  /** The file records after the store's cleanup for each policy in turn. */
  function CleanupAll(files: seq<Row<FileData>>, ps: seq<Row<PolicyData>>, jobId: int, now: int): seq<Row<FileData>>
    decreases |ps|
  {
    if ps == [] then files
    else CleanupAll(Cleanup(files, jobId, ps[0].data.policyType, ps[0].data.policyValue, now), ps[1..], jobId, now)
  }

  /** Retention only removes records, and only the job's own. */
  lemma {:induction false} CleanupAllKeepsOthers(files: seq<Row<FileData>>, ps: seq<Row<PolicyData>>, jobId: int, now: int)
    ensures forall x :: x in CleanupAll(files, ps, jobId, now) ==> x in files
    ensures forall x :: x in files && x.data.jobId != jobId ==> x in CleanupAll(files, ps, jobId, now)
    decreases |ps|
  {
    if ps != [] {
      CleanupAllKeepsOthers(Cleanup(files, jobId, ps[0].data.policyType, ps[0].data.policyValue, now), ps[1..], jobId, now);
    }
  }

  /** Where a notification goes. */
  function Deliver(queue: seq<Queued>, shown: seq<Notice>, a: Action): (seq<Queued>, seq<Notice>) {
    match a
    case Nothing => (queue, shown)
    case Enqueue(item) => (queue + [item], shown)
    case Show(n) => (queue, shown + [n])
  }

  // ---------------------------------------------------------------- a run

  /** What a run meets from outside: the clock, read once for the whole run
      (every step of the run sees the same `now`), the measured duration in tenths
      of a second, the text of an exception a step of the executor raises, the
      files whose copy fails, the mirror directories older than the source file
      of the same path, the artifacts whose deletion fails, and whether
      `should_create_snapshot` says a snapshot is due. */
  datatype Env = Env(now: int, duration: nat, fault: Option<string>, copyFailing: set<RelPath>,
                     olderDirs: set<RelPath>, deleteFailing: set<string>, snapshotDue: bool)

  /** How `execute_job` ended: the early return for an unknown job type, the
      exception branch with the error text, or the success branch with the
      executor's count (and whether the simple executor took its skip path). */
  datatype Run = UnknownType | Raised(error: string) | Done(files: nat, skipped: bool)

  /** `mkdir(parents=True, exist_ok=True)` on a path that is free or a folder. */
  function MkDir(disk: Disk, p: string): Disk {
    if p in disk then disk else disk[p := Folder(map[])]
  }

  function StartMessage(force: bool): string {
    "Job started (force=" + (if force then "True" else "False") + ")"
  }

  const SkipMessage := "No changes detected, skipping backup"

  /** The job as the success branch leaves it: `last_run` is now, `next_run`
      recomputed from now, and `running` reset by the `finally`. */
  function Stamped(job: Job, now: int): (j: Job)
    requires InRange(now)
    ensures j.id == job.id && !j.running
    ensures j.lastRun == Some(FormatStamp(now)) && j.nextRun == NextRunText(job.scheduleType, job.scheduleValue, now)
  {
    job.(lastRun := Some(FormatStamp(now)), nextRun := NextRunText(job.scheduleType, job.scheduleValue, now), running := false)
  }

  /** A simple job's artifact: the archive of the files the walk adds, or the
      copied folder. */
  function SimpleArtifact(job: Job, src: Tree, env: Env): Entry {
    if job.compressBackup then Archive(ZipMembers(src, job.sourcePath, job.excludePatterns, env.copyFailing))
    else Folder(CopySpec(src, job.sourcePath, job.excludePatterns, env.copyFailing))
  }

  /** `files_processed` of a simple backup: for an archive the source files not
      excluded themselves, for a folder every entry below the copy. */
  function SimpleCount(job: Job, src: Tree, env: Env): nat {
    if job.compressBackup then ZipCount(src, job.sourcePath, job.excludePatterns)
    else |CopySpec(src, job.sourcePath, job.excludePatterns, env.copyFailing)|
  }

  /** The `backup_files` row for a simple backup. */
  ghost function SimpleRecord(job: Job, src: Tree, env: Env): FileData
    requires InRange(env.now)
  {
    FileData(job.id, SimpleBackupPath(job, env.now), SimpleBackup, env.now, SimpleSize(job, src, env))
  }

  /** `get_folder_size` of the artifact: the copied files' sizes, or 0 for an
      archive, which is a file with nothing below it. */
  ghost function SimpleSize(job: Job, src: Tree, env: Env): nat {
    var copy := CopySpec(src, job.sourcePath, job.excludePatterns, env.copyFailing);
    if job.compressBackup then 0 else SizeOf(copy, copy.Keys)
  }

  /** One `'simple'` hash row was appended, holding the newest file time of the source. */
  ghost predicate SimpleHashRecorded(before: seq<Row<HashData>>, counter: nat, after: seq<Row<HashData>>,
                                     job: Job, src: Tree, now: int) {
    && |after| == |before| + 1
    && IsMaxMtime(src, after[|before|].data.mtime)
    && after == Append(before, counter, HashData(job.id, SimpleHash, after[|before|].data.mtime, now))
  }

  /** The simple executor takes its skip path: not forced, and the change
      check finds nothing new. */
  predicate SimpleSkips(job: Job, force: bool, disk: Disk, hashes: seq<Row<HashData>>) {
    !force && !SourceChanged(disk, job.sourcePath, LatestHash(hashes, job.id, SimpleHash))
  }

  /** The result of `execute_simple_job`: a raised fault, no files on the skip
      path, or the artifact's count. */
  function SimpleOutcome(job: Job, force: bool, env: Env, disk: Disk, hashes: seq<Row<HashData>>): Result<nat> {
    if env.fault.Some? then Err(env.fault.value)
    else if SimpleSkips(job, force, disk, hashes) then Ok(0)
    else Ok(SimpleCount(job, SourceTree(disk, job.sourcePath), env))
  }

  /** What `notify_job_result(job, status, message, files, duration)` does
      under the notification mode `mode`. */
  function JobNotice(job: Job, mode: string, status: string, message: string, files: int, duration: nat): Action {
    Notify.NotifyJobResult(job.enableNotifications, mode, job.id, job.name, status, message, files, duration)
  }

  /** The tree the mirror step copies from. On the first run the mirror is
      removed before the copy, which matters only when source and mirror are
      one folder. */
  function MirrorSource(job: Job, disk: Disk, first: bool): Tree {
    if first then SourceTree(disk - {SyncPath(job)}, job.sourcePath) else SourceTree(disk, job.sourcePath)
  }

  /** The mirror step: the first run's full copy, which raises nothing, or a
      later run's sync, which raises at a walked source directory that meets a
      mirror file or at a copy into a mirror directory that holds a directory
      of the file's name. The count is every entry of the first copy, or the
      files a sync copied and deleted. */
  function MirrorResult(job: Job, src: Tree, base: Tree, first: bool, env: Env): Result<Synced> {
    if first then
      var copy := CopySpec(src, job.sourcePath, job.excludePatterns, env.copyFailing);
      Ok(Synced(copy, |copy|))
    else SyncResult(src, base, job.sourcePath, job.excludePatterns, env.olderDirs, SyncPath(job), job.preserveDeleted)
  }

  /** The `backup_files` row of a snapshot of `mirror`. */
  ghost function SnapshotRecord(job: Job, mirror: Tree, now: int): FileData
    requires InRange(now)
  {
    FileData(job.id, SnapshotPath(job, now), IncrementalSnapshot, now, SizeOf(mirror, mirror.Keys))
  }

  /** A snapshot is wanted and due but its path is taken: `copytree` raises. */
  function SnapshotError(job: Job, env: Env, disk: Disk): Option<string>
    requires InRange(env.now)
  {
    var snap := SnapshotPath(job, env.now);
    if job.createSnapshots && env.snapshotDue && snap in disk then Some(Exists(snap)) else None
  }

  /** The disk after the snapshot step: a copy of the mirror at the snapshot
      path when one is wanted, due and possible. */
  function SnapshotDisk(job: Job, env: Env, disk: Disk): Disk
    requires InRange(env.now) && SyncPath(job) in disk && disk[SyncPath(job)].Folder?
  {
    if job.createSnapshots && env.snapshotDue && SnapshotError(job, env, disk).None?
    then disk[SnapshotPath(job, env.now) := Folder(disk[SyncPath(job)].tree)]
    else disk
  }

  /** The `backup_files` rows after the snapshot step and retention; a failed
      snapshot leaves them as they were. */
  ghost function SnapshotFiles(job: Job, env: Env, disk: Disk, files: seq<Row<FileData>>, fileSeq: nat,
                               ps: seq<Row<PolicyData>>): seq<Row<FileData>>
    requires InRange(env.now) && SyncPath(job) in disk && disk[SyncPath(job)].Folder?
  {
    if SnapshotError(job, env, disk).Some? then files
    else if job.createSnapshots && env.snapshotDue
    then CleanupAll(Append(files, fileSeq, SnapshotRecord(job, disk[SyncPath(job)].tree, env.now)), ps, job.id, env.now)
    else CleanupAll(files, ps, job.id, env.now)
  }

  /** The result of an incremental run from the point the mirror folder
      exists: the error the sync or a taken snapshot path raises, or the count. */
  function IncrementalResult(job: Job, env: Env, disk: Disk, hashes: seq<Row<HashData>>): Result<nat>
    requires InRange(env.now) && SyncPath(job) in disk && disk[SyncPath(job)].Folder?
  {
    var first := LatestHash(hashes, job.id, IncrementalHash).None?;
    var src := MirrorSource(job, disk, first);
    var base := disk[SyncPath(job)].tree;
    match MirrorResult(job, src, base, first, env)
    case Err(e) => Err(e)
    case Ok(m) =>
      var mirrored := disk[SyncPath(job) := Folder(m.tree)];
      match SnapshotError(job, env, mirrored)
      case Some(e) => Err(e)
      case None => Ok(m.count)
  }

  /** The result of `execute_incremental_job`: a raised fault, the mirror path
      taken by an archive, or the run from the mirror folder on. */
  function IncrementalOutcome(job: Job, env: Env, disk: Disk, hashes: seq<Row<HashData>>): Result<nat>
    requires InRange(env.now)
  {
    if env.fault.Some? then Err(env.fault.value)
    else if SyncPath(job) in disk && disk[SyncPath(job)].Archive? then Err(Exists(SyncPath(job)))
    else IncrementalResult(job, env, MkDir(disk, SyncPath(job)), hashes)
  }

  /** What an incremental run does to the disk and the tables from the point
      the mirror folder exists (`disk`, with the tables as they were): a sync
      that raises changes nothing more; otherwise the mirror is written and a hash row
      appended, and the snapshot step follows. */
  ghost predicate IncrementalEffect(job: Job, env: Env, disk: Disk, hashes: seq<Row<HashData>>, hashSeq: nat,
                                    files: seq<Row<FileData>>, fileSeq: nat, ps: seq<Row<PolicyData>>,
                                    disk': Disk, hashes': seq<Row<HashData>>, files': seq<Row<FileData>>)
    requires InRange(env.now) && SyncPath(job) in disk && disk[SyncPath(job)].Folder?
  {
    var first := LatestHash(hashes, job.id, IncrementalHash).None?;
    var src := MirrorSource(job, disk, first);
    var base := disk[SyncPath(job)].tree;
    match MirrorResult(job, src, base, first, env)
    case Err(_) => disk' == disk && hashes' == hashes && files' == files
    case Ok(m) =>
      var mirrored := disk[SyncPath(job) := Folder(m.tree)];
      && hashes' == Append(hashes, hashSeq, HashData(job.id, IncrementalHash, env.now, env.now))
      && disk' == SnapshotDisk(job, env, mirrored)
      && files' == SnapshotFiles(job, env, mirrored, files, fileSeq, ps)
  }

  /** A successful incremental run leaves an `'incremental'` hash record, so
      the next run syncs instead of copying afresh; the mirror is a folder; and
      a snapshot taken is a copy of the mirror it was taken from. */
  lemma IncrementalSuccess(job: Job, env: Env, disk: Disk, hashes: seq<Row<HashData>>, hashSeq: nat,
                           files: seq<Row<FileData>>, fileSeq: nat, ps: seq<Row<PolicyData>>,
                           disk': Disk, hashes': seq<Row<HashData>>, files': seq<Row<FileData>>)
    requires InRange(env.now) && SyncPath(job) in disk && disk[SyncPath(job)].Folder?
    requires IncrementalEffect(job, env, disk, hashes, hashSeq, files, fileSeq, ps, disk', hashes', files')
    requires IncrementalResult(job, env, disk, hashes).Ok?
    ensures LatestHash(hashes', job.id, IncrementalHash).Some?
    ensures SyncPath(job) in disk' && disk'[SyncPath(job)].Folder?
    ensures job.createSnapshots && env.snapshotDue ==>
      SnapshotPath(job, env.now) in disk' && disk'[SnapshotPath(job, env.now)] == disk'[SyncPath(job)]
  {
    MirrorNameIsOwn(job, env.now);
    var added := Row(hashSeq + 1, HashData(job.id, IncrementalHash, env.now, env.now));
    assert added in hashes' && HashOf(job.id, IncrementalHash)(added);
  }

  // ---------------------------------------------------------------- the coordinator's record of a run

  /** How `execute_job` ends, from the job as it was and the disk and hash
      records it starts with. */
  function ExpectedRun(job: Job, force: bool, env: Env, disk: Disk, hashes: seq<Row<HashData>>): Run
    requires InRange(env.now)
  {
    if job.jobType == "Simple" then
      match SimpleOutcome(job, force, env, disk, hashes)
      case Err(e) => Raised(e)
      case Ok(n) => Done(n, SimpleSkips(job, force, disk, hashes))
    else if job.jobType == "Incremental" then
      match IncrementalOutcome(job, env, disk, hashes)
      case Err(e) => Raised(e)
      case Ok(n) => Done(n, false)
    else UnknownType
  }

  function StartLog(job: Job, force: bool, now: int): LogData {
    LogData(job.id, now, Started, Some(StartMessage(force)), None, 0)
  }

  function SkipLog(job: Job, now: int): LogData {
    LogData(job.id, now, Skipped, Some(SkipMessage), None, 0)
  }

  /** The `job_logs` row that closes a run: `error` for an unknown type (no
      duration) and for a raised exception, `completed` with the count. */
  function FinalLog(job: Job, env: Env, run: Run): LogData {
    match run
    case UnknownType => LogData(job.id, env.now, Failed, Some("Unknown job type: " + job.jobType), None, 0)
    case Raised(e) => LogData(job.id, env.now, Failed, Some("Job failed: " + e), Some(env.duration), 0)
    case Done(n, _) => LogData(job.id, env.now, Completed, Some("Job completed successfully"), Some(env.duration), n)
  }

  /** `job_logs` after a run that found the counter at `logSeq`: `started`,
      then the rest of the run. */
  function RunLogs(job: Job, force: bool, env: Env, run: Run, logs: seq<Row<LogData>>, logSeq: nat): seq<Row<LogData>> {
    RestLogs(job, env, run, Append(logs, logSeq, StartLog(job, force, env.now)), logSeq + 1)
  }

  /** The rows after `started`: the simple executor's `skipped` when it
      skipped, and the closing row. */
  function RestLogs(job: Job, env: Env, run: Run, logs: seq<Row<LogData>>, logSeq: nat): seq<Row<LogData>> {
    Append(SkipLogs(job, env, run, logs, logSeq), logSeq + SkipCount(run), FinalLog(job, env, run))
  }

  /** The rows the executor itself adds: one `skipped` row, or none. */
  function SkipLogs(job: Job, env: Env, run: Run, logs: seq<Row<LogData>>, logSeq: nat): seq<Row<LogData>> {
    if SkipCount(run) == 1 then Append(logs, logSeq, SkipLog(job, env.now)) else logs
  }

  function SkipCount(run: Run): nat {
    if run.Done? && run.skipped then 1 else 0
  }

  /** The job as the `try` block leaves it, `running` still set: stamped
      after a completed run, as it was otherwise. */
  function Finished(job: Job, now: int, run: Run): Job
    requires InRange(now)
  {
    if run.Done? then Stamped(job, now).(running := true) else job.(running := true)
  }

  /** `save_jobs` when `save` holds, nothing otherwise. */
  function SaveIf(save: bool, rows: seq<Row<JobData>>, jobs: seq<Job>, now: int): seq<Row<JobData>> {
    if save then SavedRows(rows, jobs, now) else rows
  }

  /** The notification that closes a run: none for an unknown type, `error`
      with the exception text, or `success` with the count. */
  function FinalNotice(job: Job, mode: string, env: Env, run: Run): Action {
    match run
    case UnknownType => Nothing
    case Raised(e) => JobNotice(job, mode, "error", e, 0, env.duration)
    case Done(n, _) => JobNotice(job, mode, "success", "", n, env.duration)
  }

  /** The skip notice of a skipped simple run, or nothing. */
  function SkipNotice(job: Job, mode: string, run: Run): Action {
    if run.Done? && run.skipped then JobNotice(job, mode, "skipped", "", 0, 0) else Nothing
  }

  /** The queue and the shown notices after a run. */
  function RunNotices(job: Job, mode: string, env: Env, run: Run, queue: seq<Queued>, shown: seq<Notice>): (seq<Queued>, seq<Notice>) {
    var mid := Deliver(queue, shown, SkipNotice(job, mode, run));
    Deliver(mid.0, mid.1, FinalNotice(job, mode, env, run))
  }

  lemma UpdateTwice<T>(s: seq<T>, k: nat, a: T, b: T)
    requires k < |s|
    ensures s[k := a][k := b] == s[k := b]
  {
  }

  /** The rows a run adds after `started` are the executor's, then the closing one. */
  lemma RestLogsSplit(job: Job, env: Env, run: Run, logs0: seq<Row<LogData>>, seq0: nat, logs1: seq<Row<LogData>>, seq1: nat)
    requires logs1 == SkipLogs(job, env, run, logs0, seq0) && seq1 == seq0 + SkipCount(run)
    ensures RestLogs(job, env, run, logs0, seq0) == Append(logs1, seq1, FinalLog(job, env, run))
  {
  }

  /** The notices a run delivers are the executor's, then the closing one. */
  lemma RunNoticesSplit(job: Job, mode: string, env: Env, run: Run, queue0: seq<Queued>, shown0: seq<Notice>,
                        queue1: seq<Queued>, shown1: seq<Notice>)
    requires (queue1, shown1) == Deliver(queue0, shown0, SkipNotice(job, mode, run))
    ensures RunNotices(job, mode, env, run, queue0, shown0) == Deliver(queue1, shown1, FinalNotice(job, mode, env, run))
  {
  }

  // ---------------------------------------------------------------- what a run leaves behind

  /** The run kind follows the job type: an unknown type never reaches an
      executor, and a simple run skips exactly when it is neither forced nor
      faulted and finds no change, counting no files then. */
  lemma RunKindByType(job: Job, force: bool, env: Env, disk: Disk, hashes: seq<Row<HashData>>)
    requires InRange(env.now)
    ensures ExpectedRun(job, force, env, disk, hashes).UnknownType? <==>
      job.jobType != "Simple" && job.jobType != "Incremental"
    ensures ExpectedRun(job, force, env, disk, hashes) == Done(0, true) <==>
      job.jobType == "Simple" && env.fault.None? && SimpleSkips(job, force, disk, hashes)
    ensures force ==> !ExpectedRun(job, force, env, disk, hashes).Done? || !ExpectedRun(job, force, env, disk, hashes).skipped
  {
  }

  /** A skipped simple run is still closed as a completed one: the log gets
      `started`, `skipped` and `completed` in that order, and in batch mode the
      queue gets a `skipped` result followed by a `success` one. */
  lemma SkippedRunStillCompletes(job: Job, force: bool, env: Env, logs: seq<Row<LogData>>, logSeq: nat,
                                 queue: seq<Queued>, shown: seq<Notice>)
    ensures var run := Done(0, true);
      && RunLogs(job, force, env, run, logs, logSeq) ==
           logs + [Row(logSeq + 1, StartLog(job, force, env.now)), Row(logSeq + 2, SkipLog(job, env.now)),
                   Row(logSeq + 3, LogData(job.id, env.now, Completed, Some("Job completed successfully"), Some(env.duration), 0))]
      && (job.enableNotifications ==>
            RunNotices(job, "batch", env, run, queue, shown) ==
              (queue + [Queued(job.id, job.name, "skipped", "", 0, 0),
                        Queued(job.id, job.name, "success", "", 0, env.duration)], shown))
  {
    if job.enableNotifications {
      var skip := Queued(job.id, job.name, "skipped", "", 0, 0);
      var done := Queued(job.id, job.name, "success", "", 0, env.duration);
      assert JobNotice(job, "batch", "skipped", "", 0, 0) == Enqueue(skip);
      assert JobNotice(job, "batch", "success", "", 0, env.duration) == Enqueue(done);
      assert queue + [skip] + [done] == queue + [skip, done];
    }
  }

  /** A run that raised or met an unknown job type leaves `last_run` and
      `next_run` as they were and saves nothing; the unknown type logs
      `started` and an `error` row without a duration and notifies nobody. */
  lemma FailedRunKeepsSchedule(job: Job, env: Env, run: Run, force: bool, rows: seq<Row<JobData>>, js: seq<Job>,
                               logs: seq<Row<LogData>>, logSeq: nat, mode: string, queue: seq<Queued>, shown: seq<Notice>)
    requires InRange(env.now) && !run.Done?
    ensures var j := Finished(job, env.now, run).(running := false);
      && j.lastRun == job.lastRun && j.nextRun == job.nextRun && !j.running
      && SaveIf(run.Done?, rows, js, env.now) == rows
    ensures run.UnknownType? ==>
      && RunLogs(job, force, env, run, logs, logSeq) ==
           logs + [Row(logSeq + 1, StartLog(job, force, env.now)),
                   Row(logSeq + 2, LogData(job.id, env.now, Failed, Some("Unknown job type: " + job.jobType), None, 0))]
      && RunNotices(job, mode, env, run, queue, shown) == (queue, shown)
  {
  }

  /** A completed run stamps `last_run` with a text that reads back as the
      run's time, and `next_run` with what the schedule gives from then. */
  lemma CompletedRunStamps(job: Job, env: Env, n: nat, skipped: bool)
    requires InRange(env.now)
    ensures var j := Finished(job, env.now, Done(n, skipped)).(running := false);
      && !j.running && j.lastRun.Some? && ParseStamp(j.lastRun.value) == Some(env.now)
      && (j.nextRun.Some? ==> ParseStamp(j.nextRun.value) == NextRun(job.scheduleType, job.scheduleValue, env.now))
      && (j.nextRun.None? <==> NextRun(job.scheduleType, job.scheduleValue, env.now).None?)
  {
    ParseFormatStamp(env.now);
  }

  // ---------------------------------------------------------------- manual runs

  /** `run_job_manual`'s filter over the selected ids, in selection order:
      the jobs found and idle are to be started, the names of the jobs found
      running are reported; an id without a job is passed over. */
  function ManualPick(js: seq<Job>, ids: seq<nat>): (seq<Job>, seq<string>)
    decreases |ids|
  {
    if ids == [] then ([], [])
    else
      var picked := ManualPick(js, ids[..|ids| - 1]);
      match Find(js, ids[|ids| - 1])
      case None => picked
      case Some(j) => if j.running then (picked.0, picked.1 + [j.name]) else (picked.0 + [j], picked.1)
  }

  /** Every job started was found idle under a selected id, and every selected
      id whose job is idle has it started; the reported names are exactly those
      of the selected jobs that were running. */
  lemma {:induction false} ManualPickSound(js: seq<Job>, ids: seq<nat>)
    ensures forall j :: j in ManualPick(js, ids).0 ==> !j.running && exists i :: 0 <= i < |ids| && Find(js, ids[i]) == Some(j)
    ensures forall i :: 0 <= i < |ids| && Find(js, ids[i]).Some? && !Find(js, ids[i]).value.running ==>
      Find(js, ids[i]).value in ManualPick(js, ids).0
    ensures forall n :: n in ManualPick(js, ids).1 <==>
      exists i :: 0 <= i < |ids| && Find(js, ids[i]).Some? && Find(js, ids[i]).value.running && Find(js, ids[i]).value.name == n
    decreases |ids|
  {
    if ids != [] {
      var front := ids[..|ids| - 1];
      ManualPickSound(js, front);
      forall i | 0 <= i < |front|
        ensures ids[i] == front[i]
      {
      }
    }
  }

  // ---------------------------------------------------------------- the scheduler pass

  /** The loop's refresh of one job: an active, idle job whose `next_run`
      needs it gets `calculate_next_run`; any other job is left alone. */
  function RefreshJob(j: Job, now: int): (r: Job)
    requires InRange(now)
  {
    if j.active && !j.running then j.(nextRun := Refreshed(j.scheduleType, j.scheduleValue, j.nextRun, now)) else j
  }

  /** The job list once the first `n` jobs have been examined. */
  function RefreshedUpTo(js: seq<Job>, now: int, n: nat): (r: seq<Job>)
    requires InRange(now)
  {
    seq(|js|, i requires 0 <= i < |js| => if i < n then RefreshJob(js[i], now) else js[i])
  }

  /** The job rows once the first `n` jobs have been examined: every refresh
      is followed by `save_jobs` of the list as it then is. */
  function PassRows(rows: seq<Row<JobData>>, js: seq<Job>, now: int, n: nat): seq<Row<JobData>>
    requires InRange(now) && n <= |js|
  {
    if n == 0 then rows
    else
      var before := PassRows(rows, js, now, n - 1);
      var j := js[n - 1];
      if RefreshDue(j, now) then SavedRows(before, RefreshedUpTo(js, now, n), now) else before
  }

  /** The job is examined and its stored `next_run` has passed or does not read as a time. */
  predicate RefreshDue(j: Job, now: int) {
    j.active && !j.running && NeedsRefresh(j.nextRun, now)
  }

  /** The job is examined and `should_run_job` holds with its refreshed `next_run`. */
  predicate DueNow(j: Job, now: int)
    requires InRange(now)
  {
    j.active && !j.running && ShouldRun(j.scheduleType, j.scheduleValue, j.lastRun, RefreshJob(j, now).nextRun, now)
  }

  /** The positions of the due jobs among the first `n`, in list order. */
  function DueUpTo(js: seq<Job>, now: int, n: nat): seq<nat>
    requires InRange(now) && n <= |js|
  {
    Positions(seq(n, i requires 0 <= i < n => DueNow(js[i], now)))
  }

  /** The positions holding `true`, in increasing order. */
  function Positions(flags: seq<bool>): seq<nat>
    decreases |flags|
  {
    if flags == [] then []
    else Positions(flags[..|flags| - 1]) + (if flags[|flags| - 1] then [|flags| - 1] else [])
  }

  lemma {:induction false} PositionsExact(flags: seq<bool>)
    ensures forall i :: i in Positions(flags) <==> 0 <= i < |flags| && flags[i]
    ensures forall a, b :: 0 <= a < b < |Positions(flags)| ==> Positions(flags)[a] < Positions(flags)[b]
    decreases |flags|
  {
    if flags != [] {
      var front := flags[..|flags| - 1];
      PositionsExact(front);
      assert forall i :: 0 <= i < |front| ==> front[i] == flags[i];
      assert forall a :: 0 <= a < |Positions(front)| ==> Positions(front)[a] in Positions(front);
    }
  }

  /** A position is dispatched exactly when that job is due, and the
      positions come in increasing order, each once. */
  lemma DueUpToExact(js: seq<Job>, now: int, n: nat)
    requires InRange(now) && n <= |js|
    ensures forall i :: i in DueUpTo(js, now, n) <==> 0 <= i < n && DueNow(js[i], now)
    ensures forall a, b :: 0 <= a < b < |DueUpTo(js, now, n)| ==> DueUpTo(js, now, n)[a] < DueUpTo(js, now, n)[b]
  {
    PositionsExact(seq(n, i requires 0 <= i < n => DueNow(js[i], now)));
  }

  lemma RefreshedStep(js: seq<Job>, now: int, i: nat)
    requires InRange(now) && i < |js|
    ensures RefreshedUpTo(js, now, i)[i := RefreshJob(js[i], now)] == RefreshedUpTo(js, now, i + 1)
  {
  }

  lemma DueUpToStep(js: seq<Job>, now: int, i: nat)
    requires InRange(now) && i < |js|
    ensures DueUpTo(js, now, i + 1) == DueUpTo(js, now, i) + (if DueNow(js[i], now) then [i] else [])
  {
    var flags := seq(i + 1, k requires 0 <= k < i + 1 => DueNow(js[k], now));
    assert flags[..i] == seq(i, k requires 0 <= k < i => DueNow(js[k], now));
  }

  /** An inactive or running job is neither refreshed nor dispatched. */
  lemma SkippedJobsUntouched(j: Job, now: int)
    requires InRange(now) && !(j.active && !j.running)
    ensures RefreshJob(j, now) == j && !DueNow(j, now)
  {
  }

  // ---------------------------------------------------------------- the application

  /** The parts of the main window's state a run touches. `queue` is the
      notification queue batch mode fills; `shown` the notices shown. */
  class App {
    const db: Database
    const jm: JobManager
    var disk: Disk
    var queue: seq<Queued>
    var shown: seq<Notice>
    const mode: string

    ghost predicate Valid()
      reads db
    {
      jm.db == db && db.Valid()
    }

    constructor (jm: JobManager, disk: Disk, mode: string)
      requires jm.Valid()
      ensures Valid() && this.jm == jm && this.db == jm.db && this.disk == disk && this.mode == mode
      ensures queue == [] && shown == []
    {
      this.jm := jm;
      this.db := jm.db;
      this.disk := disk;
      this.mode := mode;
      queue, shown := [], [];
    }

    /** `notify_job_result(job, status, message, files_processed, duration)`. */
    method NotifyJobResult(job: Job, status: string, message: string, files: int, duration: nat)
      modifies this`queue, this`shown
      ensures (queue, shown) == Deliver(old(queue), old(shown), JobNotice(job, mode, status, message, files, duration))
    {
      var a := JobNotice(job, mode, status, message, files, duration);
      match a
      case Nothing =>
      case Enqueue(item) =>
        queue := queue + [item];
      case Show(n) =>
        shown := shown + [n];
    }

    /** `has_changes_simple(job)`. */
    method HasChangesSimple(job: Job) returns (changed: bool)
      ensures changed == SourceChanged(disk, job.sourcePath, LatestHash(db.hashes, job.id, SimpleHash))
    {
      if job.sourcePath !in disk {
        return false;
      }
      var m := MaxMtime(SourceTree(disk, job.sourcePath));
      var last := LatestHash(db.hashes, job.id, SimpleHash);
      if last.None? {
        return true;
      }
      changed := m > last.value.data.mtime;
      if changed && m != 0 {
        assert NewerFile(SourceTree(disk, job.sourcePath), last.value.data.mtime);
      }
    }

    /** `update_backup_hash(job, source_path)`: records the newest file time of
        the source tree as a new `'simple'` row. */
    method UpdateSimpleHash(job: Job, src: Tree, now: int)
      requires Valid()
      modifies db`hashes, db`hashSeq
      ensures Valid()
      ensures |db.hashes| == |old(db.hashes)| + 1 && db.hashes[..|old(db.hashes)|] == old(db.hashes)
      ensures var m := db.hashes[|old(db.hashes)|].data.mtime;
        && IsMaxMtime(src, m)
        && db.hashes == Append(old(db.hashes), old(db.hashSeq), HashData(job.id, SimpleHash, m, now))
      ensures db.hashSeq == old(db.hashSeq) + 1
    {
      var m := MaxMtime(src);
      db.UpdateBackupHash(job.id, SimpleHash, m, now);
    }

    /** `apply_retention_policies(job)`: for each enabled policy of the job the
        store prunes the records; when it removed any, the file-system step
        selects from the records left and deletes the selected artifacts. Since
        the store already pruned them, that selection is always empty and the
        disk is never touched. */
    method ApplyRetentionPolicies(jobId: JobId, now: int, failing: set<string>)
      requires Valid()
      modifies this`disk, db`files
      ensures Valid()
      ensures disk == old(disk)
      ensures db.files == CleanupAll(old(db.files), Policies(db.policies, db.jobs, Some(jobId)), jobId, now)
    {
      var ps := Policies(db.policies, db.jobs, Some(jobId));
      var i := 0;
      while i < |ps|
        invariant 0 <= i <= |ps|
        invariant Valid() && disk == old(disk)
        invariant CleanupAll(db.files, ps[i..], jobId, now) == CleanupAll(old(db.files), ps, jobId, now)
      {
        var p := ps[i].data;
        PolicyNameRoundTrip(p.policyType);
        ghost var before := db.files;
        var count := db.CleanupOldBackups(jobId, PolicyName(p.policyType), p.policyValue, now);
        if count > 0 {
          var list := BackupFiles(db.files, db.jobs, Some(jobId), None);
          SelectionAfterCleanupIsEmpty(before, db.fileSeq, db.jobs, jobId, p.policyType, p.policyValue, now);
          var victims := SelectForDeletion(list, p.policyType, p.policyValue, now);
          NothingSelectedNothingDeleted(disk, failing);
          disk := DeletePaths(disk, victims, failing);
        }
        assert ps[i..][1..] == ps[i + 1..];
        i := i + 1;
      }
    }

    /** `execute_simple_job(job, force)`: unless forced or changed, it logs
        and notifies the skip; otherwise it takes the backup. Retention runs
        either way. */
    method ExecuteSimpleJob(job: Job, force: bool, env: Env) returns (r: Result<nat>, skipped: bool)
      requires Valid() && InRange(env.now)
      modifies this`disk, this`queue, this`shown, db`hashes, db`hashSeq, db`logs, db`logSeq, db`files, db`fileSeq
      ensures Valid()
      ensures r == SimpleOutcome(job, force, env, old(disk), old(db.hashes))
      ensures skipped <==> env.fault.None? && SimpleSkips(job, force, old(disk), old(db.hashes))
      ensures db.logSeq == old(db.logSeq) + if skipped then 1 else 0
      ensures env.fault.Some? ==>
        && disk == old(disk) && queue == old(queue) && shown == old(shown)
        && db.hashes == old(db.hashes) && db.logs == old(db.logs) && db.files == old(db.files)
      ensures skipped ==>
        && disk == old(disk) && db.hashes == old(db.hashes)
        && db.logs == Append(old(db.logs), old(db.logSeq), SkipLog(job, env.now))
        && (queue, shown) == Deliver(old(queue), old(shown), JobNotice(job, mode, "skipped", "", 0, 0))
        && db.files == CleanupAll(old(db.files), Policies(db.policies, db.jobs, Some(job.id)), job.id, env.now)
      ensures env.fault.None? && !skipped ==>
        var src := SourceTree(old(disk), job.sourcePath);
        && disk == old(disk)[SimpleBackupPath(job, env.now) := SimpleArtifact(job, src, env)]
        && SimpleHashRecorded(old(db.hashes), old(db.hashSeq), db.hashes, job, src, env.now)
        && db.logs == old(db.logs) && queue == old(queue) && shown == old(shown)
        && db.files == CleanupAll(Append(old(db.files), old(db.fileSeq), SimpleRecord(job, src, env)),
                                  Policies(db.policies, db.jobs, Some(job.id)), job.id, env.now)
    {
      if env.fault.Some? {
        return Err(env.fault.value), false;
      }
      var changed := force;
      if !changed {
        changed := HasChangesSimple(job);
      }
      var files := SimpleRun(job, changed, env);
      r, skipped := Ok(files), !changed;
    }

    /** The rest of `execute_simple_job` once the change check has answered. */
    method SimpleRun(job: Job, changed: bool, env: Env) returns (files: nat)
      requires Valid() && InRange(env.now)
      modifies this`disk, this`queue, this`shown, db`hashes, db`hashSeq, db`logs, db`logSeq, db`files, db`fileSeq
      ensures Valid()
      ensures db.logSeq == old(db.logSeq) + if changed then 0 else 1
      ensures !changed ==>
        && files == 0 && disk == old(disk) && db.hashes == old(db.hashes)
        && db.logs == Append(old(db.logs), old(db.logSeq), SkipLog(job, env.now))
        && (queue, shown) == Deliver(old(queue), old(shown), JobNotice(job, mode, "skipped", "", 0, 0))
        && db.files == CleanupAll(old(db.files), Policies(db.policies, db.jobs, Some(job.id)), job.id, env.now)
      ensures changed ==>
        var src := SourceTree(old(disk), job.sourcePath);
        && disk == old(disk)[SimpleBackupPath(job, env.now) := SimpleArtifact(job, src, env)]
        && files == SimpleCount(job, src, env)
        && SimpleHashRecorded(old(db.hashes), old(db.hashSeq), db.hashes, job, src, env.now)
        && db.logs == old(db.logs) && queue == old(queue) && shown == old(shown)
        && db.files == CleanupAll(Append(old(db.files), old(db.fileSeq), SimpleRecord(job, src, env)),
                                  Policies(db.policies, db.jobs, Some(job.id)), job.id, env.now)
    {
      if changed {
        files := BackupThenRetain(job, env);
      } else {
        SkipThenRetain(job, env);
        files := 0;
      }
    }

    /** The backup branch, then retention. */
    method BackupThenRetain(job: Job, env: Env) returns (files: nat)
      requires Valid() && InRange(env.now)
      modifies this`disk, db`hashes, db`hashSeq, db`files, db`fileSeq
      ensures Valid()
      ensures var src := SourceTree(old(disk), job.sourcePath);
        && disk == old(disk)[SimpleBackupPath(job, env.now) := SimpleArtifact(job, src, env)]
        && files == SimpleCount(job, src, env)
        && SimpleHashRecorded(old(db.hashes), old(db.hashSeq), db.hashes, job, src, env.now)
        && db.files == CleanupAll(Append(old(db.files), old(db.fileSeq), SimpleRecord(job, src, env)),
                                  Policies(db.policies, db.jobs, Some(job.id)), job.id, env.now)
    {
      files := TakeSimpleBackup(job, env);
      ApplyRetentionPolicies(job.id, env.now, env.deleteFailing);
    }

    /** The skip branch, then retention. */
    method SkipThenRetain(job: Job, env: Env)
      requires Valid()
      modifies this`disk, this`queue, this`shown, db`logs, db`logSeq, db`files
      ensures Valid()
      ensures disk == old(disk)
      ensures db.logs == Append(old(db.logs), old(db.logSeq), SkipLog(job, env.now))
      ensures db.logSeq == old(db.logSeq) + 1
      ensures (queue, shown) == Deliver(old(queue), old(shown), JobNotice(job, mode, "skipped", "", 0, 0))
      ensures db.files == CleanupAll(old(db.files), Policies(db.policies, db.jobs, Some(job.id)), job.id, env.now)
    {
      RecordSkip(job, env.now);
      ApplyRetentionPolicies(job.id, env.now, env.deleteFailing);
    }

    /** The skip path: the `skipped` log row and the skip notification. */
    method RecordSkip(job: Job, now: int)
      requires Valid()
      modifies db`logs, db`logSeq, this`queue, this`shown
      ensures Valid()
      ensures db.logs == Append(old(db.logs), old(db.logSeq), SkipLog(job, now))
      ensures db.logSeq == old(db.logSeq) + 1
      ensures (queue, shown) == Deliver(old(queue), old(shown), JobNotice(job, mode, "skipped", "", 0, 0))
    {
      db.AddJobLog(job.id, Skipped, Some(SkipMessage), None, 0, now);
      NotifyJobResult(job, "skipped", "", 0, 0);
    }

    /** The backup itself: the timestamped folder or archive, the source's
        newest file time, and the artifact's record. */
    method TakeSimpleBackup(job: Job, env: Env) returns (files: nat)
      requires Valid() && InRange(env.now)
      modifies this`disk, db`hashes, db`hashSeq, db`files, db`fileSeq
      ensures Valid()
      ensures var src := SourceTree(old(disk), job.sourcePath);
        && disk == old(disk)[SimpleBackupPath(job, env.now) := SimpleArtifact(job, src, env)]
        && files == SimpleCount(job, src, env)
        && SimpleHashRecorded(old(db.hashes), old(db.hashSeq), db.hashes, job, src, env.now)
        && db.files == Append(old(db.files), old(db.fileSeq), SimpleRecord(job, src, env))
        && db.fileSeq == old(db.fileSeq) + 1
    {
      var src := SourceTree(disk, job.sourcePath);
      var path := SimpleBackupPath(job, env.now);
      var size;
      files, size := WriteArtifact(job, src, path, env);
      UpdateSimpleHash(job, src, env.now);
      var _ := db.AddBackupFile(job.id, path, SimpleBackup, Some(env.now), size, env.now);
    }

    /** `create_zip_backup` or `copy_with_exclusions` into `path`, with the
        count and the size `execute_simple_job` takes of the result. */
    method WriteArtifact(job: Job, src: Tree, path: string, env: Env) returns (files: nat, size: nat)
      modifies this`disk
      ensures disk == old(disk)[path := SimpleArtifact(job, src, env)]
      ensures files == SimpleCount(job, src, env) && size == SimpleSize(job, src, env)
    {
      if job.compressBackup {
        disk := disk[path := Archive(ZipMembers(src, job.sourcePath, job.excludePatterns, env.copyFailing))];
        files := ZipCount(src, job.sourcePath, job.excludePatterns);
        size := 0;
      } else {
        var copy := CopyWithExclusions(src, job.sourcePath, job.excludePatterns, env.copyFailing);
        disk := disk[path := Folder(copy)];
        files := |copy|;
        size := FolderSize(copy);
      }
    }

    /** `execute_incremental_job(job)`: makes sure the mirror folder exists,
        fills it by a full copy on the first run (no `'incremental'` hash
        record yet) or by a sync afterwards, records the run as a new
        `'incremental'` hash row, takes a snapshot when one is wanted and due,
        and applies retention. */
    method ExecuteIncrementalJob(job: Job, env: Env) returns (r: Result<nat>)
      requires Valid() && InRange(env.now)
      modifies this`disk, db`hashes, db`hashSeq, db`files, db`fileSeq
      ensures Valid()
      ensures r == IncrementalOutcome(job, env, old(disk), old(db.hashes))
      ensures env.fault.Some? || (SyncPath(job) in old(disk) && old(disk)[SyncPath(job)].Archive?) ==>
        disk == old(disk) && db.hashes == old(db.hashes) && db.files == old(db.files)
      ensures env.fault.None? && !(SyncPath(job) in old(disk) && old(disk)[SyncPath(job)].Archive?) ==>
        IncrementalEffect(job, env, MkDir(old(disk), SyncPath(job)), old(db.hashes), old(db.hashSeq), old(db.files), old(db.fileSeq),
                          Policies(db.policies, db.jobs, Some(job.id)), disk, db.hashes, db.files)
    {
      if env.fault.Some? {
        return Err(env.fault.value);
      }
      var sync := SyncPath(job);
      if sync in disk && disk[sync].Archive? {
        return Err(Exists(sync));
      }
      disk := MkDir(disk, sync);
      r := IncrementalRun(job, env);
    }

    /** The incremental run once the mirror folder exists. */
    method IncrementalRun(job: Job, env: Env) returns (r: Result<nat>)
      requires Valid() && InRange(env.now)
      requires SyncPath(job) in disk && disk[SyncPath(job)].Folder?
      modifies this`disk, db`hashes, db`hashSeq, db`files, db`fileSeq
      ensures Valid()
      ensures r == IncrementalResult(job, env, old(disk), old(db.hashes))
      ensures IncrementalEffect(job, env, old(disk), old(db.hashes), old(db.hashSeq), old(db.files), old(db.fileSeq),
                                Policies(db.policies, db.jobs, Some(job.id)), disk, db.hashes, db.files)
    {
      var first := LatestHash(db.hashes, job.id, IncrementalHash).None?;
      r := MirrorStep(job, env, first);
      if r.Ok? {
        r := RecordAndSnapshot(job, env, r.value);
      }
    }

    /** After a successful mirror step: the `'incremental'` hash row, then the
        snapshot step and retention. */
    method RecordAndSnapshot(job: Job, env: Env, count: nat) returns (r: Result<nat>)
      requires Valid() && InRange(env.now)
      requires SyncPath(job) in disk && disk[SyncPath(job)].Folder?
      modifies this`disk, db`hashes, db`hashSeq, db`files, db`fileSeq
      ensures Valid()
      ensures db.hashes == Append(old(db.hashes), old(db.hashSeq), HashData(job.id, IncrementalHash, env.now, env.now))
      ensures r == match SnapshotError(job, env, old(disk)) case Some(e) => Err(e) case None => Ok(count)
      ensures disk == SnapshotDisk(job, env, old(disk))
      ensures db.files == SnapshotFiles(job, env, old(disk), old(db.files), old(db.fileSeq), Policies(db.policies, db.jobs, Some(job.id)))
    {
      db.UpdateBackupHash(job.id, IncrementalHash, env.now, env.now);
      var err := SnapshotThenRetain(job, env);
      r := if err.Some? then Err(err.value) else Ok(count);
    }

    /** The full copy or the sync into the mirror. */
    method MirrorStep(job: Job, env: Env, first: bool) returns (r: Result<nat>)
      requires SyncPath(job) in disk && disk[SyncPath(job)].Folder?
      modifies this`disk
      ensures match MirrorResult(job, MirrorSource(job, old(disk), first), old(disk)[SyncPath(job)].tree, first, env)
        case Err(e) => r == Err(e) && disk == old(disk)
        case Ok(m) => r == Ok(m.count) && disk == old(disk)[SyncPath(job) := Folder(m.tree)]
    {
      var sync := SyncPath(job);
      var base := disk[sync].tree;
      if first {
        var src := SourceTree(disk - {sync}, job.sourcePath);
        var copy := CopyWithExclusions(src, job.sourcePath, job.excludePatterns, env.copyFailing);
        disk := disk[sync := Folder(copy)];
        r := Ok(|copy|);
      } else {
        var src := SourceTree(disk, job.sourcePath);
        var synced := SyncIncremental(src, base, job.sourcePath, job.excludePatterns, env.olderDirs, sync, job.preserveDeleted);
        if synced.Err? {
          return Err(synced.error);
        }
        disk := disk[sync := Folder(synced.value.tree)];
        r := Ok(synced.value.count);
      }
    }

    /** `create_incremental_snapshot` when the job wants snapshots and one is
        due, then retention. `copytree` refuses a snapshot path that is taken. */
    method SnapshotThenRetain(job: Job, env: Env) returns (err: Option<string>)
      requires Valid() && InRange(env.now)
      requires SyncPath(job) in disk && disk[SyncPath(job)].Folder?
      modifies this`disk, db`files, db`fileSeq
      ensures Valid()
      ensures err == SnapshotError(job, env, old(disk))
      ensures disk == SnapshotDisk(job, env, old(disk))
      ensures db.files == SnapshotFiles(job, env, old(disk), old(db.files), old(db.fileSeq), Policies(db.policies, db.jobs, Some(job.id)))
    {
      var sync := SyncPath(job);
      var mirror := disk[sync].tree;
      if job.createSnapshots && env.snapshotDue {
        var snap := SnapshotPath(job, env.now);
        if snap in disk {
          return Some(Exists(snap));
        }
        disk := disk[snap := Folder(mirror)];
        var size := FolderSize(mirror);
        var _ := db.AddBackupFile(job.id, snap, IncrementalSnapshot, Some(env.now), size, env.now);
      }
      ApplyRetentionPolicies(job.id, env.now, env.deleteFailing);
      err := None;
    }

    // -------------------------------------------------------------- execute_job

    /** `execute_job(job, force)` on the `k`-th job of the list: `running` is
        set for the run and reset on every exit; only a completed run moves
        `last_run` and `next_run` and saves the list, with `running` still set
        in the saved rows. The executors are handed the job as it was before
        `running` was set, which they do not read. */
    method ExecuteJob(k: nat, force: bool, env: Env) returns (run: Run)
      requires Valid() && k < |jm.jobs| && InRange(env.now)
      modifies jm`jobs, db`jobs, db`hashes, db`hashSeq, db`logs, db`logSeq, db`files, db`fileSeq
      modifies this`disk, this`queue, this`shown
      ensures Valid()
      ensures run == ExpectedRun(old(jm.jobs)[k], force, env, old(disk), old(db.hashes))
      ensures jm.jobs == old(jm.jobs)[k := Finished(old(jm.jobs)[k], env.now, run).(running := false)]
      ensures db.jobs == SaveIf(run.Done?, old(db.jobs), old(jm.jobs)[k := Finished(old(jm.jobs)[k], env.now, run)], env.now)
      ensures db.logs == RunLogs(old(jm.jobs)[k], force, env, run, old(db.logs), old(db.logSeq))
      ensures (queue, shown) == RunNotices(old(jm.jobs)[k], mode, env, run, old(queue), old(shown))
    {
      var job := jm.jobs[k];
      ghost var jobs, logs0, seq0 := jm.jobs, db.logs, db.logSeq;
      StartRun(k, force, env.now);
      assert db.logs == Append(logs0, seq0, StartLog(job, force, env.now)) && db.logSeq == seq0 + 1;
      run := RunBody(k, job, force, env);
      ghost var fin := Finished(job, env.now, run);
      UpdateTwice(jobs, k, job.(running := true), fin);
      ClearRunning(k);
      UpdateTwice(jobs, k, fin, fin.(running := false));
    }

    /** The `finally` block: `running` is reset whatever the run did. */
    method ClearRunning(k: nat)
      requires k < |jm.jobs|
      modifies jm`jobs
      ensures jm.jobs == old(jm.jobs)[k := old(jm.jobs)[k].(running := false)]
    {
      jm.jobs := jm.jobs[k := jm.jobs[k].(running := false)];
    }

    /** The `try` block once `started` is logged: the executor, then the
        closing row and notification. */
    method RunBody(k: nat, job: Job, force: bool, env: Env) returns (run: Run)
      requires Valid() && k < |jm.jobs| && InRange(env.now) && jm.jobs[k] == job.(running := true)
      modifies jm`jobs, db`jobs, db`hashes, db`hashSeq, db`logs, db`logSeq, db`files, db`fileSeq
      modifies this`disk, this`queue, this`shown
      ensures Valid()
      ensures run == ExpectedRun(job, force, env, old(disk), old(db.hashes))
      ensures jm.jobs == old(jm.jobs)[k := Finished(job, env.now, run)]
      ensures db.jobs == SaveIf(run.Done?, old(db.jobs), jm.jobs, env.now)
      ensures db.logs == RestLogs(job, env, run, old(db.logs), old(db.logSeq))
      ensures (queue, shown) == RunNotices(job, mode, env, run, old(queue), old(shown))
    {
      ghost var logs0, seq0, queue0, shown0 := db.logs, db.logSeq, queue, shown;
      run := Dispatch(job, force, env);
      ghost var logs1, seq1, queue1, shown1 := db.logs, db.logSeq, queue, shown;
      FinishRun(k, job, run, env);
      RestLogsSplit(job, env, run, logs0, seq0, logs1, seq1);
      RunNoticesSplit(job, mode, env, run, queue0, shown0, queue1, shown1);
    }

    /** Sets `running` and logs `started`. */
    method StartRun(k: nat, force: bool, now: int)
      requires Valid() && k < |jm.jobs|
      modifies jm`jobs, db`logs, db`logSeq
      ensures Valid()
      ensures jm.jobs == old(jm.jobs)[k := old(jm.jobs)[k].(running := true)]
      ensures db.logs == Append(old(db.logs), old(db.logSeq), StartLog(old(jm.jobs)[k], force, now))
      ensures db.logSeq == old(db.logSeq) + 1
    {
      jm.jobs := jm.jobs[k := jm.jobs[k].(running := true)];
      db.AddJobLog(jm.jobs[k].id, Started, Some(StartMessage(force)), None, 0, now);
    }

    /** The executor the job type names; an unknown type runs none. */
    method Dispatch(job: Job, force: bool, env: Env) returns (run: Run)
      requires Valid() && InRange(env.now)
      modifies db`hashes, db`hashSeq, db`logs, db`logSeq, db`files, db`fileSeq, this`disk, this`queue, this`shown
      ensures Valid()
      ensures run == ExpectedRun(job, force, env, old(disk), old(db.hashes))
      ensures db.logs == SkipLogs(job, env, run, old(db.logs), old(db.logSeq))
      ensures db.logSeq == old(db.logSeq) + SkipCount(run)
      ensures (queue, shown) == Deliver(old(queue), old(shown), SkipNotice(job, mode, run))
    {
      if job.jobType == "Simple" {
        run := DispatchSimple(job, force, env);
      } else if job.jobType == "Incremental" {
        run := DispatchIncremental(job, env);
      } else {
        run := UnknownType;
      }
    }

    method DispatchIncremental(job: Job, env: Env) returns (run: Run)
      requires Valid() && InRange(env.now) && job.jobType == "Incremental"
      modifies db`hashes, db`hashSeq, db`files, db`fileSeq, this`disk
      ensures Valid()
      ensures run == ExpectedRun(job, false, env, old(disk), old(db.hashes))
      ensures SkipCount(run) == 0 && SkipNotice(job, mode, run) == Nothing
    {
      var r := ExecuteIncrementalJob(job, env);
      run := if r.Ok? then Done(r.value, false) else Raised(r.error);
    }

    method DispatchSimple(job: Job, force: bool, env: Env) returns (run: Run)
      requires Valid() && InRange(env.now) && job.jobType == "Simple"
      modifies db`hashes, db`hashSeq, db`logs, db`logSeq, db`files, db`fileSeq, this`disk, this`queue, this`shown
      ensures Valid()
      ensures run == ExpectedRun(job, force, env, old(disk), old(db.hashes))
      ensures db.logs == SkipLogs(job, env, run, old(db.logs), old(db.logSeq))
      ensures db.logSeq == old(db.logSeq) + SkipCount(run)
      ensures (queue, shown) == Deliver(old(queue), old(shown), SkipNotice(job, mode, run))
    {
      var r, skipped := ExecuteSimpleJob(job, force, env);
      run := if r.Ok? then Done(r.value, skipped) else Raised(r.error);
    }

    /** The closing row and notification for `job`, the `k`-th job; a
        completed run first stamps the job and saves the list. */
    method FinishRun(k: nat, job: Job, run: Run, env: Env)
      requires Valid() && k < |jm.jobs| && InRange(env.now) && jm.jobs[k] == job.(running := true)
      modifies jm`jobs, db`jobs, db`logs, db`logSeq, this`queue, this`shown
      ensures Valid()
      ensures jm.jobs == old(jm.jobs)[k := Finished(job, env.now, run)]
      ensures db.jobs == SaveIf(run.Done?, old(db.jobs), jm.jobs, env.now)
      ensures db.logs == Append(old(db.logs), old(db.logSeq), FinalLog(job, env, run))
      ensures db.logSeq == old(db.logSeq) + 1
      ensures (queue, shown) == Deliver(old(queue), old(shown), FinalNotice(job, mode, env, run))
    {
      assert jm.jobs == jm.jobs[k := job.(running := true)];
      match run
      case UnknownType =>
        db.AddJobLog(job.id, Failed, Some("Unknown job type: " + job.jobType), None, 0, env.now);
      case Raised(e) =>
        db.AddJobLog(job.id, Failed, Some("Job failed: " + e), Some(env.duration), 0, env.now);
        NotifyJobResult(job, "error", e, 0, env.duration);
      case Done(n, _) =>
        StampAndSave(k, job, env.now);
        db.AddJobLog(job.id, Completed, Some("Job completed successfully"), Some(env.duration), n, env.now);
        NotifyJobResult(job, "success", "", n, env.duration);
    }

    /** `last_run` is now, `next_run` recomputed, and the list saved. */
    method StampAndSave(k: nat, job: Job, now: int)
      requires Valid() && k < |jm.jobs| && InRange(now) && jm.jobs[k] == job.(running := true)
      modifies jm`jobs, db`jobs
      ensures Valid()
      ensures jm.jobs == old(jm.jobs)[k := Stamped(job, now).(running := true)]
      ensures db.jobs == SavedRows(old(db.jobs), jm.jobs, now)
    {
      jm.jobs := jm.jobs[k := jm.jobs[k].(lastRun := Some(FormatStamp(now)))];
      CalculateNextRun(k, now);
      jm.SaveJobs(now);
    }

    /** `calculate_next_run(job)` on the `k`-th job. */
    method CalculateNextRun(k: nat, now: int)
      requires k < |jm.jobs| && InRange(now)
      modifies jm`jobs
      ensures jm.jobs == old(jm.jobs)[k := old(jm.jobs)[k].(nextRun := NextRunText(old(jm.jobs)[k].scheduleType, old(jm.jobs)[k].scheduleValue, now))]
    {
      jm.jobs := jm.jobs[k := jm.jobs[k].(nextRun := NextRunText(jm.jobs[k].scheduleType, jm.jobs[k].scheduleValue, now))];
    }

    // -------------------------------------------------------------- manual runs and the scheduler

    /** `run_job_manual` over the selected ids: which jobs to start and which
        names to report as already running. */
    method ManualRun(ids: seq<nat>) returns (toRun: seq<Job>, busy: seq<string>)
      ensures (toRun, busy) == ManualPick(jm.jobs, ids)
    {
      toRun, busy := [], [];
      var i := 0;
      while i < |ids|
        invariant 0 <= i <= |ids|
        invariant (toRun, busy) == ManualPick(jm.jobs, ids[..i])
      {
        assert ids[..i + 1][..i] == ids[..i];
        var job := jm.GetJobById(ids[i]);
        if job.Some? {
          if job.value.running {
            busy := busy + [job.value.name];
          } else {
            toRun := toRun + [job.value];
          }
        }
        i := i + 1;
      }
      assert ids[..i] == ids;
    }

    /** One pass of `scheduler_loop`: each active, idle job has its `next_run`
        recomputed and the list saved when the stored one has passed or does
        not read as a time, and is dispatched when `should_run_job` then holds.
        The dispatched jobs are returned as positions in the list. */
    method SchedulerPass(now: int) returns (due: seq<nat>)
      requires Valid() && InRange(now)
      modifies jm`jobs, db`jobs
      ensures Valid()
      ensures jm.jobs == RefreshedUpTo(old(jm.jobs), now, |old(jm.jobs)|)
      ensures db.jobs == PassRows(old(db.jobs), old(jm.jobs), now, |old(jm.jobs)|)
      ensures due == DueUpTo(old(jm.jobs), now, |old(jm.jobs)|)
    {
      ghost var js, rows := jm.jobs, db.jobs;
      due := [];
      var i := 0;
      while i < |jm.jobs|
        invariant Valid() && |jm.jobs| == |js| && 0 <= i <= |js|
        invariant jm.jobs == RefreshedUpTo(js, now, i)
        invariant db.jobs == PassRows(rows, js, now, i)
        invariant due == DueUpTo(js, now, i)
      {
        assert jm.jobs[i] == js[i];
        RefreshedStep(js, now, i);
        DueUpToStep(js, now, i);
        var isDue := Examine(i, now);
        if isDue {
          due := due + [i];
        }
        i := i + 1;
      }
    }

    /** The loop body for the `i`-th job. */
    method Examine(i: nat, now: int) returns (isDue: bool)
      requires Valid() && i < |jm.jobs| && InRange(now)
      modifies jm`jobs, db`jobs
      ensures Valid()
      ensures jm.jobs == old(jm.jobs)[i := RefreshJob(old(jm.jobs)[i], now)]
      ensures db.jobs == if RefreshDue(old(jm.jobs)[i], now) then SavedRows(old(db.jobs), jm.jobs, now) else old(db.jobs)
      ensures isDue == DueNow(old(jm.jobs)[i], now)
    {
      var job := jm.jobs[i];
      isDue := false;
      if job.active && !job.running {
        if NeedsRefresh(job.nextRun, now) {
          CalculateNextRun(i, now);
          jm.SaveJobs(now);
        } else {
          assert jm.jobs == jm.jobs[i := RefreshJob(job, now)];
        }
        isDue := ShouldRun(job.scheduleType, job.scheduleValue, job.lastRun, jm.jobs[i].nextRun, now);
      } else {
        assert jm.jobs == jm.jobs[i := RefreshJob(job, now)];
      }
    }
  }
}
