/** `delete_backup_files_from_fs`: which backup artifacts a retention policy
    removes from disk, judged on the records `get_backup_files(job_id)` returns
    (newest first), and the deletion loop. */
module Retention {
  import opened Wrappers
  import opened Text
  import opened Clock
  import opened Tables
  import opened Store
  import opened Files

  function Reverse<T>(s: seq<T>): (r: seq<T>)
    ensures |r| == |s| && forall i :: 0 <= i < |s| ==> r[i] == s[|s| - 1 - i]
  {
    if s == [] then [] else Reverse(s[1..]) + [s[0]]
  }

  /** The keep_size loop over the records oldest first, with the bytes kept so
      far: a record is picked when keeping it would pass the limit, and kept
      (its size added) otherwise. */
  function SizeScan(s: seq<Row<FileData>>, total: int, limit: int): seq<Row<FileData>> {
    if s == [] then []
    else if total + s[0].data.fileSize > limit then [s[0]] + SizeScan(s[1..], total, limit)
    else SizeScan(s[1..], total + s[0].data.fileSize, limit)
  }

  function CreatedBefore(cutoff: int): Row<FileData> -> bool {
    (r: Row<FileData>) => r.data.createdAt < cutoff
  }

  /** `files_to_delete` for a policy, over the newest-first list: keep_count
      takes `list[value:]`; keep_days the records created before `now` minus
      `value` days (nothing when that instant is outside what `datetime` holds,
      since the `OverflowError` ends the step); keep_size the oldest-first scan. */
  function Selection(list: seq<Row<FileData>>, kind: PolicyKind, value: int, now: int): seq<Row<FileData>> {
    match kind
    case KeepCount => PyDrop(list, value)
    case KeepDays =>
      if InRange(now - value * SecondsPerDay) then Filter(list, CreatedBefore(now - value * SecondsPerDay)) else []
    case KeepSize => SizeScan(Reverse(list), 0, SizeLimit(value))
  }

  /** The selection as `delete_backup_files_from_fs` computes it, keep_size
      with its running `total_size` and growing `files_to_delete`. */
  method SelectForDeletion(list: seq<Row<FileData>>, kind: PolicyKind, value: int, now: int) returns (victims: seq<Row<FileData>>)
    ensures victims == Selection(list, kind, value, now)
  {
    match kind
    case KeepCount =>
      victims := PyDrop(list, value);
    case KeepDays =>
      var cutoff := now - value * SecondsPerDay;
      victims := if InRange(cutoff) then Filter(list, CreatedBefore(cutoff)) else [];
    case KeepSize =>
      var limit := SizeLimit(value);
      var oldestFirst := Reverse(list);
      var total := 0;
      victims := [];
      var j := 0;
      while j < |oldestFirst|
        invariant 0 <= j <= |oldestFirst|
        invariant victims + SizeScan(oldestFirst[j..], total, limit) == SizeScan(oldestFirst, 0, limit)
      {
        var f := oldestFirst[j];
        assert oldestFirst[j..][1..] == oldestFirst[j + 1..];
        if total + f.data.fileSize > limit {
          victims := victims + [f];
        } else {
          total := total + f.data.fileSize;
        }
        j := j + 1;
      }
  }

  /** The scan keeps no more than the limit allows: the bytes kept plus those
      already counted stay within it, when those counted did. */
  lemma {:induction false} SizeScanWithinLimit(s: seq<Row<FileData>>, total: int, limit: int)
    requires total <= limit
    ensures total + SizeSum(s) - SizeSum(SizeScan(s, total, limit)) <= limit
  {
    if s != [] {
      if total + s[0].data.fileSize > limit {
        SizeScanWithinLimit(s[1..], total, limit);
        assert SizeScan(s, total, limit) == [s[0]] + SizeScan(s[1..], total, limit);
        SizeSumCons([s[0]], SizeScan(s[1..], total, limit));
      } else {
        SizeScanWithinLimit(s[1..], total + s[0].data.fileSize, limit);
      }
    }
  }

  /** When everything fits the scan picks nothing. */
  lemma {:induction false} SizeScanFits(s: seq<Row<FileData>>, total: int, limit: int)
    requires total + SizeSum(s) <= limit
    ensures SizeScan(s, total, limit) == []
  {
    if s != [] {
      SizeScanFits(s[1..], total + s[0].data.fileSize, limit);
    }
  }

  /** Whatever exceeds the limit on its own is always picked. */
  lemma {:induction false} SizeScanPicksOversized(s: seq<Row<FileData>>, total: int, limit: int, k: int)
    requires 0 <= k < |s| && total >= 0 && s[k].data.fileSize > limit
    ensures s[k] in SizeScan(s, total, limit)
  {
    if k > 0 {
      assert s[1..][k - 1] == s[k];
      var next := if total + s[0].data.fileSize > limit then total else total + s[0].data.fileSize;
      SizeScanPicksOversized(s[1..], next, limit, k - 1);
    }
  }

  lemma {:induction false} SizeSumCons(a: seq<Row<FileData>>, b: seq<Row<FileData>>)
    ensures SizeSum(a + b) == SizeSum(a) + SizeSum(b)
  {
    if a == [] {
      assert a + b == b;
    } else {
      assert (a + b)[0] == a[0] && (a + b)[1..] == a[1..] + b;
      SizeSumCons(a[1..], b);
    }
  }

  lemma {:induction false} SizeSumReverse(s: seq<Row<FileData>>)
    ensures SizeSum(Reverse(s)) == SizeSum(s)
  {
    if s != [] {
      SizeSumReverse(s[1..]);
      SizeSumCons(Reverse(s[1..]), [s[0]]);
    }
  }

  // ---------------------------------------------------------------- the deletion loop

  function PathsOf(victims: seq<Row<FileData>>): set<string> {
    set i | 0 <= i < |victims| :: victims[i].data.filePath
  }

  /** The disk after the deletion loop: every selected path that exists is
      removed (`rmtree` or `unlink`), except those whose removal raises
      (`failing`), which stay. */
  function AfterDeletion(disk: Disk, victims: seq<Row<FileData>>, failing: set<string>): Disk {
    map p | p in disk && (p !in PathsOf(victims) || p in failing) :: disk[p]
  }

  /** The loop over `files_to_delete`: one path's failure does not stop it. */
  method DeletePaths(disk: Disk, victims: seq<Row<FileData>>, failing: set<string>) returns (d: Disk)
    ensures d == AfterDeletion(disk, victims, failing)
  {
    d := disk;
    var i := 0;
    while i < |victims|
      invariant 0 <= i <= |victims|
      invariant d == AfterDeletion(disk, victims[..i], failing)
    {
      var path := victims[i].data.filePath;
      assert PathsOf(victims[..i + 1]) == PathsOf(victims[..i]) + {path} by {
        assert forall j :: 0 <= j < i ==> victims[..i + 1][j] == victims[..i][j];
      }
      if path in d && path !in failing {
        d := d - {path};
      }
      i := i + 1;
    }
    assert victims[..i] == victims;
  }

  /** An empty selection leaves the disk as it is. */
  lemma NothingSelectedNothingDeleted(disk: Disk, failing: set<string>)
    ensures AfterDeletion(disk, [], failing) == disk
  {
    assert PathsOf([]) == {};
  }

  // ---------------------------------------------------------------- after the store

  /** `apply_retention_policies` runs the store's `cleanup_old_backups` first
      and this selection afterwards, on the records that survived. For any job
      with a nonzero id the selection is then empty whenever it runs at all
      (the store removed something): keep_count sees at most `value` records,
      keep_days none older than the cutoff, keep_size records within the limit.
      Where both steps compare the same integer times, as here, retention
      therefore never removes an artifact from disk. */
  lemma SelectionAfterCleanupIsEmpty(files: seq<Row<FileData>>, counter: nat, jobs: seq<Row<JobData>>,
                                     jobId: int, kind: PolicyKind, value: int, now: int)
    requires Ascending(files, counter) && jobId != 0
    requires |Cleanup(files, jobId, kind, value, now)| < |files|
    ensures Selection(BackupFiles(Cleanup(files, jobId, kind, value, now), jobs, Some(jobId), None), kind, value, now) == []
  {
    match kind
    case KeepCount => SelectionAfterKeepCount(files, counter, jobs, jobId, value, now);
    case KeepDays => SelectionAfterKeepDays(files, counter, jobs, jobId, value, now);
    case KeepSize => SelectionAfterKeepSize(files, counter, jobs, jobId, value, now);
  }

  lemma SelectionAfterKeepCount(files: seq<Row<FileData>>, counter: nat, jobs: seq<Row<JobData>>,
                                jobId: int, value: int, now: int)
    requires Ascending(files, counter) && jobId != 0
    requires |Cleanup(files, jobId, KeepCount, value, now)| < |files|
    ensures Selection(BackupFiles(Cleanup(files, jobId, KeepCount, value, now), jobs, Some(jobId), None), KeepCount, value, now) == []
  {
    var after := Cleanup(files, jobId, KeepCount, value, now);
    if value < 0 {
      KeepCountNegativeKeepsAll(files, counter, jobId, value, now);
    }
    KeepCountNewest(files, counter, jobId, value, now);
    FilterLengthMono(after, FileVisible(jobs, Some(jobId), None), OfJob(jobId));
  }

  lemma SelectionAfterKeepDays(files: seq<Row<FileData>>, counter: nat, jobs: seq<Row<JobData>>,
                               jobId: int, value: int, now: int)
    requires Ascending(files, counter) && jobId != 0
    requires |Cleanup(files, jobId, KeepDays, value, now)| < |files|
    ensures Selection(BackupFiles(Cleanup(files, jobId, KeepDays, value, now), jobs, Some(jobId), None), KeepDays, value, now) == []
  {
    if value < 0 {
      KeepDaysExact(files, jobId, value, now);
      assert false;
    } else {
      KeptAfterCutoff(files, jobs, jobId, value, now);
    }
  }

  /** With a cutoff, every record keep_days leaves is at least as new as it. */
  lemma KeptAfterCutoff(files: seq<Row<FileData>>, jobs: seq<Row<JobData>>, jobId: int, value: int, now: int)
    requires value >= 0 && jobId != 0
    ensures Selection(BackupFiles(Cleanup(files, jobId, KeepDays, value, now), jobs, Some(jobId), None), KeepDays, value, now) == []
  {
    var after := Cleanup(files, jobId, KeepDays, value, now);
    var list := BackupFiles(after, jobs, Some(jobId), None);
    forall x | x in list
      ensures x.data.createdAt >= now - value * SecondsPerDay
    {
      assert x in after && FileVisible(jobs, Some(jobId), None)(x);
      KeptNotBefore(files, jobId, value, now, x);
    }
    NoneBeforeCutoff(list, value, now);
  }

  /** keep_days selects nothing from a list with no record older than its cutoff. */
  lemma NoneBeforeCutoff(list: seq<Row<FileData>>, value: int, now: int)
    requires forall x :: x in list ==> x.data.createdAt >= now - value * SecondsPerDay
    ensures Selection(list, KeepDays, value, now) == []
  {
    FilterNone(list, CreatedBefore(now - value * SecondsPerDay));
  }

  lemma KeptNotBefore(files: seq<Row<FileData>>, jobId: int, value: int, now: int, x: Row<FileData>)
    requires value >= 0 && x in Cleanup(files, jobId, KeepDays, value, now) && x.data.jobId == jobId
    ensures x.data.createdAt >= now - value * SecondsPerDay
  {
    KeepDaysExact(files, jobId, value, now);
  }

  lemma SelectionAfterKeepSize(files: seq<Row<FileData>>, counter: nat, jobs: seq<Row<JobData>>,
                               jobId: int, value: int, now: int)
    requires Ascending(files, counter) && jobId != 0
    requires |Cleanup(files, jobId, KeepSize, value, now)| < |files|
    ensures Selection(BackupFiles(Cleanup(files, jobId, KeepSize, value, now), jobs, Some(jobId), None), KeepSize, value, now) == []
  {
    var after := Cleanup(files, jobId, KeepSize, value, now);
    var list := BackupFiles(after, jobs, Some(jobId), None);
    var visible := Filter(after, FileVisible(jobs, Some(jobId), None));
    var ofJob := Filter(after, OfJob(jobId));
    KeepSizePrefix(files, jobId, value, now);
    FilterSumMono(after, FileVisible(jobs, Some(jobId), None), OfJob(jobId));
    SizeSumSort(visible, FileTime);
    SizeSumReverse(list);
    if ofJob == [] {
      FilterLengthMono(after, FileVisible(jobs, Some(jobId), None), OfJob(jobId));
    } else {
      SizeScanFits(Reverse(list), 0, SizeLimit(value));
    }
  }

  /** A negative keep_count limit keeps every record. */
  lemma KeepCountNegativeKeepsAll(files: seq<Row<FileData>>, counter: nat, jobId: int, n: int, now: int)
    requires Ascending(files, counter) && n < 0
    ensures Cleanup(files, jobId, KeepCount, n, now) == files
  {
    AscendingDistinct(files, counter);
    FilterDistinct(files, OfJob(jobId));
    TopRows(Filter(files, OfJob(jobId)), FileTime, n);
    FilterAll(files, Survives(files, jobId, KeepCount, n, now));
  }

  lemma {:induction false} FilterLengthMono(s: seq<Row<FileData>>, p: Row<FileData> -> bool, q: Row<FileData> -> bool)
    requires forall x :: p(x) ==> q(x)
    ensures |Filter(s, p)| <= |Filter(s, q)|
  {
    if s != [] {
      FilterLengthMono(s[1..], p, q);
      FilterCons(s, p);
      FilterCons(s, q);
    }
  }

  /** Ordering does not change the bytes. */
  lemma {:induction false} SizeSumSort(s: seq<Row<FileData>>, key: FileData -> int)
    ensures SizeSum(SortDesc(s, key)) == SizeSum(s)
  {
    if s != [] {
      SizeSumSort(s[1..], key);
      SizeSumInsert(s[0], SortDesc(s[1..], key), key);
      assert s == [s[0]] + s[1..];
    }
  }

  lemma {:induction false} SizeSumInsert(x: Row<FileData>, s: seq<Row<FileData>>, key: FileData -> int)
    requires SortedDesc(s, key)
    ensures SizeSum(InsertDesc(x, s, key)) == x.data.fileSize + SizeSum(s)
  {
    if s != [] && key(x.data) < key(s[0].data) {
      SizeSumInsert(x, s[1..], key);
      assert InsertDesc(x, s, key) == [s[0]] + InsertDesc(x, s[1..], key);
    }
  }

  /** Two backups of job 1 used to show that the keep_size rules differ: an
      older 512 KiB record and a newer 2 MiB one. */
  const OlderBackup: Row<FileData> := Row(1, FileData(1, "older", SimpleBackup, 100, 524288))
  const NewerBackup: Row<FileData> := Row(2, FileData(1, "newer", SimpleBackup, 200, 2097152))

  /** With a 1 MiB limit the store's newest-first running totals (2 MiB, then
      2.5 MiB) both pass the limit, so it removes both records. */
  lemma StoreRemovesBothBackups(now: int)
    ensures Cleanup([OlderBackup, NewerBackup], 1, KeepSize, 1, now) == []
  {
    var files := [OlderBackup, NewerBackup];
    NewerRunningTotal();
    OlderRunningTotal();
    FilterNone(files, Survives(files, 1, KeepSize, 1, now));
  }

  lemma NewerRunningTotal()
    ensures RunningTotal([OlderBackup, NewerBackup], 1, 200) == 2097152
  {
    var files := [OlderBackup, NewerBackup];
    var p := NewerOrSame(1, 200);
    assert !p(OlderBackup) && p(NewerBackup);
    assert files[1..] == [NewerBackup] && [NewerBackup][1..] == [];
    FilterCons(files, p);
    FilterCons([NewerBackup], p);
    assert SizeSum([NewerBackup]) == 2097152;
  }

  lemma OlderRunningTotal()
    ensures RunningTotal([OlderBackup, NewerBackup], 1, 100) == 2621440
  {
    var files := [OlderBackup, NewerBackup];
    FilterAll(files, NewerOrSame(1, 100));
    assert [NewerBackup][1..] == [];
    assert SizeSum([NewerBackup]) == 2097152;
    assert files[1..] == [NewerBackup];
  }

  /** The oldest-first scan over the same list keeps the older record and
      picks only the newer. */
  lemma ScanPicksNewerBackup(jobs: seq<Row<JobData>>, now: int)
    requires HasJob(jobs, 1)
    ensures Selection(BackupFiles([OlderBackup, NewerBackup], jobs, Some(1), None), KeepSize, 1, now) == [NewerBackup]
  {
    ExampleListing(jobs);
    ExampleScan();
  }

  lemma ExampleListing(jobs: seq<Row<JobData>>)
    requires HasJob(jobs, 1)
    ensures BackupFiles([OlderBackup, NewerBackup], jobs, Some(1), None) == [NewerBackup, OlderBackup]
  {
    var files := [OlderBackup, NewerBackup];
    FilterAll(files, FileVisible(jobs, Some(1), None));
    ExampleSort();
  }

  lemma ExampleSort()
    ensures SortDesc([OlderBackup, NewerBackup], FileTime) == [NewerBackup, OlderBackup]
  {
    assert [OlderBackup, NewerBackup][1..] == [NewerBackup];
    assert SortDesc([NewerBackup], FileTime) == [NewerBackup] by {
      assert [NewerBackup][1..] == [];
    }
    assert InsertDesc(OlderBackup, [NewerBackup], FileTime) == [NewerBackup, OlderBackup] by {
      assert [NewerBackup][1..] == [];
    }
  }

  lemma ExampleScan()
    ensures SizeScan(Reverse([NewerBackup, OlderBackup]), 0, SizeLimit(1)) == [NewerBackup]
  {
    ExampleReverse();
    var limit := SizeLimit(1);
    assert limit == 1048576;
    assert [OlderBackup, NewerBackup][1..] == [NewerBackup];
    assert SizeScan([OlderBackup, NewerBackup], 0, limit) == SizeScan([NewerBackup], 524288, limit);
    assert [NewerBackup][1..] == [];
    assert SizeScan([NewerBackup], 524288, limit) == [NewerBackup] + SizeScan([], 524288, limit);
  }

  lemma ExampleReverse()
    ensures Reverse([NewerBackup, OlderBackup]) == [OlderBackup, NewerBackup]
  {
  }

  /** The two keep_size rules differ: on the same two records the store removes
      both and the scan picks one. */
  lemma KeepSizeRulesDiffer(jobs: seq<Row<JobData>>, now: int)
    requires HasJob(jobs, 1)
    ensures Cleanup([OlderBackup, NewerBackup], 1, KeepSize, 1, now) == []
    ensures Selection(BackupFiles([OlderBackup, NewerBackup], jobs, Some(1), None), KeepSize, 1, now) == [NewerBackup]
  {
    StoreRemovesBothBackups(now);
    ScanPicksNewerBackup(jobs, now);
  }
}
