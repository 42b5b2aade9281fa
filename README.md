# Backup manager core, modelled in Dafny

This project models the engine of a desktop backup application. The
application keeps backup *jobs* in an SQLite database. A job is either a
`Simple` job or an `Incremental` job:

- a `Simple` job makes a timestamped copy, or ZIP archive, of a source
  folder whenever the newest file time has moved on since the last copy;
- an `Incremental` job keeps one mirror folder in sync with the source and
  can take timestamped snapshots of that mirror.

The engine runs jobs in three ways:

- a scheduler pass, run every minute, runs each job that is due;
- the user can run selected jobs by hand;
- every run writes `job_logs` rows, records the files it made in
  `backup_files`, applies the job's retention policies and reports its
  result as a notification.

The modules follow the program's parts:

| module | file | models |
|---|---|---|
| `Text` | `text.dfy` | Python's `str.strip`, `str.split`, `str.join`, `int()`, slicing |
| `Clock` | `clock.dfy` | the proleptic Gregorian calendar, `strftime`/`strptime` for `%Y-%m-%d %H:%M:%S`, `%Y%m%d_%H%M%S` and `%H:%M` |
| `Schedule` | `schedule.dfy` | `should_run_job`, `calculate_next_run`, and the scheduler pass's refresh of a passed `next_run` |
| `Exclusion` | `exclusion.dfy` | `should_exclude_path` |
| `Files` | `files.dfy` | `copy_with_exclusions`, `create_zip_backup`, `sync_incremental`, the newest-file-time walk, `get_folder_size` |
| `Tables` | `tables.dfy` | SQLite tables as rows with ascending AUTOINCREMENT ids: insert, update and delete by id, `WHERE`, `ORDER BY … DESC`, `LIMIT` |
| `Store` | `store.dfy` | `DatabaseManager`: jobs, backup hashes, logs, retention policies, backup files, `cleanup_old_backups` |
| `Jobs` | `jobs.dfy` | `Job` and `JobManager` |
| `Retention` | `retention.dfy` | `delete_backup_files_from_fs` |
| `Language` | `language.dfy` | `LanguageManager` |
| `Notify` | `notify.dfy` | `notify_job_result` and `send_batch_notification` |
| `Execution` | `execution.dfy` | the application object's engine: `execute_job` and both executors, hashes, retention, the scheduler pass, manual runs |

## Abstractions

**Time.** Time is a whole number of seconds since 0001-01-01 00:00:00. The
range is that of Python's `datetime`, years 1 to 9999. Anything that would
leave this range is `None`, which is what the source's `except` clauses turn
an `OverflowError` into. The clock is a parameter, `now`, read once per run
or scheduler pass (see "Left out"). A run's duration is a parameter in
tenths of a second.

**Filesystem.** The filesystem is a `Disk`, a map from absolute path to a
folder tree or an archive. The entries of a `Disk` do not nest: no path of
the map lies inside another's tree (see "Left out").

- A `Tree` maps each relative path (a sequence of names) to a directory, or
  to a file with its modification time and size.
- Which copies and deletions fail is a parameter (`failing`). The source
  catches those failures per file.
- An exception raised inside an executor is a fault at the executor's start
  (`Env.fault`).
- A snapshot path that is already taken makes `copytree` raise.
- A sync raises in two places. `mkdir` raises where a source directory the
  walk reaches meets a file in the mirror. `copy2` raises where it would
  write into a mirror directory that already holds a directory of the
  file's name. Each error names the failing path under the mirror.
- A source file that meets a mirror directory is copied into that
  directory when the directory is older than the file. Directory times are
  not part of a tree: which mirror directories are older is a parameter
  (`Env.olderDirs`).
- A kind mismatch at an excluded path is never touched.
- The source walks with `os.walk`, top down: a directory's own files come
  before anything in its subdirectories, and siblings come in the file
  system's listing order. The model walks in name order instead, a path
  before the paths below it and siblings by name. That is not always an
  order `os.walk` can take. With a directory `a` holding `x` and a file `b`,
  name order meets `a/x` first, while `os.walk` always meets `b` first. So
  when several entries fail, the model reports the first failure in name
  order, which may be an error the source never reports first.

**Tables.** Each table is a sequence of rows, and the `*Seq` fields hold the
AUTOINCREMENT counters. Getters that `JOIN jobs` drop rows whose job no
longer exists.

Where the model's state changes step by step, as in the source, it is a
class:

- `Store.Database` holds the tables;
- `Jobs.JobManager` holds the in-memory job list;
- `Language.LanguageManager` holds the loaded translations;
- `Execution.App` holds the disk, the notification queue and the notices
  shown.

Each method's `ensures` gives its new state as a function of its old state.
The lemmas are proved about those functions.

## Behaviour worth noting

- **Retention.** `apply_retention_policies` first deletes the policy's rows
  from `backup_files`, then asks the filesystem step to select files from
  the rows that are left. When both steps compare the same times, those
  rows already satisfy the policy, so the filesystem step selects nothing:
  `Retention.SelectionAfterCleanupIsEmpty` proves this for all three policy
  kinds. Under the model's integer times, retention therefore never removes
  a backup from disk. The source's database step compares text stamps in a
  different time zone and format (see "Left out"), so near the `keep_days`
  cutoff the source can still select files.
- **Negative `keep_days`.** `'-{} days'.format(n)` with a negative `n`
  gives the SQLite modifier `--N days`, which SQLite rejects. The cutoff is
  then NULL, nothing is deleted, and the count is 0.
- **Incremental runs.** An incremental run keeps one mirror. Every run
  after the first syncs that mirror in place.
- **Copy into a directory.** A source file that meets an older mirror
  directory is copied into it. Without `preserve_deleted`, the deletion
  pass then removes that copy again, because its source path does not
  exist. The run counts the file twice: `Files.CopyIntoDirectoryIsUndone`.
- **Failed runs.** A run that raises keeps `last_run` and `next_run` as they
  were and does not save the job list.

## Model

| member | source | states |
|---|---|---|
| `Text.StripIsTrimmedSlice` | main.py:2110 | `strip()` returns the slice between the first and last non-whitespace characters, with no whitespace at either end |
| `Text.Split` | app/language_manager.py:116 | `split(sep)` yields at least one piece, and no piece contains the separator |
| `Text.JoinSplit` | main.py:2782 | joining the pieces of a split with the same separator gives back the original string |
| `Text.SplitJoin` | main.py:2782 | splitting a join of separator-free pieces gives back the pieces |
| `Text.SubstringAt` | main.py:2126-2127 | `pattern in path` holds exactly when the pattern occurs at some offset of the path |
| `Text.ParseIntToString` | main.py:2651 | `int()` of a decimal rendering gives back the number, for negatives too |
| `Text.ParseIntRejectsLetters` | main.py:2651 | `int()` raises on text holding any character other than ASCII digits, whitespace, signs and underscores; other Unicode decimal digits are rejected too, unlike `int()` (see "Left out") |
| `Text.PyDrop` | main.py:2551 | `list[n:]` of a non-negative `n` keeps the last `len - n` rows (none when `n` is at least the length); of a negative `n`, the last `-n` rows (all when `-n` is at least the length); the result is always a suffix of the list |
| `Clock.ToFromSeconds` | main.py:2257 | the calendar decomposition of a time in range rebuilds the same time |
| `Clock.FromToSeconds` | main.py:2600 | a valid calendar date and time survives conversion to seconds and back |
| `Clock.ParseFormatStamp` | main.py:2257 | parsing a stamp written with `%Y-%m-%d %H:%M:%S` gives back the time |
| `Clock.FormatParseStamp` | main.py:2600 | a stamp that parses is the canonical rendering of its time |
| `Clock.FormatStampInjective` | main.py:2696 | different times are written as different stamps |
| `Clock.CompactStampInjective` | main.py:2295 | `%Y%m%d_%H%M%S` gives different names to different seconds |
| `Clock.ParseClockPadded` | main.py:2710 | `%H:%M` accepts every zero-padded hour and minute and yields the matching second of the day |
| `Clock.ParseClockRejects` | main.py:2710-2716 | `%H:%M` rejects hour `24` and minute `60` |
| `Schedule.KindOf` | main.py:2688-2719 | the three schedule labels are recognised exactly; anything else is unscheduled |
| `Schedule.NextRunText` | main.py:2688-2719 | `next_run` is written as a stamp that parses back to the computed time, or is `None` |
| `Schedule.NextRunInterval` | main.py:2692-2705 | an interval schedule's next run is now plus the interval, or `None` when that leaves the calendar's range |
| `Schedule.NextRunDaily` | main.py:2708-2716 | a daily schedule's next run is the first time after now with the scheduled clock time, within one day of now |
| `Schedule.NextRunUnscheduled` | main.py:2718-2719 | an unknown schedule type leaves `next_run` empty |
| `Schedule.NeverDueWithoutSchedule` | main.py:2624-2686 | an unknown schedule type, or a value that does not parse, is never due |
| `Schedule.IntervalDueAfterRun` | main.py:2649-2684 | after a run at `t`, an interval job is due exactly when the interval has elapsed |
| `Schedule.DailyOncePerDay` | main.py:2628-2647 | a daily job that ran today is not due again the same day |
| `Schedule.DailyDueNextDay` | main.py:2628-2640 | a daily job that last ran on an earlier day is due once the clock time has come |
| `Schedule.Refreshed` | main.py:2597-2611 | a `next_run` that has not passed, an empty one included, is kept; a passed or unparsable one is replaced by a stamp of the next run computed from now; for a daily or positive-interval schedule the result is never in the past |
| `Schedule.PassIntervalDue` | main.py:2595-2613 | within a scheduler pass, an interval job is due exactly when it never ran or its interval has elapsed since its last run |
| `Schedule.PassDailyDue` | main.py:2595-2613 | within a scheduler pass, a daily job is due exactly when the clock time has come and it has not run today |
| `Schedule.NextRunNotPassed` | main.py:2688-2719 | for a daily schedule at a valid time or a positive interval, the `next_run` computed at now lies after now |
| `Exclusion.Patterns` | main.py:2110 | the pattern list has no empty and no untrimmed entry |
| `Exclusion.KeptMembers` | main.py:2110 | a pattern is in the list exactly when it is a non-blank, stripped piece of the comma-separated text |
| `Exclusion.GlobLiteral` | main.py:2120-2123 | a pattern without `*` matches only itself |
| `Exclusion.GlobSuffix` | main.py:2120-2123 | `*` followed by literal text matches exactly the names that end with it |
| `Exclusion.AnyMatch` | main.py:2114-2129 | a path is excluded exactly when one of the patterns matches it |
| `Exclusion.ExcludeIff` | main.py:2105-2129 | exclusion holds exactly when some non-blank comma-separated piece matches by name, by glob or as a substring of the path |
| `Exclusion.BlankExcludesNothing` | main.py:2107-2108 | a pattern text of blanks and commas excludes nothing |
| `Exclusion.PatternOrderIrrelevant` | main.py:2110-2129 | two pattern texts with the same set of patterns exclude the same paths |
| `Exclusion.NameMatchIsSubstring` | main.py:2116-2127 | for a path that ends in its name, name equality is subsumed by the substring test |
| `Exclusion.RootPatternExcludesAll` | main.py:2126-2127 | a pattern that occurs in the source root's path excludes every entry below it |
| `Files.KeptPart` | main.py:2186-2197 | the walk keeps exactly the entries for which neither they nor any ancestor is excluded |
| `Files.KeptParent` | main.py:2186-2197 | the parent of a kept entry is kept |
| `Files.CopySpecContents` | main.py:2181-2212 | the copy holds only kept source entries, unchanged; it holds every kept directory and every kept file whose copy did not fail |
| `Files.CopyWithExclusions` | main.py:2181-2212 | the walk-and-copy loop produces exactly the copy specification |
| `Files.ZipCountCoversMembers` | main.py:2214-2235 | the archive never holds more files than the count reported for it |
| `Files.SyncIncremental` | main.py:2421-2467 | the sync raises exactly when a walked source directory meets a mirror file or a copy into a mirror directory meets a directory there, naming the first such path (in name order) under the mirror; otherwise it leaves exactly the specified mirror and returns the number of files copied plus deleted |
| `Files.CopyPass` | main.py:2426-2451 | walking in name order, the copy pass creates walked directories, writes every walked file that is missing, newer than the mirror file, or newer than a mirror directory (into that directory), counts the writes, and stops with the first failing entry's error |
| `Files.DeletionPass` | main.py:2453-2465 | the deletion pass removes exactly the mirror files with no source entry, and counts them |
| `Files.SyncKeepsKeptFiles` | main.py:2438-2451 | every walked source file whose mirror path is not a directory is a file in the mirror after a sync, at least as new as the source |
| `Files.SyncWritesOnlyStale` | main.py:2446-2451 | an existing mirror entry changes only when it is a file older than its walked source file, or the file that `copy2` writes into an older mirror directory at a source file's path |
| `Files.CopyOne` | main.py:2434-2451 | one entry: `mkdir` of a walked directory raises exactly on a mirror file; `copy2` of a walked stale file writes to its target and raises exactly on a directory there |
| `Files.CopyEntry` | main.py:2426-2451 | the entry that comes first in name order among those left raises exactly when it is a failing entry, and then its error is the first failure of the whole walk; otherwise the pass moves on with the remaining entries |
| `Files.PreserveRemovesNothing` | main.py:2453-2454 | with `preserve_deleted` set, no mirror entry is removed |
| `Files.MirrorHasNoOrphans` | main.py:2453-2465 | after a sync that raises nothing and without `preserve_deleted`, every mirror file has a source entry, directories stay directories, and matched files stay |
| `Files.AgreeingKindsNeverFail` | main.py:2434-2451 | where source and mirror agree on which paths are directories, the sync raises nothing |
| `Files.CopyIntoDirectoryIsUndone` | main.py:2446-2465 | a source file meeting an older mirror directory is copied into it, and without `preserve_deleted` the deletion pass removes that copy again, so it is counted twice and the directory stays |
| `Files.EmptySourceEmptiesMirror` | main.py:2453-2465 | syncing from an empty source removes every mirror file and counts each one |
| `Files.ResyncIsQuiet` | main.py:2421-2467 | where source and mirror agree on kinds, syncing again with an unchanged source raises nothing, changes nothing and counts nothing |
| `Files.SyncSettles` | main.py:2421-2467 | where source and mirror agree on kinds, after a sync every walked entry is present with its kind, nothing remains to copy and, without `preserve_deleted`, nothing remains to delete |
| `Files.MaxMtime` | main.py:2380-2384 | the result is the newest file time in the tree, or 0 when there are no files |
| `Files.FolderSize` | main.py:2512-2521 | the result is the sum of the sizes of the files in the tree |
| `Files.SizeOfFiles` | main.py:2516-2518 | directories add nothing to a folder's size |
| `Tables.AscendingIdsUnique` | app/database.py:229-259 | rows with ascending AUTOINCREMENT ids never share an id |
| `Tables.AppendAscending` | app/database.py:229-259 | an insert keeps the ids ascending and below the counter |
| `Tables.Filter` | app/database.py:344-369 | a `WHERE` keeps exactly the rows that satisfy it, and never more rows than the table has |
| `Tables.FilterAppend` | app/database.py:344-369 | a `WHERE` keeps table order: filtering two parts of a table and joining the results is filtering the whole |
| `Tables.FilterAscending` | app/database.py:293-300 | a `DELETE … WHERE` keeps the ids ascending |
| `Tables.SortDesc` | app/database.py:357-369 | `ORDER BY … DESC` yields a descending permutation of the rows |
| `Tables.Limit` | app/database.py:344-369 | `LIMIT n` keeps the first `n` rows, or all of them when `n` is negative or at least the row count |
| `Tables.FindId` | app/database.py:218-227 | a lookup by id returns a row of the table with that id, and returns none only when no row has it |
| `Tables.ReplaceId` | app/database.py:261-291 | an update by id replaces that row's data and leaves the other rows |
| `Tables.ReplaceIdAscending` | app/database.py:261-291 | an update by id keeps the ids ascending |
| `Tables.RemoveId` | app/database.py:293-300 | a delete by id removes exactly the row with that id |
| `Store.PolicyKindOf` | app/database.py:516-558 | exactly the three policy names are recognised, and each maps back to its name |
| `Store.PolicyNameRoundTrip` | app/database.py:386-397 | every policy kind's name is recognised as that kind |
| `Store.LatestHash` | app/database.py:302-315 | the job's newest hash row of the type, or none when the job has no such row |
| `Store.LatestAfterAppend` | app/database.py:317-327 | a hash row just recorded is the one later lookups return |
| `Store.JobLogs` | app/database.py:344-369 | the visible logs, newest first, at most `limit` of them; every log left out is no newer than every log returned |
| `Store.TopRows` | app/database.py:357-369 | sorting descending, then limiting, keeps the newest rows and only rows of the table |
| `Store.LogsAfterCleanup` | app/database.py:371-383 | log cleanup keeps exactly the logs no older than the cutoff, and every log when the day count is negative |
| `Store.Policies` | app/database.py:399-421 | exactly the enabled policies of existing jobs, restricted to the job when one is given |
| `Store.PatchPolicy` | app/database.py:423-452 | the fields given are replaced and the others kept |
| `Store.PatchPolicyLaws` | app/database.py:423-452 | a patch with no fields is the identity, and applying a patch twice is the same as once |
| `Store.BackupFiles` | app/database.py:480-506 | exactly the visible file rows of the job and type, newest first, as a permutation of the filtered rows |
| `Store.Cleanup` | app/database.py:516-558 | rows of other jobs stay; within the job, the policy's rule decides which rows survive, and a negative `keep_days` keeps them all |
| `Store.KeepCountNewest` | app/database.py:521-531 | `keep_count n` keeps the job's newest `n` rows (all of them when `n` is negative) and drops only older ones |
| `Store.KeepDaysExact` | app/database.py:533-538 | `keep_days n` with `n >= 0` removes exactly the job's rows created before now minus `n` days; a negative `n` leaves the table unchanged |
| `Store.KeepSizePrefix` | app/database.py:540-554 | `keep_size` keeps a newest-first run of the job's rows whose sizes fit the limit |
| `Store.Database.constructor` | app/database.py:18-20 | a fresh database has empty tables and counters at zero |
| `Store.Database.AddJob` | app/database.py:229-259 | a valid job type inserts a row under a fresh id, which is returned; an invalid one is refused and changes nothing |
| `Store.Database.UpdateJob` | app/database.py:261-291 | the row with the id gets the new columns and keeps its creation time; a missing id changes nothing; an invalid type is refused |
| `Store.Database.DeleteJob` | app/database.py:293-300 | the row with the id is removed |
| `Store.Database.UpdateBackupHash` | app/database.py:317-327 | one hash row is appended under a fresh id |
| `Store.Database.AddJobLog` | app/database.py:329-342 | one log row is appended under a fresh id |
| `Store.Database.CleanupOldLogs` | app/database.py:371-383 | the logs become the cleanup's, and the number deleted is returned (none for a negative day count) |
| `Store.Database.AddRetentionPolicy` | app/database.py:386-397 | a known policy type is inserted under a fresh id; an unknown one is refused |
| `Store.Database.UpdateRetentionPolicy` | app/database.py:423-452 | the given fields of the policy are patched; no fields or a missing id changes nothing; an unknown type is refused |
| `Store.Database.DeleteRetentionPolicy` | app/database.py:454-460 | the policy with the id is removed |
| `Store.Database.AddBackupFile` | app/database.py:463-478 | one file row is appended under a fresh id, which is returned; with no creation time, now is used |
| `Store.Database.DeleteBackupFile` | app/database.py:508-514 | the file row with the id is removed |
| `Store.Database.CleanupOldBackups` | app/database.py:516-558 | the file rows become the policy's cleanup, and the number removed is returned; an unknown policy changes nothing and returns -1 |
| `Jobs.NewJob` | main.py:105-132 | a new job has the default type, schedule and flags, is idle, and has never run |
| `Jobs.Columns` | main.py:158-183 | the persisted columns carry the job's fields, `running` included |
| `Jobs.SaveLoadRoundTrip` | main.py:142-183 | loading a saved job gives back the job, idle, with the three unpersisted fields at their defaults |
| `Jobs.Loaded` | main.py:142-156 | one job per row, in order |
| `Jobs.LoadedIdle` | main.py:148-149 | no loaded job is running |
| `Jobs.Find` | main.py:235-240 | the first job with the id, or none exactly when no job has it |
| `Jobs.Without` | main.py:233 | exactly the jobs whose id differs |
| `Jobs.WithoutAppend` | main.py:233 | removal by id distributes over concatenation |
| `Jobs.FirstIndex` | main.py:225-228 | the position of the first job with the id, or the length when there is none |
| `Jobs.ReplaceFirst` | main.py:225-228 | only the first job with the id is replaced |
| `Jobs.SavedRowsIds` | main.py:158-183 | saving keeps the table's ids and length |
| `Jobs.SavedRowsStoreJobs` | main.py:158-183 | after a save, each listed job that has a row holds that job's columns |
| `Jobs.SavedRowsUntouched` | main.py:158-183 | rows of jobs not in the list are not touched by a save |
| `Jobs.SavedRowsAscending` | main.py:158-183 | saving keeps the ids ascending |
| `Jobs.JobManager.constructor` | main.py:137-140 | a new manager holds the jobs loaded from the database |
| `Jobs.JobManager.LoadJobs` | main.py:142-156 | the list becomes the jobs loaded from the table |
| `Jobs.JobManager.SaveJobs` | main.py:158-183 | each job's row is updated with its columns |
| `Jobs.JobManager.AddJob` | main.py:185-203 | the job is inserted and appended with its new id; an invalid type is refused |
| `Jobs.JobManager.UpdateJob` | main.py:205-228 | the table gets the store's update (new columns, creation time kept, a missing id unchanged) and the first job with the id is replaced; an invalid type for an existing row is refused and changes nothing |
| `Jobs.JobManager.DeleteJob` | main.py:230-233 | the row is deleted and every job with the id leaves the list |
| `Retention.Reverse` | main.py:2560 | `reversed` yields the rows oldest first |
| `Retention.SelectForDeletion` | main.py:2549-2565 | the selection loop picks exactly the policy's selection |
| `Retention.SizeScanWithinLimit` | main.py:2557-2565 | the rows the size scan keeps fit the limit |
| `Retention.SizeScanFits` | main.py:2557-2565 | nothing is selected when everything fits |
| `Retention.SizeScanPicksOversized` | main.py:2557-2565 | a file bigger than the limit is always selected |
| `Retention.DeletePaths` | main.py:2567-2578 | exactly the selected paths whose deletion does not fail leave the disk |
| `Retention.NothingSelectedNothingDeleted` | main.py:2567-2578 | an empty selection leaves the disk unchanged |
| `Retention.SelectionAfterCleanupIsEmpty` | main.py:2532-2538 | once the database step has pruned a job's rows, the filesystem step selects nothing |
| `Retention.KeepCountNegativeKeepsAll` | app/database.py:521-531 | a negative `keep_count` deletes nothing |
| `Retention.KeepSizeRulesDiffer` | main.py:2557-2565 | the database's `keep_size` rule and the filesystem's rule disagree on a two-file example |
| `Language.ResolveAppend` | app/language_manager.py:116-125 | looking up a dotted path is looking up its first part, then the rest |
| `Language.ResolveThroughLeaf` | app/language_manager.py:121-125 | a path that continues below a leaf is not found |
| `Language.LookupNested` | app/language_manager.py:116-125 | `a.b` resolves as `b` inside `a` |
| `Language.LanguageManager.constructor` | app/language_manager.py:18-39 | the manager starts in English, with English translations when they load and none otherwise |
| `Language.LanguageManager.LoadLanguage` | app/language_manager.py:76-102 | an unknown code falls back to English; a readable file replaces the translations; failure keeps the old state |
| `Language.LanguageManager.Get` | app/language_manager.py:104-135 | the value at the dotted path, or the default (the path itself when none is given) when the path is missing |
| `Language.LanguageManager.GetLanguageName` | app/language_manager.py:141-156 | the language's display name, or the code itself when it is unknown |
| `Language.LanguageManager.GetAvailableLanguages` | app/language_manager.py:68-74 | the table of codes to names |
| `Language.LanguageManager.NameAgreesWithTable` | app/language_manager.py:68-156 | `get_language_name` agrees with the table for every code |
| `Notify.FormatTenthsInjective` | main.py:2168 | `{duration:.1f}` renders different tenths differently |
| `Notify.ErrorText` | main.py:2173 | messages up to 50 characters are shown whole; longer ones are cut to 50 and marked with `...` |
| `Notify.ImmediateNotice` | main.py:2165-2179 | success, error and skipped each get their notice; any other status shows nothing |
| `Notify.NotifyJobResult` | main.py:2147-2179 | disabled notifications and the disabled mode do nothing; batch mode queues the result; any other mode shows it at once |
| `Notify.CountStatus` | main.py:2767-2769 | a status count never exceeds the number of results |
| `Notify.FailedNames` | main.py:2786 | exactly the names of the failed results, one per failure |
| `Notify.CountLines` | main.py:2774-2780 | one summary line per status that occurred, none for the others |
| `Notify.FailedShown` | main.py:2787 | at most the first three failed names are listed |
| `Notify.Hidden` | main.py:2788-2789 | the `(+n more)` count is the number of failures beyond three |
| `Notify.BatchNotice` | main.py:2761-2792 | an empty batch shows nothing; otherwise one summary with the batch size in the title and a ten-second timeout |
| `Notify.CountsCover` | main.py:2767-2769 | the three counts add up to the batch size when every status is one of the three |
| `Notify.CountPermutation` | main.py:2767-2769 | the counts do not depend on the order of the queue |
| `Notify.AllSucceeded` | main.py:2774-2789 | a batch of successes reads as a single `completed` line |
| `Notify.FailedPartShape` | main.py:2785-2789 | the failure details appear exactly when some job failed, with `(+n more)` beyond three |
| `Execution.ArtifactNamesDistinct` | main.py:2295-2301 | backups and snapshots made at different seconds have different paths |
| `Execution.MirrorNameIsOwn` | main.py:2343 | the mirror's path is never a backup's or a snapshot's path |
| `Execution.UpdatedHashShowsNoChange` | main.py:2373-2409 | right after the hash is recorded, the unchanged source shows no change |
| `Execution.CleanupAllKeepsOthers` | main.py:2523-2541 | retention removes only the job's own file rows |
| `Execution.IncrementalSuccess` | main.py:2339-2371 | a successful incremental run leaves an incremental hash record and a mirror folder, and any snapshot taken is a copy of the mirror |
| `Execution.RunKindByType` | main.py:2248-2255 | an unknown type is reported as such; a simple run skips exactly when unforced, unfaulted and unchanged; a forced run never skips |
| `Execution.SkippedRunStillCompletes` | main.py:2328-2333 | a skipped run logs started, skipped and completed with zero files, and in batch mode queues skipped then success |
| `Execution.FailedRunKeepsSchedule` | main.py:2252-2255 | a run that does not complete keeps `last_run` and `next_run`, saves nothing and ends idle; an unknown type logs its error with no duration and sends no notice |
| `Execution.CompletedRunStamps` | main.py:2257-2259 | a completed run records now as `last_run` and the next run from now as `next_run`, and ends idle |
| `Execution.ManualPickSound` | main.py:2076-2087 | the jobs started by hand are exactly the idle selected jobs, and the warning names exactly the busy ones |
| `Execution.DueUpToExact` | main.py:2595-2617 | a pass starts exactly the active, idle jobs that are due, in list order |
| `Execution.SkippedJobsUntouched` | main.py:2596 | a pass leaves inactive and running jobs alone and starts none of them |
| `Execution.App.NotifyJobResult` | main.py:2147-2179 | the queue and the shown notices change as the mode directs |
| `Execution.App.HasChangesSimple` | main.py:2373-2395 | changed exactly when the source exists and has a file newer than the last recorded hash, or no hash exists |
| `Execution.App.UpdateSimpleHash` | main.py:2397-2409 | one simple hash row holding the source's newest file time is appended |
| `Execution.App.ApplyRetentionPolicies` | main.py:2523-2541 | every enabled policy of the job prunes its rows; the disk is unchanged |
| `Execution.App.ExecuteSimpleJob` | main.py:2286-2337 | the outcome, the skip log and notice, the artifact, the hash and file rows, and retention are as specified |
| `Execution.App.TakeSimpleBackup` | main.py:2294-2327 | the artifact is written at the timestamped path, the hash recorded and the file row appended |
| `Execution.App.WriteArtifact` | main.py:2299-2310 | an archive of the kept files or a copied folder is written, and the reported count matches the source's |
| `Execution.App.ExecuteIncrementalJob` | main.py:2339-2371 | the mirror is created or synced, the hash recorded and a due snapshot taken; retention follows |
| `Execution.App.MirrorStep` | main.py:2349-2363 | the first run copies afresh; later runs sync, and a sync that raises returns its error and changes nothing |
| `Execution.App.SnapshotThenRetain` | main.py:2365-2370 | a due snapshot copies the mirror and records a file row, then retention runs; a taken path raises |
| `Execution.App.ExecuteJob` | main.py:2237-2284 | the run's outcome, the job's new stamps and idle state, the saved rows, the logs and the notices are exactly as specified |
| `Execution.App.StartRun` | main.py:2239-2245 | the job is marked running and a `started` log is written |
| `Execution.App.ClearRunning` | main.py:2282-2283 | whatever the run did, the job ends up not running and nothing else changes |
| `Execution.App.FinishRun` | main.py:2252-2281 | the closing log and notice are written; a completed run is stamped and saved |
| `Execution.App.CalculateNextRun` | main.py:2688-2719 | the job's `next_run` becomes the text form of the schedule's next run from now |
| `Execution.App.ManualRun` | main.py:2069-2103 | the jobs to start and the busy names are the manual selection's |
| `Execution.App.SchedulerPass` | main.py:2590-2622 | one pass refreshes every passed `next_run`, saves after each refresh, and returns the due jobs |
| `Execution.App.Examine` | main.py:2595-2613 | one job is refreshed, saved if refreshed, and tested for being due |

## Left out

- The Tk user interface, the tray icon, the Windows service, the
  single-instance lock and the test script. None of these is part of the
  engine.
- Threads and `sleep`. A scheduler pass returns the jobs it would start
  instead of starting threads. The check-then-set of `running` is not
  atomic in the source, and races between threads are not modelled.
- Real I/O. Disks are values, and a failing file operation is a parameter.
  `stat()` and `rmtree()` failures are modelled only where the source
  catches them per file.
- `should_create_snapshot` reads a legacy JSON file. It is the parameter
  `Env.snapshotDue`.
- `get_setting('notification_mode')` and the notification queue table. The
  mode is a field of `Execution.App`, and the queue is a sequence field.
  `notification_processor_loop`, which drains the queue, is not part of
  this model.
- `Execution.App.ExecuteJob`, `Execution.CompletedRunStamps`,
  `Execution.App.SchedulerPass`: every clock read within one run, or
  within one scheduler pass, is the same instant `now`. The source reads
  the clock again at each step: for the backup's name (main.py:2295), its
  `created_at` (main.py:2320), the `CURRENT_TIMESTAMP` of hash and log rows
  (app/database.py:324, app/database.py:339), `last_run` after the executor
  returns (main.py:2257), `calculate_next_run` (main.py:2690), and once per
  job in a scheduler pass (main.py:2601, main.py:2626). So in the model
  `last_run` is the time the backup is named, not the time the run ends,
  and an interval schedule counts from the start of the run where the
  source counts from its end. The run's duration enters only its log row
  and its notice.
- `Files.CopySpecContents`, `Execution.App.WriteArtifact`,
  `Execution.App.MirrorStep`: disk paths are independent entries. The model
  assumes no backup destination, mirror or snapshot path lies inside a
  job's source folder, nor the reverse; only a destination equal to the
  source is handled. In the source a destination inside the source
  (main.py:2190-2193) makes the walk copy earlier backups and the folder
  being written, and the newest-mtime walk (main.py:2380-2384) sees them.
- Sub-second time. `now` is a whole number of seconds. `datetime.now()` and
  the `created_at` stamps written from it carry microseconds, so two records
  made within one second tie in the model where the source orders them.
- File modification times. The source reads them as fractional `st_mtime`
  values and compares them (main.py:2384, main.py:2391, main.py:2449). The
  model's integer times stand for those values in an order-preserving
  encoding, such as nanoseconds. Read as whole seconds instead, a change
  within the same second would be lost; the model does not round them.
- `Text.ParseInt`, `Clock.ParseClock`, `Clock.ParseStamp`: digits are the
  ASCII `0` to `9`. `int()` and `strptime` also accept every other Unicode
  decimal digit, such as the full-width `３`. The model rejects those, so a
  schedule value written with them gives no next run in the model, where
  the source schedules the job.
- `strptime`'s lenient forms of the long stamp, such as unpadded fields.
  Only the canonical 19-character form parses. `%H:%M` follows `strptime`'s
  one-or-two-digit rule.
- SQLite's comparison of ISO date strings. The model compares integer
  times.
- `Store.Cleanup`: keep_days compares `created_at` with
  `datetime('now', '-N days')` as text. The model does not capture two
  mismatches there. `created_at` is local time from `isoformat()`, while
  `datetime('now')` is UTC. And on the cutoff's date, `created_at`'s `T`
  sorts after the cutoff's space, so such a row is never older.
- `Store.KeepDaysExact`: states the integer comparison of `Store.Cleanup`,
  without the time-zone and separator mismatch above.
- `Retention.SelectionAfterCleanupIsEmpty`: holds under the model's integer
  times. The filesystem step compares local times, so with the mismatch
  above it can select, and delete from disk, a file whose row survived the
  database step.
- `Execution.BaseName`, `Execution.Under`, `Files.PathString`: paths are
  `/`-separated text. `Path(p).name` is the last `/`-separated piece, and
  joining puts one `/` between parts. `pathlib`'s normalisation is not
  modelled: a trailing separator, a doubled `/` and `.` pieces give other
  results than in the source. The `\` separator of Windows, on which the
  source also runs (main.py:288, main.py:2126), is not modelled either.
- `Files.SyncIncremental`: when the sync raises, the directories and copies
  it made before the failing entry stay in the source's mirror. The model
  returns the error with the mirror as it was, because which entries come
  before the failure depends on the listing order. When several entries
  fail, the error it returns is the first in name order, not in `os.walk`'s
  order.
- `Execution.App.MirrorStep`: a sync that raises leaves the disk unchanged
  in the model. The source keeps the partly synced mirror.
- `Execution.App.ExecuteIncrementalJob`: after a sync that raises, the
  partly synced mirror is not modelled. As in the source, no hash row is
  recorded and no snapshot is taken.
- `fnmatch` character classes and `?`. Only `*` is modelled.
- `str.format(**kwargs)` in `get`. The value found is returned unformatted.
- `scan_languages`, which reads the languages directory, and
  `get_current_language`, which is the `currentLanguage` field itself. The
  language table and file contents are parameters.
- The database's schema creation, migration from JSON, settings and
  notification-queue methods.
- `Execution.App.ExecuteSimpleJob`: exceptions are modelled only as a fault
  raised when the executor starts, not part-way through a run after some
  files were written.
- `Execution.App.HasChangesSimple`: the fallback to the directory's own
  mtime when a `stat()` fails is not modelled.
- Two backups of the same job in the same second map to the same path.
  The model writes the later one over the earlier.
- Job ids from `int(time.time() * 1000)` are never 0. So `save_jobs` always
  takes its update branch, and the insert branch is not modelled.
- Foreign-key cascades: SQLite leaves them off by default. Rows of deleted
  jobs stay in their tables, and the getters that join with `jobs` hide
  them.
