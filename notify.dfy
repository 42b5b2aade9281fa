/** Desktop notifications about finished runs: `notify_job_result`, which either
    queues a result for the batch summary or shows it at once, and
    `send_batch_notification`, which turns the queued results into one summary.
    Durations are whole tenths of a second. */
module Notify {
  import opened Wrappers
  import opened Text

  /** One call of `show_notification(title, message, timeout)`. */
  datatype Notice = Notice(title: string, message: string, timeout: nat)

  /** One row `add_notification_to_queue` stores. */
  datatype Queued = Queued(jobId: int, jobName: string, status: string, message: string,
                           filesProcessed: int, duration: nat)

  /** What `notify_job_result` does: nothing, queue the result, or show it. */
  datatype Action = Nothing | Enqueue(item: Queued) | Show(notice: Notice)

  const CompletedTitle: string := "\U{2705} Backup Completed"
  const FailedTitle: string := "\U{274C} Backup Failed"
  const SkippedTitle: string := "\U{23F8}\U{FE0F} Backup Skipped"

  /** `f"{d:.1f}"` for a duration of `d` tenths of a second. */
  function FormatTenths(d: nat): (s: string)
    ensures |s| >= 3 && s[|s| - 2] == '.' && IsDigit(s[|s| - 1])
  {
    NatToString(d / 10) + "." + [DigitChar(d % 10)]
  }

  /** Different durations are shown differently. */
  lemma FormatTenthsInjective(a: nat, b: nat)
    requires FormatTenths(a) == FormatTenths(b)
    ensures a == b
  {
    var sa, sb := FormatTenths(a), FormatTenths(b);
    assert NatToString(a / 10) == sa[..|sa| - 2];
    assert NatToString(b / 10) == sb[..|sb| - 2];
    NatToStringValue(a / 10);
    NatToStringValue(b / 10);
    assert DigitValue(DigitChar(a % 10)) == a % 10;
    assert DigitValue(DigitChar(b % 10)) == b % 10;
    assert sa[|sa| - 1] == DigitChar(a % 10) && sb[|sb| - 1] == DigitChar(b % 10);
  }

  /** `message[:50]` followed by `"..."` when the message was longer. */
  function ErrorText(message: string): (r: string)
    ensures |message| <= 50 ==> r == message
    ensures |message| > 50 ==> |r| == 53 && r[..50] == message[..50] && r[50..] == "..."
  {
    Take(message, 50) + (if |message| > 50 then "..." else "")
  }

  /** The notice immediate mode shows for a status; `None` for any status other
      than `success`, `error` and `skipped`. */
  function ImmediateNotice(name: string, status: string, message: string, files: int, duration: nat): (n: Option<Notice>)
    ensures n.Some? <==> status == "success" || status == "error" || status == "skipped"
    ensures n.Some? ==> n.value.timeout == 5 && IsPrefix("Job: " + name + "\n", n.value.message)
    ensures status == "success" ==> n == Some(Notice(CompletedTitle, "Job: " + name + "\n" + IntToString(files)
                                                     + " files processed\nDuration: " + FormatTenths(duration) + "s", 5))
    ensures status == "error" ==> n == Some(Notice(FailedTitle, "Job: " + name + "\nError: " + ErrorText(message), 5))
    ensures status == "skipped" ==> n == Some(Notice(SkippedTitle, "Job: " + name + "\nNo changes detected", 5))
  {
    if status == "success" then
      Some(Notice(CompletedTitle, "Job: " + name + "\n" + IntToString(files)
                                  + " files processed\nDuration: " + FormatTenths(duration) + "s", 5))
    else if status == "error" then
      Some(Notice(FailedTitle, "Job: " + name + "\nError: " + ErrorText(message), 5))
    else if status == "skipped" then
      Some(Notice(SkippedTitle, "Job: " + name + "\nNo changes detected", 5))
    else None
  }

  /** `notify_job_result`: the job's own switch first, then the
      `notification_mode` setting (`'batch'` when unset): `'disabled'` drops the
      result, `'batch'` queues it, any other text shows it at once. */
  function NotifyJobResult(enabled: bool, mode: string, jobId: int, name: string, status: string,
                           message: string, files: int, duration: nat): (a: Action)
    ensures a.Enqueue? <==> enabled && mode == "batch"
    ensures a.Enqueue? ==> a.item == Queued(jobId, name, status, message, files, duration)
    ensures a.Show? <==> enabled && mode != "disabled" && mode != "batch" && ImmediateNotice(name, status, message, files, duration).Some?
    ensures a.Show? ==> a.notice == ImmediateNotice(name, status, message, files, duration).value
  {
    if !enabled || mode == "disabled" then Nothing
    else if mode == "batch" then Enqueue(Queued(jobId, name, status, message, files, duration))
    else
      match ImmediateNotice(name, status, message, files, duration)
      case Some(n) => Show(n)
      case None => Nothing
  }

  // ---------------------------------------------------------------- the summary

  /** How many queued results have the status. */
  function CountStatus(ns: seq<Queued>, status: string): (k: nat)
    ensures k <= |ns|
  {
    if ns == [] then 0 else (if ns[0].status == status then 1 else 0) + CountStatus(ns[1..], status)
  }

  /** The job names of the failed results, in queue order. */
  function FailedNames(ns: seq<Queued>): (names: seq<string>)
    ensures |names| == CountStatus(ns, "error")
    ensures forall n :: n in names <==> exists q :: q in ns && q.status == "error" && q.jobName == n
  {
    if ns == [] then []
    else
      var rest := FailedNames(ns[1..]);
      assert forall q :: q in ns <==> q == ns[0] || q in ns[1..];
      (if ns[0].status == "error" then [ns[0].jobName] else []) + rest
  }

  /** The count lines, each present only when its count is positive. */
  function CountLines(succeeded: nat, failed: nat, skipped: nat): (lines: seq<string>)
    ensures |lines| <= 3
    ensures lines == [] <==> succeeded == 0 && failed == 0 && skipped == 0
    ensures ("\U{2705} " + NatToString(succeeded) + " completed" in lines) <==> succeeded > 0
    ensures ("\U{274C} " + NatToString(failed) + " failed" in lines) <==> failed > 0
    ensures ("\U{23F8}\U{FE0F} " + NatToString(skipped) + " skipped" in lines) <==> skipped > 0
  {
    var a := "\U{2705} " + NatToString(succeeded) + " completed";
    var b := "\U{274C} " + NatToString(failed) + " failed";
    var c := "\U{23F8}\U{FE0F} " + NatToString(skipped) + " skipped";
    assert a[0] != b[0] && a[0] != c[0] && b[0] != c[0];
    (if succeeded > 0 then [a] else []) + (if failed > 0 then [b] else []) + (if skipped > 0 then [c] else [])
  }

  /** At most the first three failed names, then how many were left out. */
  function FailedShown(names: seq<string>): (shown: seq<string>)
    ensures |shown| == if |names| < 3 then |names| else 3
    ensures shown == names[..|shown|]
  {
    Take(names, 3)
  }

  function Hidden(names: seq<string>): (k: nat)
    ensures |FailedShown(names)| + k == |names|
    ensures k > 0 <==> |names| > 3
  {
    if |names| > 3 then |names| - 3 else 0
  }

  /** `"\n\nFailed: " + ", ".join(failed[:3])`, with `" (+k more)"` after it
      when more than three failed; nothing when none failed. */
  function FailedPart(names: seq<string>): string {
    if names == [] then ""
    else
      "\n\nFailed: " + Join(FailedShown(names), ", ")
      + (if Hidden(names) > 0 then " (+" + NatToString(Hidden(names)) + " more)" else "")
  }

  /** `send_batch_notification`: nothing for an empty queue, otherwise one
      notice counting each status and naming the first failures. */
  function BatchNotice(ns: seq<Queued>): (n: Option<Notice>)
    ensures n.Some? <==> ns != []
    ensures n.Some? ==> n.value.title == "\U{1F4CA} Backup Summary (" + NatToString(|ns|) + " jobs)" && n.value.timeout == 10
  {
    if ns == [] then None
    else
      var lines := CountLines(CountStatus(ns, "success"), CountStatus(ns, "error"), CountStatus(ns, "skipped"));
      Some(Notice("\U{1F4CA} Backup Summary (" + NatToString(|ns|) + " jobs)",
                  Join(lines, "\n") + FailedPart(FailedNames(ns)), 10))
  }

  /** The three counts never exceed the number of results, and add up to it
      when every result has one of the three statuses. */
  lemma {:induction false} CountsCover(ns: seq<Queued>)
    ensures CountStatus(ns, "success") + CountStatus(ns, "error") + CountStatus(ns, "skipped") <= |ns|
    ensures (forall q :: q in ns ==> q.status in {"success", "error", "skipped"}) ==>
      CountStatus(ns, "success") + CountStatus(ns, "error") + CountStatus(ns, "skipped") == |ns|
  {
    if ns != [] {
      CountsCover(ns[1..]);
      assert forall q :: q in ns[1..] ==> q in ns;
    }
  }

  /** The counts depend only on which results are queued, not on their order. */
  lemma {:induction false} CountPermutation(a: seq<Queued>, b: seq<Queued>, status: string)
    requires multiset(a) == multiset(b)
    ensures CountStatus(a, status) == CountStatus(b, status)
    decreases |a|
  {
    if a != [] {
      var x := a[0];
      assert x in multiset(b);
      var i :| 0 <= i < |b| && b[i] == x;
      var rest := b[..i] + b[i + 1..];
      assert b == b[..i] + [x] + b[i + 1..];
      assert a == [x] + a[1..];
      assert multiset(a) == multiset{x} + multiset(a[1..]);
      assert multiset(b) == multiset(b[..i]) + multiset{x} + multiset(b[i + 1..]);
      assert multiset(rest) == multiset(b[..i]) + multiset(b[i + 1..]);
      calc {
        multiset(a[1..]);
        multiset(a) - multiset{x};
        multiset(b) - multiset{x};
        multiset(rest);
      }
      CountPermutation(a[1..], rest, status);
      CountRemove(b, i, status);
    }
  }

  lemma {:induction false} CountRemove(b: seq<Queued>, i: int, status: string)
    requires 0 <= i < |b|
    ensures CountStatus(b, status) == (if b[i].status == status then 1 else 0) + CountStatus(b[..i] + b[i + 1..], status)
  {
    if i > 0 {
      CountRemove(b[1..], i - 1, status);
      assert b[1..][..i - 1] + b[1..][i..] == (b[..i] + b[i + 1..])[1..];
    } else {
      assert b[..i] + b[i + 1..] == b[1..];
    }
  }

  /** Counting over two queues one after the other. */
  lemma {:induction false} CountAppend(a: seq<Queued>, b: seq<Queued>, status: string)
    ensures CountStatus(a + b, status) == CountStatus(a, status) + CountStatus(b, status)
  {
    if a != [] {
      CountAppend(a[1..], b, status);
      assert (a + b)[0] == a[0] && (a + b)[1..] == a[1..] + b;
    } else {
      assert a + b == b;
    }
  }

  /** When every queued run succeeded the summary is the single count line. */
  lemma AllSucceeded(ns: seq<Queued>)
    requires ns != [] && forall q :: q in ns ==> q.status == "success"
    ensures BatchNotice(ns).value.message == "\U{2705} " + NatToString(|ns|) + " completed"
  {
    CountsCover(ns);
    NoneWith(ns, "error");
    NoneWith(ns, "skipped");
    var line := "\U{2705} " + NatToString(|ns|) + " completed";
    assert CountStatus(ns, "success") == |ns|;
    OnlySucceededLine(|ns|);
    assert Join([line], "\n") == line;
    assert FailedPart(FailedNames(ns)) == "" by {
      assert FailedNames(ns) == [];
    }
  }

  lemma OnlySucceededLine(n: nat)
    ensures CountLines(n, 0, 0) == if n > 0 then ["\U{2705} " + NatToString(n) + " completed"] else []
  {
  }

  lemma {:induction false} NoneWith(ns: seq<Queued>, status: string)
    requires forall q :: q in ns ==> q.status != status
    ensures CountStatus(ns, status) == 0
  {
    if ns != [] {
      assert forall q :: q in ns[1..] ==> q in ns;
      NoneWith(ns[1..], status);
    }
  }

  /** Failures are named in the summary exactly when some result failed, and
      the left-out count says how many names beyond the first three there were. */
  lemma FailedPartShape(ns: seq<Queued>)
    ensures FailedPart(FailedNames(ns)) == "" <==> CountStatus(ns, "error") == 0
    ensures CountStatus(ns, "error") > 3 ==>
      FailedPart(FailedNames(ns)) == "\n\nFailed: " + Join(FailedNames(ns)[..3], ", ")
        + " (+" + NatToString(CountStatus(ns, "error") - 3) + " more)"
  {
  }
}
