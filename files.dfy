/** The copy and sync engine over file trees: `copy_with_exclusions`,
    `create_zip_backup`, `sync_incremental`, the newest-mtime scan of
    `has_changes_simple`/`update_backup_hash` and `get_folder_size`.

    A tree is what lies below one directory: a map from relative paths (lists
    of names) to directories and files.  The walk visits an entry when neither
    it nor any directory above it is excluded; `os.walk` order is left open (the
    loops take the remaining entries in any order). */
module Files {
  import opened Wrappers
  import opened Text
  import opened Exclusion

  type RelPath = seq<string>

  datatype Node = Dir | File(mtime: int, size: nat)

  type Tree = map<RelPath, Node>

  /** Every entry has a name, and the directory holding it is in the tree. */
  predicate WellFormed(t: Tree) {
    forall c :: c in t ==> |c| >= 1 && (|c| > 1 ==> c[..|c| - 1] in t && t[c[..|c| - 1]].Dir?)
  }

  /** `str(root / c)`. */
  function PathString(root: string, c: RelPath): string {
    root + "/" + Join(c, "/")
  }

  /** The entry at `c` itself is excluded (`path.name` is its last name). */
  predicate SelfExcluded(root: string, c: RelPath, text: string)
    requires |c| >= 1
  {
    ShouldExclude(PathString(root, c), c[|c| - 1], text)
  }

  /** The walk reaches `c`: no directory on the way down and not `c` itself is excluded. */
  predicate Kept(root: string, c: RelPath, text: string) {
    forall j :: 1 <= j <= |c| ==> !SelfExcluded(root, c[..j], text)
  }

  /** What is kept of a tree: directories the walk enters and files it copies. */
  function KeptPart(t: Tree, root: string, text: string): (r: Tree)
    ensures forall c :: c in r <==> c in t && Kept(root, c, text)
  {
    map c | c in t && Kept(root, c, text) :: t[c]
  }

  /** The directory above a kept entry is kept. */
  lemma KeptParent(root: string, c: RelPath, text: string)
    requires |c| > 1 && Kept(root, c, text)
    ensures Kept(root, c[..|c| - 1], text)
  {
    var p := c[..|c| - 1];
    forall j | 1 <= j <= |p|
      ensures !SelfExcluded(root, p[..j], text)
    {
      assert p[..j] == c[..j];
    }
  }

  // ---------------------------------------------------------------- copy_with_exclusions

  /** The new backup folder: every directory the walk enters and every file it
      reaches, except those whose copy failed (the failure is printed and the
      walk goes on); `copy2` keeps the modification time. */
  function CopySpec(src: Tree, root: string, text: string, failing: set<RelPath>): (r: Tree)
  {
    map c | c in src && Kept(root, c, text) && !(src[c].File? && c in failing) :: src[c]
  }

  /** The copy holds exactly the kept directories and the kept files that did not
      fail, each as in the source, and keeps the tree well formed. */
  lemma CopySpecContents(src: Tree, root: string, text: string, failing: set<RelPath>)
    requires WellFormed(src)
    ensures var r := CopySpec(src, root, text, failing);
      && WellFormed(r)
      && (forall c :: c in r ==> c in src && r[c] == src[c] && Kept(root, c, text))
      && (forall c :: c in src && Kept(root, c, text) && src[c].Dir? ==> c in r)
      && (forall c :: c in src && Kept(root, c, text) && src[c].File? && c !in failing ==> c in r)
  {
    var r := CopySpec(src, root, text, failing);
    forall c | c in r && |c| > 1
      ensures c[..|c| - 1] in r && r[c[..|c| - 1]].Dir?
    {
      KeptParent(root, c, text);
    }
  }

  /** `copy_with_exclusions(source, destination, text)` into a fresh folder. */
  method CopyWithExclusions(src: Tree, root: string, text: string, failing: set<RelPath>) returns (dst: Tree)
    ensures dst == CopySpec(src, root, text, failing)
  {
    dst := map[];
    var todo := src.Keys;
    while todo != {}
      invariant todo <= src.Keys
      invariant dst == map c | c in src && c !in todo && Kept(root, c, text) && !(src[c].File? && c in failing) :: src[c]
      decreases todo
    {
      var c :| c in todo;
      if Kept(root, c, text) && !(src[c].File? && c in failing) {
        dst := dst[c := src[c]];
      }
      todo := todo - {c};
    }
  }

  // ---------------------------------------------------------------- create_zip_backup

  /** The archive's members: the walk's files (no directory entries), except
      those that failed to be added. */
  function ZipMembers(src: Tree, root: string, text: string, failing: set<RelPath>): (r: Tree)
  {
    map c | c in src && src[c].File? && Kept(root, c, text) && c !in failing :: src[c]
  }

  /** The simple job's count for a ZIP backup: source files whose own path is not
      excluded, whatever the directories above them. */
  function ZipCount(src: Tree, root: string, text: string): nat {
    |set c | c in src && src[c].File? && |c| >= 1 && !SelfExcluded(root, c, text)|
  }

  /** Every archived file is counted, so the count is never below the number of members. */
  lemma ZipCountCoversMembers(src: Tree, root: string, text: string, failing: set<RelPath>)
    requires WellFormed(src)
    ensures |ZipMembers(src, root, text, failing)| <= ZipCount(src, root, text)
  {
    var m := ZipMembers(src, root, text, failing);
    var counted := set c | c in src && src[c].File? && |c| >= 1 && !SelfExcluded(root, c, text);
    forall c | c in m.Keys
      ensures c in counted
    {
      assert |c| >= 1;
      assert c[..|c|] == c;
    }
    assert m.Keys <= counted;
    CardinalitySubset(m.Keys, counted);
  }

  lemma CardinalitySubset<T>(a: set<T>, b: set<T>)
    requires a <= b
    ensures |a| <= |b|
  {
    assert b == a + (b - a);
  }

  // ---------------------------------------------------------------- name order

  /** Name order on names: code point by code point, a prefix first. */
  predicate NameLe(a: string, b: string)
    decreases |a|
  {
    |a| == 0 || (|b| > 0 && (a[0] < b[0] || (a[0] == b[0] && NameLe(a[1..], b[1..]))))
  }

  /** Name order on paths: name by name, a directory before what lies below it. */
  predicate PathLe(a: RelPath, b: RelPath)
    decreases |a|
  {
    |a| == 0 || (|b| > 0 && ((a[0] != b[0] && NameLe(a[0], b[0])) || (a[0] == b[0] && PathLe(a[1..], b[1..]))))
  }

  lemma {:induction false} NameLeTotal(a: string, b: string)
    ensures NameLe(a, b) || NameLe(b, a)
    decreases |a|
  {
    if |a| > 0 && |b| > 0 && a[0] == b[0] {
      NameLeTotal(a[1..], b[1..]);
    }
  }

  lemma {:induction false} NameLeAntisymmetric(a: string, b: string)
    requires NameLe(a, b) && NameLe(b, a)
    ensures a == b
    decreases |a|
  {
    if |a| > 0 {
      NameLeAntisymmetric(a[1..], b[1..]);
      assert a == [a[0]] + a[1..] && b == [b[0]] + b[1..];
    }
  }

  lemma {:induction false} NameLeTransitive(a: string, b: string, c: string)
    requires NameLe(a, b) && NameLe(b, c)
    ensures NameLe(a, c)
    decreases |a|
  {
    if |a| > 0 && a[0] == b[0] && b[0] == c[0] {
      NameLeTransitive(a[1..], b[1..], c[1..]);
    }
  }

  lemma {:induction false} PathLeTotal(a: RelPath, b: RelPath)
    ensures PathLe(a, b) || PathLe(b, a)
    decreases |a|
  {
    if |a| > 0 && |b| > 0 {
      if a[0] == b[0] {
        PathLeTotal(a[1..], b[1..]);
      } else {
        NameLeTotal(a[0], b[0]);
      }
    }
  }

  lemma {:induction false} PathLeAntisymmetric(a: RelPath, b: RelPath)
    requires PathLe(a, b) && PathLe(b, a)
    ensures a == b
    decreases |a|
  {
    if |a| > 0 {
      if a[0] != b[0] {
        NameLeAntisymmetric(a[0], b[0]);
      }
      PathLeAntisymmetric(a[1..], b[1..]);
      assert a == [a[0]] + a[1..] && b == [b[0]] + b[1..];
    }
  }

  lemma {:induction false} PathLeTransitive(a: RelPath, b: RelPath, c: RelPath)
    requires PathLe(a, b) && PathLe(b, c)
    ensures PathLe(a, c)
    decreases |a|
  {
    if |a| > 0 {
      if a[0] == b[0] && b[0] == c[0] {
        PathLeTransitive(a[1..], b[1..], c[1..]);
      } else if a[0] != b[0] && b[0] != c[0] {
        NameLeTransitive(a[0], b[0], c[0]);
        if a[0] == c[0] {
          NameLeAntisymmetric(a[0], b[0]);
        }
      }
    }
  }

  /** Every non-empty set of paths has a first path in name order. */
  lemma {:induction false} FirstExists(s: set<RelPath>)
    requires s != {}
    ensures exists m :: m in s && forall c :: c in s ==> PathLe(m, c)
    decreases s
  {
    var x :| x in s;
    PathLeTotal(x, x);
    if s - {x} == {} {
      assert s == {x};
    } else {
      FirstExists(s - {x});
      var m :| m in s - {x} && forall c :: c in s - {x} ==> PathLe(m, c);
      PathLeTotal(m, x);
      if PathLe(m, x) {
        assert forall c :: c in s ==> PathLe(m, c);
      } else {
        forall c | c in s
          ensures PathLe(x, c)
        {
          if c != x {
            PathLeTransitive(x, m, c);
          }
        }
      }
    }
  }

  /** The first path of `s` in name order. */
  function First(s: set<RelPath>): (m: RelPath)
    requires s != {}
    ensures m in s && forall c :: c in s ==> PathLe(m, c)
  {
    FirstExists(s);
    assert forall a, b :: PathLe(a, b) && PathLe(b, a) ==> a == b by {
      forall a, b | PathLe(a, b) && PathLe(b, a)
        ensures a == b
      {
        PathLeAntisymmetric(a, b);
      }
    }
    var m :| m in s && forall c :: c in s ==> PathLe(m, c);
    m
  }

  // ---------------------------------------------------------------- sync_incremental

  /** Source and destination never hold a file and a directory under the same path. */
  predicate NoKindClash(src: Tree, dst: Tree) {
    forall c :: c in src && c in dst ==> src[c].Dir? == dst[c].Dir?
  }

  /** `os.walk` reaches `c` and the sync does not skip it: every entry above it
      is a source directory and neither it nor one of them is excluded. */
  predicate Walked(src: Tree, root: string, text: string, c: RelPath) {
    && c in src && |c| >= 1 && Kept(root, c, text)
    && forall j :: 1 <= j < |c| ==> c[..j] in src && src[c[..j]].Dir?
  }

  /** What any walk of the source takes: named source entries, each in a
      source directory when it is not at the top. */
  predicate WalkShape(src: Tree, w: set<RelPath>) {
    forall k :: k in w ==> k in src && |k| >= 1 && (|k| >= 2 ==> k[..|k| - 1] in src && src[k[..|k| - 1]].Dir?)
  }

  /** The entries the sync's walk takes. */
  function WalkedSet(src: Tree, root: string, text: string): (w: set<RelPath>)
    ensures forall c :: c in w <==> Walked(src, root, text, c)
    ensures WalkShape(src, w)
  {
    set c | c in src && Walked(src, root, text, c)
  }

  /** Where `copy2` writes source file `c`: the destination path, or a file of
      the same name inside it when the destination path is a directory. */
  function Target(dst: Tree, c: RelPath): RelPath
    requires |c| >= 1
  {
    if c in dst && dst[c].Dir? then c + [c[|c| - 1]] else c
  }

  /** The copy pass writes `c`: a walked source file whose destination path is
      missing, an older file, or a directory older than it (`stale` are the
      destination directories whose modification time is below that of the
      source file of the same path). */
  predicate Refreshes(src: Tree, dst: Tree, w: set<RelPath>, stale: set<RelPath>, c: RelPath) {
    && c in w && c in src && |c| >= 1 && src[c].File?
    && (c !in dst || (dst[c].File? && src[c].mtime > dst[c].mtime) || (dst[c].Dir? && c in stale))
  }

  /** `copy2` has written into directory `k[..|k| - 1]` a file of that directory's own name. */
  predicate WrittenInto(src: Tree, dst: Tree, w: set<RelPath>, stale: set<RelPath>, done: set<RelPath>, k: RelPath) {
    && |k| >= 2 && k[..|k| - 1] in done && k[|k| - 1] == k[|k| - 2]
    && Refreshes(src, dst, w, stale, k[..|k| - 1]) && k[..|k| - 1] in dst && dst[k[..|k| - 1]].Dir?
  }

  /** What the copy pass may add: source paths and the file names it writes into directories. */
  function Candidates(src: Tree, dst: Tree, done: set<RelPath>): set<RelPath> {
    dst.Keys + src.Keys + set p | p in done && |p| >= 1 :: p + [p[|p| - 1]]
  }

  /** The copy pass done for the source entries in `done`: walked directories
      are created, refreshed files written to their target, everything else left
      as it was. */
  function CopyPassOn(src: Tree, dst: Tree, w: set<RelPath>, stale: set<RelPath>, done: set<RelPath>): Tree {
    map k | k in Candidates(src, dst, done)
            && (k in dst || (k in done && k in w && k in src) || WrittenInto(src, dst, w, stale, done, k)) ::
      if k in done && k in w && k in src && (k !in dst || (Refreshes(src, dst, w, stale, k) && dst[k].File?))
      then src[k]
      else if WrittenInto(src, dst, w, stale, done, k) then src[k[..|k| - 1]]
      else dst[k]
  }

  /** Files the copy pass writes. */
  function CopiedOn(src: Tree, dst: Tree, w: set<RelPath>, stale: set<RelPath>, done: set<RelPath>): set<RelPath> {
    set c | c in done && Refreshes(src, dst, w, stale, c)
  }

  /** `mkdir(parents=True, exist_ok=True)` raises at `c`: a walked source
      directory where the destination has a file. */
  predicate MkdirFails(src: Tree, dst: Tree, w: set<RelPath>, c: RelPath) {
    c in w && c in src && src[c].Dir? && c in dst && dst[c].File?
  }

  /** `copy2` raises at `c`: it writes into a destination directory that holds
      a directory of the file's own name. */
  predicate CopyFails(src: Tree, dst: Tree, w: set<RelPath>, stale: set<RelPath>, c: RelPath) {
    && Refreshes(src, dst, w, stale, c) && c in dst && dst[c].Dir?
    && Target(dst, c) in dst && dst[Target(dst, c)].Dir?
  }

  /** The walked entries at which the copy pass raises. */
  function Failures(src: Tree, dst: Tree, w: set<RelPath>, stale: set<RelPath>): set<RelPath> {
    set c | c in src && (MkdirFails(src, dst, w, c) || CopyFails(src, dst, w, stale, c))
  }

  /** The text of the `FileExistsError` that `mkdir` and `copytree` raise. */
  function Exists(p: string): string {
    "[Errno 17] File exists: '" + p + "'"
  }

  /** The text of the `IsADirectoryError` that `copy2` raises. */
  function IsADirectory(p: string): string {
    "[Errno 21] Is a directory: '" + p + "'"
  }

  /** What is raised at failing entry `c` of a sync into `destRoot`. */
  function FailureText(src: Tree, dst: Tree, destRoot: string, c: RelPath): string
    requires c in src && |c| >= 1
  {
    if src[c].Dir? then Exists(PathString(destRoot, c)) else IsADirectory(PathString(destRoot, Target(dst, c)))
  }

  /** Destination files the deletion pass removes: those with no source entry. */
  function Orphans(src: Tree, dst: Tree): set<RelPath> {
    set c | c in dst && dst[c].File? && c !in src
  }

  /** A sync's new destination and its `files_processed`. */
  datatype Synced = Synced(tree: Tree, count: nat)

  /** The destination after a `sync_incremental` that raises nothing. */
  function SyncSpec(src: Tree, dst: Tree, w: set<RelPath>, stale: set<RelPath>, preserveDeleted: bool): Tree {
    var copied := CopyPassOn(src, dst, w, stale, src.Keys);
    if preserveDeleted then copied else Drop(copied, Orphans(src, copied))
  }

  /** The count of a `sync_incremental` that raises nothing. */
  function SyncCount(src: Tree, dst: Tree, w: set<RelPath>, stale: set<RelPath>, preserveDeleted: bool): nat {
    var copied := CopyPassOn(src, dst, w, stale, src.Keys);
    |CopiedOn(src, dst, w, stale, src.Keys)| + if preserveDeleted then 0 else |Orphans(src, copied)|
  }

  /** `sync_incremental(source, dest, preserve_deleted, text)` into `destRoot`:
      the error of the first failing entry in name order, or the new
      destination and the count. */
  function SyncResult(src: Tree, dst: Tree, root: string, text: string, stale: set<RelPath>, destRoot: string,
                      preserveDeleted: bool): Result<Synced>
  {
    var w := WalkedSet(src, root, text);
    var bad := Failures(src, dst, w, stale);
    if bad != {} then Err(FailureText(src, dst, destRoot, First(bad)))
    else Ok(Synced(SyncSpec(src, dst, w, stale, preserveDeleted), SyncCount(src, dst, w, stale, preserveDeleted)))
  }

  /** `sync_incremental(source, dest, preserve_deleted, text)`. */
  method SyncIncremental(src: Tree, dst0: Tree, root: string, text: string, stale: set<RelPath>, destRoot: string,
                         preserveDeleted: bool)
    returns (r: Result<Synced>)
    ensures r == SyncResult(src, dst0, root, text, stale, destRoot, preserveDeleted)
  {
    ghost var w := WalkedSet(src, root, text);
    var copied := CopyPass(src, dst0, root, text, stale, destRoot);
    if copied.Err? {
      return Err(copied.error);
    }
    assert Failures(src, dst0, w, stale) == {};
    var dst, count := copied.value.tree, copied.value.count;
    assert dst == CopyPassOn(src, dst0, w, stale, src.Keys);
    if !preserveDeleted {
      var removed;
      dst, removed := DeletionPass(src, dst);
      count := count + removed;
    }
    assert dst == SyncSpec(src, dst0, w, stale, preserveDeleted);
    assert count == SyncCount(src, dst0, w, stale, preserveDeleted);
    r := Ok(Synced(dst, count));
  }

  /** The first loop of `sync_incremental`: walk the source in name order,
      create directories, copy missing and newer files, count the copies; stop
      at the first entry that raises. */
  method CopyPass(src: Tree, dst0: Tree, root: string, text: string, stale: set<RelPath>, destRoot: string)
    returns (r: Result<Synced>)
    ensures var w := WalkedSet(src, root, text);
      var bad := Failures(src, dst0, w, stale);
      if bad != {} then r == Err(FailureText(src, dst0, destRoot, First(bad)))
      else r == Ok(Synced(CopyPassOn(src, dst0, w, stale, src.Keys), |CopiedOn(src, dst0, w, stale, src.Keys)|))
  {
    ghost var w := WalkedSet(src, root, text);
    var dst, count := dst0, 0;
    var todo := src.Keys;
    while todo != {}
      invariant todo <= src.Keys
      invariant Failures(src, dst0, w, stale) <= todo
      invariant dst == CopyPassOn(src, dst0, w, stale, src.Keys - todo)
      invariant count == |CopiedOn(src, dst0, w, stale, src.Keys - todo)|
      decreases todo
    {
      var c := First(todo);
      var failure;
      failure, dst, count := CopyEntry(src, dst0, root, text, stale, destRoot, todo, c, dst, count);
      if failure.Some? {
        return Err(failure.value);
      }
      todo := todo - {c};
    }
    assert src.Keys - todo == src.Keys;
    r := Ok(Synced(dst, count));
  }

  /** One entry of the copy pass, the first of those left in name order:
      `mkdir` for a walked directory, `copy2` for a walked file that is missing
      or stale; the error either raises is the pass's first failure. */
  method CopyEntry(src: Tree, dst0: Tree, root: string, text: string, stale: set<RelPath>, destRoot: string,
                   ghost todo: set<RelPath>, c: RelPath, dst: Tree, count: nat)
    returns (failure: Option<string>, dst': Tree, count': nat)
    requires todo <= src.Keys && todo != {} && c == First(todo)
    requires Failures(src, dst0, WalkedSet(src, root, text), stale) <= todo
    requires dst == CopyPassOn(src, dst0, WalkedSet(src, root, text), stale, src.Keys - todo)
    requires count == |CopiedOn(src, dst0, WalkedSet(src, root, text), stale, src.Keys - todo)|
    ensures var w := WalkedSet(src, root, text);
      var bad := Failures(src, dst0, w, stale);
      && (failure.Some? <==> c in bad)
      && (failure.Some? ==> bad != {} && failure.value == FailureText(src, dst0, destRoot, First(bad)))
      && (failure.None? ==> bad <= todo - {c}
                            && dst' == CopyPassOn(src, dst0, w, stale, src.Keys - (todo - {c}))
                            && count' == |CopiedOn(src, dst0, w, stale, src.Keys - (todo - {c}))|)
  {
    ghost var w := WalkedSet(src, root, text);
    ghost var done := src.Keys - todo;
    failure, dst', count' := CopyOne(src, dst0, root, text, stale, destRoot, done, c, dst, count);
    if failure.Some? {
      FirstFailure(src, dst0, w, stale, todo, c);
    } else {
      assert src.Keys - (todo - {c}) == done + {c};
    }
  }

  /** One entry of the copy pass: `mkdir` for a walked directory, `copy2` for
      a walked file that is missing or stale, and the error either raises. */
  method CopyOne(src: Tree, dst0: Tree, root: string, text: string, stale: set<RelPath>, destRoot: string,
                 ghost done: set<RelPath>, c: RelPath, dst: Tree, count: nat)
    returns (failure: Option<string>, dst': Tree, count': nat)
    requires done <= src.Keys && c in src && c !in done
    requires dst == CopyPassOn(src, dst0, WalkedSet(src, root, text), stale, done)
    requires count == |CopiedOn(src, dst0, WalkedSet(src, root, text), stale, done)|
    ensures var w := WalkedSet(src, root, text);
      && (failure.Some? <==> c in Failures(src, dst0, w, stale))
      && (failure.Some? ==> failure.value == FailureText(src, dst0, destRoot, c))
      && (failure.None? ==> dst' == CopyPassOn(src, dst0, w, stale, done + {c})
                            && count' == |CopiedOn(src, dst0, w, stale, done + {c})|)
  {
    ghost var w := WalkedSet(src, root, text);
    CopyPassStep(src, dst0, w, stale, done, c);
    failure, dst', count' := None, dst, count;
    if Walked(src, root, text, c) {
      if src[c].Dir? {
        if c in dst && dst[c].File? {
          return Some(Exists(PathString(destRoot, c))), dst, count;
        }
        if c !in dst {
          dst' := dst[c := Dir];
        }
      } else if c !in dst || (dst[c].File? && src[c].mtime > dst[c].mtime) {
        dst', count' := dst[c := src[c]], count + 1;
      } else if dst[c].Dir? && c in stale {
        var t := c + [c[|c| - 1]];
        if t in dst && dst[t].Dir? {
          return Some(IsADirectory(PathString(destRoot, t))), dst, count;
        }
        dst', count' := dst[t := src[c]], count + 1;
      }
    }
  }

  /** The first entry left to walk that fails is the first failure of all. */
  lemma FirstFailure(src: Tree, dst: Tree, w: set<RelPath>, stale: set<RelPath>, todo: set<RelPath>, c: RelPath)
    requires todo <= src.Keys && c in todo && forall d :: d in todo ==> PathLe(c, d)
    requires Failures(src, dst, w, stale) <= todo
    requires c in Failures(src, dst, w, stale)
    ensures First(Failures(src, dst, w, stale)) == c
  {
    var m := First(Failures(src, dst, w, stale));
    assert m in todo;
    PathLeAntisymmetric(m, c);
  }

  /** Nothing is written into a walked entry's path by `copy2` into a
      directory: the directory above it is a source directory. */
  lemma WalkedNotInto(src: Tree, dst: Tree, w: set<RelPath>, stale: set<RelPath>, done: set<RelPath>, k: RelPath)
    requires WalkShape(src, w) && k in w
    ensures !WrittenInto(src, dst, w, stale, done, k)
  {
  }

  /** One entry of the copy pass: what `c` does to the destination and the count. */
  lemma CopyPassStep(src: Tree, dst0: Tree, w: set<RelPath>, stale: set<RelPath>, done: set<RelPath>, c: RelPath)
    requires WalkShape(src, w) && done <= src.Keys && c in src && c !in done
    ensures var cur := CopyPassOn(src, dst0, w, stale, done);
      && (c in w ==> (c in cur <==> c in dst0) && (c in cur ==> cur[c] == dst0[c]))
      && (Refreshes(src, dst0, w, stale, c) ==>
            var t := Target(dst0, c); (t in cur <==> t in dst0) && (t in cur ==> cur[t] == dst0[t]))
      && CopyPassOn(src, dst0, w, stale, done + {c}) ==
           (if Refreshes(src, dst0, w, stale, c) then cur[Target(dst0, c) := src[c]]
            else if c in w && c !in dst0 then cur[c := src[c]]
            else cur)
      && CopiedOn(src, dst0, w, stale, done + {c}) ==
           CopiedOn(src, dst0, w, stale, done) + (if Refreshes(src, dst0, w, stale, c) then {c} else {})
      && c !in CopiedOn(src, dst0, w, stale, done)
  {
    StepAtSelf(src, dst0, w, stale, done, c);
    if Refreshes(src, dst0, w, stale, c) && c in dst0 && dst0[c].Dir? {
      StepAtInto(src, dst0, w, stale, done, c);
    }
    CopyPassNext(src, dst0, w, stale, done, c);
    CopiedStep(src, dst0, w, stale, done, c);
  }

  /** The tree after one more source entry, as a whole. */
  lemma CopyPassNext(src: Tree, dst0: Tree, w: set<RelPath>, stale: set<RelPath>, done: set<RelPath>, c: RelPath)
    requires WalkShape(src, w) && done <= src.Keys && c in src && c !in done
    ensures var cur := CopyPassOn(src, dst0, w, stale, done);
      CopyPassOn(src, dst0, w, stale, done + {c}) ==
        (if Refreshes(src, dst0, w, stale, c) then cur[Target(dst0, c) := src[c]]
         else if c in w && c !in dst0 then cur[c := src[c]]
         else cur)
  {
    var cur := CopyPassOn(src, dst0, w, stale, done);
    var next := CopyPassOn(src, dst0, w, stale, done + {c});
    var want := if Refreshes(src, dst0, w, stale, c) then cur[Target(dst0, c) := src[c]]
                else if c in w && c !in dst0 then cur[c := src[c]]
                else cur;
    if c in w {
      WalkedNotInto(src, dst0, w, stale, done, c);
    }
    forall k | k in Candidates(src, dst0, done + {c})
      ensures (k in next <==> k in want) && (k in next ==> next[k] == want[k])
    {
      StepAt(src, dst0, w, stale, done, c, k);
    }
    assert next.Keys == want.Keys;
  }

  /** The count after one more source entry. */
  lemma CopiedStep(src: Tree, dst0: Tree, w: set<RelPath>, stale: set<RelPath>, done: set<RelPath>, c: RelPath)
    requires c !in done
    ensures CopiedOn(src, dst0, w, stale, done + {c}) ==
      CopiedOn(src, dst0, w, stale, done) + (if Refreshes(src, dst0, w, stale, c) then {c} else {})
    ensures c !in CopiedOn(src, dst0, w, stale, done)
  {
  }

  /** `CopyPassStep` at one path. */
  lemma StepAt(src: Tree, dst0: Tree, w: set<RelPath>, stale: set<RelPath>, done: set<RelPath>, c: RelPath, k: RelPath)
    requires WalkShape(src, w) && done <= src.Keys && c in src && c !in done
    ensures var cur := CopyPassOn(src, dst0, w, stale, done);
      var next := CopyPassOn(src, dst0, w, stale, done + {c});
      var want := if Refreshes(src, dst0, w, stale, c) then cur[Target(dst0, c) := src[c]]
                  else if c in w && c !in dst0 then cur[c := src[c]]
                  else cur;
      (k in next <==> k in want) && (k in next ==> next[k] == want[k])
  {
    if k == c {
      StepAtSelf(src, dst0, w, stale, done, c);
    } else if Refreshes(src, dst0, w, stale, c) && k == Target(dst0, c) {
      StepAtInto(src, dst0, w, stale, done, c);
    } else {
      StepElsewhere(src, dst0, w, stale, done, c, k);
    }
  }

  lemma StepAtSelf(src: Tree, dst0: Tree, w: set<RelPath>, stale: set<RelPath>, done: set<RelPath>, c: RelPath)
    requires WalkShape(src, w) && done <= src.Keys && c in src && c !in done
    ensures var cur := CopyPassOn(src, dst0, w, stale, done);
      var next := CopyPassOn(src, dst0, w, stale, done + {c});
      && (c in w ==> (c in cur <==> c in dst0) && (c in cur ==> cur[c] == dst0[c]))
      && (c in next <==> c in dst0 || c in w || WrittenInto(src, dst0, w, stale, done, c))
      && (c in next ==>
            next[c] == if c in w && (c !in dst0 || (Refreshes(src, dst0, w, stale, c) && dst0[c].File?)) then src[c] else cur[c])
  {
    if c in w {
      WalkedNotInto(src, dst0, w, stale, done, c);
      WalkedNotInto(src, dst0, w, stale, done + {c}, c);
    } else {
      SameInto(src, dst0, w, stale, done, c, c);
    }
  }

  lemma StepAtInto(src: Tree, dst0: Tree, w: set<RelPath>, stale: set<RelPath>, done: set<RelPath>, c: RelPath)
    requires WalkShape(src, w) && done <= src.Keys && c in src && c !in done
    requires Refreshes(src, dst0, w, stale, c) && c in dst0 && dst0[c].Dir?
    ensures var t := c + [c[|c| - 1]];
      var cur := CopyPassOn(src, dst0, w, stale, done);
      var next := CopyPassOn(src, dst0, w, stale, done + {c});
      && (t in cur <==> t in dst0) && (t in cur ==> cur[t] == dst0[t])
      && t in next && next[t] == src[c]
  {
    var t := c + [c[|c| - 1]];
    assert t[..|t| - 1] == c;
    assert t !in w;
    assert !WrittenInto(src, dst0, w, stale, done, t);
    assert WrittenInto(src, dst0, w, stale, done + {c}, t);
    assert t in Candidates(src, dst0, done + {c});
  }

  /** Whether a file was written into the directory above `k` does not depend
      on an entry other than that directory. */
  lemma SameInto(src: Tree, dst0: Tree, w: set<RelPath>, stale: set<RelPath>, done: set<RelPath>, c: RelPath, k: RelPath)
    requires !(|k| >= 2 && k[..|k| - 1] == c)
    ensures WrittenInto(src, dst0, w, stale, done + {c}, k) == WrittenInto(src, dst0, w, stale, done, k)
  {
  }

  lemma StepElsewhere(src: Tree, dst0: Tree, w: set<RelPath>, stale: set<RelPath>, done: set<RelPath>, c: RelPath, k: RelPath)
    requires WalkShape(src, w) && done <= src.Keys && c in src && c !in done && k != c
    requires !(Refreshes(src, dst0, w, stale, c) && k == Target(dst0, c))
    ensures var cur := CopyPassOn(src, dst0, w, stale, done);
      var next := CopyPassOn(src, dst0, w, stale, done + {c});
      (k in next <==> k in cur) && (k in next ==> next[k] == cur[k])
  {
    if |k| >= 2 && k[..|k| - 1] == c {
      assert k == c + [k[|k| - 1]];
      assert !WrittenInto(src, dst0, w, stale, done + {c}, k);
    } else {
      SameInto(src, dst0, w, stale, done, c, k);
      if |k| >= 2 && k[..|k| - 1] in done && k[|k| - 1] == k[|k| - 2] {
        var p := k[..|k| - 1];
        assert k == p + [p[|p| - 1]];
        assert k in Candidates(src, dst0, done);
      }
    }
  }

  /** A tree without the entries `gone`. */
  function Drop(t: Tree, gone: set<RelPath>): Tree {
    map c | c in t && c !in gone :: t[c]
  }

  /** Dropping one more entry is removing it from the smaller tree. */
  lemma DropOne(t: Tree, gone: set<RelPath>, c: RelPath)
    requires c in t && c !in gone
    ensures Drop(t, gone + {c}) == Drop(t, gone) - {c}
  {
  }

  /** The second loop of `sync_incremental`: remove every destination file that
      has no source entry, count the removals. */
  method DeletionPass(src: Tree, copied: Tree) returns (dst: Tree, count: nat)
    ensures dst == Drop(copied, Orphans(src, copied))
    ensures count == |Orphans(src, copied)|
  {
    dst, count := copied, 0;
    var scan := copied.Keys;
    ghost var removed: set<RelPath> := {};
    while scan != {}
      invariant scan <= copied.Keys
      invariant removed == Orphans(src, copied) - scan
      invariant dst == Drop(copied, removed)
      invariant count == |removed|
      decreases scan
    {
      var c :| c in scan;
      assert c !in removed && c in dst && dst[c] == copied[c];
      if dst[c].File? && c !in src {
        DropOne(copied, removed, c);
        dst := dst - {c};
        removed := removed + {c};
        count := count + 1;
      }
      scan := scan - {c};
    }
    assert removed == Orphans(src, copied);
  }

  /** After a sync every walked source file whose destination path is not a
      directory is in the destination with the source's modification time or a
      newer one. */
  lemma SyncKeepsKeptFiles(src: Tree, dst: Tree, w: set<RelPath>, stale: set<RelPath>, preserveDeleted: bool, c: RelPath)
    requires WalkShape(src, w) && c in w && src[c].File? && !(c in dst && dst[c].Dir?)
    ensures var r := SyncSpec(src, dst, w, stale, preserveDeleted);
      c in r && r[c].File? && r[c].mtime >= src[c].mtime
  {
    WalkedNotInto(src, dst, w, stale, src.Keys, c);
  }

  /** The copy pass changes a destination entry only by writing a newer file
      over an older one, or a file into an older directory at a source file's
      path (a file named like that directory). */
  lemma SyncWritesOnlyStale(src: Tree, dst: Tree, w: set<RelPath>, stale: set<RelPath>, preserveDeleted: bool, c: RelPath)
    requires c in dst
    requires c in SyncSpec(src, dst, w, stale, preserveDeleted)
    requires SyncSpec(src, dst, w, stale, preserveDeleted)[c] != dst[c]
    ensures || (Refreshes(src, dst, w, stale, c) && dst[c].File? && src[c].mtime > dst[c].mtime)
            || (WrittenInto(src, dst, w, stale, src.Keys, c) && c == Target(dst, c[..|c| - 1]))
  {
    if WrittenInto(src, dst, w, stale, src.Keys, c) {
      assert c == c[..|c| - 1] + [c[|c| - 1]];
    }
  }

  /** With `preserve_deleted` nothing is removed from the destination. */
  lemma PreserveRemovesNothing(src: Tree, dst: Tree, w: set<RelPath>, stale: set<RelPath>)
    ensures dst.Keys <= SyncSpec(src, dst, w, stale, true).Keys
  {
  }

  /** Without it, after a sync that raises nothing no destination file is left
      without a source entry, whether or not the source entry was excluded;
      directories are never removed or overwritten. */
  lemma MirrorHasNoOrphans(src: Tree, dst: Tree, w: set<RelPath>, stale: set<RelPath>)
    requires Failures(src, dst, w, stale) == {}
    ensures var r := SyncSpec(src, dst, w, stale, false);
      && (forall c :: c in r && r[c].File? ==> c in src)
      && (forall c :: c in dst && dst[c].Dir? ==> c in r && r[c].Dir?)
      && (forall c :: c in dst && dst[c].File? && c in src ==> c in r)
  {
    forall c | c in dst && dst[c].Dir?
      ensures !WrittenInto(src, dst, w, stale, src.Keys, c)
    {
      if WrittenInto(src, dst, w, stale, src.Keys, c) {
        IntoDirectoryFails(src, dst, w, stale, c);
      }
    }
  }

  /** A file written over a destination directory comes from a `copy2` that raises. */
  lemma IntoDirectoryFails(src: Tree, dst: Tree, w: set<RelPath>, stale: set<RelPath>, k: RelPath)
    requires WrittenInto(src, dst, w, stale, src.Keys, k) && k in dst && dst[k].Dir?
    ensures k[..|k| - 1] in Failures(src, dst, w, stale)
  {
    var p := k[..|k| - 1];
    assert k == p + [p[|p| - 1]];
    assert CopyFails(src, dst, w, stale, p);
  }

  /** A missing (or empty) source, synced without `preserve_deleted`, strips the
      mirror of every file and counts each one. */
  lemma EmptySourceEmptiesMirror(dst: Tree, w: set<RelPath>, stale: set<RelPath>)
    ensures var r := SyncSpec(map[], dst, w, stale, false);
      && (forall c :: c in r ==> r[c].Dir?)
      && SyncCount(map[], dst, w, stale, false) == |set c | c in dst && dst[c].File?|
  {
    var none: Tree := map[];
    var copied := CopyPassOn(none, dst, w, stale, none.Keys);
    assert copied == dst;
    assert CopiedOn(none, dst, w, stale, none.Keys) == {};
    assert Orphans(none, copied) == set c | c in dst && dst[c].File?;
  }

  /** Where source and destination agree on which paths are directories, the
      sync raises nothing. */
  lemma AgreeingKindsNeverFail(src: Tree, dst: Tree, w: set<RelPath>, stale: set<RelPath>)
    requires NoKindClash(src, dst)
    ensures Failures(src, dst, w, stale) == {}
  {
    forall c | c in src
      ensures !MkdirFails(src, dst, w, c) && !CopyFails(src, dst, w, stale, c)
    {
    }
  }

  /** A source file meeting an older destination directory is copied into it,
      and without `preserve_deleted` the deletion pass removes that copy again
      (its source path does not exist), so the count takes it twice and the
      mirror keeps the directory without it. */
  lemma CopyIntoDirectoryIsUndone(src: Tree, dst: Tree, w: set<RelPath>, stale: set<RelPath>, c: RelPath)
    requires WellFormed(src) && Failures(src, dst, w, stale) == {}
    requires c in w && c in src && |c| >= 1 && src[c].File? && c in dst && dst[c].Dir? && c in stale
    ensures var copied := CopyPassOn(src, dst, w, stale, src.Keys);
      && c + [c[|c| - 1]] in copied && copied[c + [c[|c| - 1]]] == src[c]
      && c in CopiedOn(src, dst, w, stale, src.Keys) && c + [c[|c| - 1]] in Orphans(src, copied)
      && c + [c[|c| - 1]] !in SyncSpec(src, dst, w, stale, false)
      && c in SyncSpec(src, dst, w, stale, false) && SyncSpec(src, dst, w, stale, false)[c].Dir?
  {
    var k := c + [c[|c| - 1]];
    assert k[..|k| - 1] == c;
    assert WrittenInto(src, dst, w, stale, src.Keys, k);
    assert k in Candidates(src, dst, src.Keys);
    assert k !in src;
    MirrorHasNoOrphans(src, dst, w, stale);
  }

  /** `copy2` keeps modification times, so where source and destination agree
      on kinds a second sync of an unchanged source writes and removes nothing
      and counts zero. */
  lemma ResyncIsQuiet(src: Tree, dst: Tree, w: set<RelPath>, stale: set<RelPath>, stale': set<RelPath>, preserveDeleted: bool)
    requires WalkShape(src, w) && NoKindClash(src, dst)
    ensures var once := SyncSpec(src, dst, w, stale, preserveDeleted);
      && Failures(src, once, w, stale') == {}
      && SyncSpec(src, once, w, stale', preserveDeleted) == once
      && SyncCount(src, once, w, stale', preserveDeleted) == 0
  {
    var once := SyncSpec(src, dst, w, stale, preserveDeleted);
    SyncSettles(src, dst, w, stale, stale', preserveDeleted);
    AgreeingKindsNeverFail(src, once, w, stale');
    var again := CopyPassOn(src, once, w, stale', src.Keys);
    if !preserveDeleted {
      assert Orphans(src, again) == {};
      assert (map c | c in again && c !in Orphans(src, again) :: again[c]) == again;
    }
  }

  /** Where source and destination agree on kinds, after one sync every walked
      source entry is present with the same kind, walked files are no older
      than their source, and (without `preserve_deleted`) no orphan is left; so
      a second copy pass changes nothing. */
  lemma SyncSettles(src: Tree, dst: Tree, w: set<RelPath>, stale: set<RelPath>, stale': set<RelPath>, preserveDeleted: bool)
    requires WalkShape(src, w) && NoKindClash(src, dst)
    ensures var once := SyncSpec(src, dst, w, stale, preserveDeleted);
      && NoKindClash(src, once)
      && (forall c :: c in w ==> c in once && once[c].Dir? == src[c].Dir?)
      && (forall c :: c in w && src[c].File? ==> once[c].mtime >= src[c].mtime)
      && CopiedOn(src, once, w, stale', src.Keys) == {}
      && CopyPassOn(src, once, w, stale', src.Keys) == once
      && (!preserveDeleted ==> Orphans(src, once) == {})
  {
    var once := SyncSpec(src, dst, w, stale, preserveDeleted);
    FirstSyncFacts(src, dst, w, stale, preserveDeleted);
    SecondPassIdle(src, once, w, stale');
  }

  /** The facts of `SyncSettles` about the first sync. */
  lemma FirstSyncFacts(src: Tree, dst: Tree, w: set<RelPath>, stale: set<RelPath>, preserveDeleted: bool)
    requires WalkShape(src, w) && NoKindClash(src, dst)
    ensures var once := SyncSpec(src, dst, w, stale, preserveDeleted);
      && NoKindClash(src, once)
      && (forall c :: c in w ==> c in once && once[c].Dir? == src[c].Dir?)
      && (forall c :: c in w && src[c].File? ==> once[c].mtime >= src[c].mtime)
      && (!preserveDeleted ==> Orphans(src, once) == {})
  {
    var copied := CopyPassOn(src, dst, w, stale, src.Keys);
    forall k | WrittenInto(src, dst, w, stale, src.Keys, k)
      ensures false
    {
    }
    assert forall c :: c in copied ==> c in dst || c in w;
  }

  /** A copy pass over a destination that agrees on kinds and holds every walked
      file at least as new as its source writes nothing. */
  lemma SecondPassIdle(src: Tree, t: Tree, w: set<RelPath>, stale: set<RelPath>)
    requires WalkShape(src, w) && NoKindClash(src, t)
    requires forall c :: c in w ==> c in t
    requires forall c :: c in w && src[c].File? ==> t[c].File? && t[c].mtime >= src[c].mtime
    ensures CopiedOn(src, t, w, stale, src.Keys) == {}
    ensures CopyPassOn(src, t, w, stale, src.Keys) == t
  {
    var again := CopyPassOn(src, t, w, stale, src.Keys);
    forall k | WrittenInto(src, t, w, stale, src.Keys, k)
      ensures false
    {
    }
    assert again.Keys == t.Keys;
    forall c | c in again
      ensures again[c] == t[c]
    {
    }
  }

  // ---------------------------------------------------------------- scans

  /** The files of a tree. */
  function FileKeys(t: Tree): set<RelPath> {
    set c | c in t && t[c].File?
  }

  /** The newest modification time over the files of a tree, starting from 0:
      `max_mtime` of `has_changes_simple` and `update_backup_hash` (which look at
      every file, excluded or not). */
  method MaxMtime(t: Tree) returns (m: int)
    ensures m >= 0
    ensures forall c :: c in t && t[c].File? ==> t[c].mtime <= m
    ensures m == 0 || exists c :: c in t && t[c].File? && t[c].mtime == m
  {
    m := 0;
    var todo := t.Keys;
    while todo != {}
      invariant todo <= t.Keys
      invariant m >= 0
      invariant forall c :: c in t && c !in todo && t[c].File? ==> t[c].mtime <= m
      invariant m == 0 || exists c :: c in t && t[c].File? && t[c].mtime == m
      decreases todo
    {
      var c :| c in todo;
      if t[c].File? && t[c].mtime > m {
        m := t[c].mtime;
      }
      todo := todo - {c};
    }
  }

  /** The sizes of the files among `ks`, added up. */
  ghost function SizeOf(t: Tree, ks: set<RelPath>): nat
    requires ks <= t.Keys
    decreases ks
  {
    if ks == {} then 0
    else
      var c :| c in ks;
      (if t[c].File? then t[c].size else 0) + SizeOf(t, ks - {c})
  }

  /** The sum does not depend on the order the entries are taken in. */
  lemma {:induction false} SizeOfRemove(t: Tree, ks: set<RelPath>, c: RelPath)
    requires ks <= t.Keys && c in ks
    ensures SizeOf(t, ks) == (if t[c].File? then t[c].size else 0) + SizeOf(t, ks - {c})
    decreases ks
  {
    var d :| d in ks && SizeOf(t, ks) == (if t[d].File? then t[d].size else 0) + SizeOf(t, ks - {d});
    if d != c {
      SizeOfRemove(t, ks - {d}, c);
      SizeOfRemove(t, ks - {c}, d);
      assert ks - {d} - {c} == ks - {c} - {d};
    }
  }

  /** `get_folder_size(folder)`: the sizes of all files below it. */
  method FolderSize(t: Tree) returns (total: nat)
    ensures total == SizeOf(t, t.Keys)
  {
    total := 0;
    var todo := t.Keys;
    while todo != {}
      invariant todo <= t.Keys
      invariant total + SizeOf(t, todo) == SizeOf(t, t.Keys)
      decreases todo
    {
      var c :| c in todo;
      SizeOfRemove(t, todo, c);
      if t[c].File? {
        total := total + t[c].size;
      }
      todo := todo - {c};
    }
  }

  /** Directories add nothing: a tree's size is that of its files. */
  lemma {:induction false} SizeOfFiles(t: Tree, ks: set<RelPath>)
    requires ks <= t.Keys && forall c :: c in ks ==> t[c].Dir?
    ensures SizeOf(t, ks) == 0
    decreases ks
  {
    if ks != {} {
      var c :| c in ks;
      SizeOfRemove(t, ks, c);
      SizeOfFiles(t, ks - {c});
    }
  }

  // ---------------------------------------------------------------- the disk

  /** What a path names: a folder with the tree below it, or a ZIP archive with
      its members. */
  datatype Entry = Folder(tree: Tree) | Archive(members: Tree)

  /** The source folders the jobs read and the artifacts they write, by path. */
  type Disk = map<string, Entry>
}
