/** Restoring a staged backup over the application's files, with rollback. Any file operation
    may fail, and a failing copy may leave anything at its destination. */
module Restore {
  import opened Models

  /** A path is its components, from the root of the file system. */
  type Path = seq<string>

  type Content = seq<bv8>

  datatype AppPaths = AppPaths(dataDir: Path, databaseName: string) {
    function ConfigDir(): Path { dataDir + ["config"] }
    function MapsDir(): Path { dataDir + ["maps"] }
    function DbDir(): Path { dataDir + ["db"] }
    function BackupsDir(): Path { dataDir + ["backups"] }
    function DatabaseFile(): Path { DbDir() + [databaseName] }
  }

  const DATABASE_ENTRY: Path := ["db", "app.sqlite3"]

  /** _restore_target_for; relative paths come from safe archive paths, so they have no '..'. */
  function RestoreTargetFor(paths: AppPaths, relative: Path): Result<Path> {
    if |relative| < 2 then ValueError
    else if relative == DATABASE_ENTRY then Ok(paths.DatabaseFile())
    else if relative[0] == "config" then Ok(paths.ConfigDir() + relative[1..])
    else if relative[0] == "maps" then Ok(paths.MapsDir() + relative[1..])
    else ValueError
  }

  /** Which archive paths have a target: the database, and everything below the configuration and the
      map directory; those two keep their paths. */
  lemma {:induction false} TargetForIff(paths: AppPaths, relative: Path)
    ensures RestoreTargetFor(paths, relative).Ok?
            <==> relative == ["db", "app.sqlite3"]
                 || (|relative| >= 2 && (relative[0] == "config" || relative[0] == "maps"))
    ensures relative == ["db", "app.sqlite3"] ==>
              RestoreTargetFor(paths, relative) == Ok(paths.dataDir + ["db", paths.databaseName])
    ensures RestoreTargetFor(paths, relative).Ok? && relative != ["db", "app.sqlite3"] ==>
              RestoreTargetFor(paths, relative) == Ok(paths.dataDir + relative)
  {
    assert paths.DatabaseFile() == paths.dataDir + ["db", paths.databaseName];
    if |relative| >= 2 {
      assert paths.dataDir + [relative[0]] + relative[1..] == paths.dataDir + relative;
    }
  }

  /** Distinct archive paths never restore to the same file. */
  lemma {:induction false} RestoreTargetInjective(paths: AppPaths, a: Path, b: Path)
    requires RestoreTargetFor(paths, a).Ok? && RestoreTargetFor(paths, a) == RestoreTargetFor(paths, b)
    ensures a == b
  {
    var n := |paths.dataDir|;
    var t := RestoreTargetFor(paths, a).value;
    assert t[n] == a[0] && t[n] == b[0];
    if a != DATABASE_ENTRY && b != DATABASE_ENTRY {
      assert t[n + 1..] == a[1..] == b[1..];
      assert a == [a[0]] + a[1..] && b == [b[0]] + b[1..];
    }
  }

  function TempName(p: Path): Path
    requires p != []
  {
    p[..|p| - 1] + ["." + p[|p| - 1] + ".restore_tmp"]
  }

  function WithSuffix(p: Path, suffix: string): Path
    requires p != []
  {
    p[..|p| - 1] + [p[|p| - 1] + suffix]
  }

  predicate IsSidecar(paths: AppPaths, p: Path) {
    p == WithSuffix(paths.DatabaseFile(), "-wal") || p == WithSuffix(paths.DatabaseFile(), "-shm")
  }

  lemma {:induction false} SidecarsAre(paths: AppPaths, p: Path)
    ensures IsSidecar(paths, p)
            <==> || p == paths.dataDir + ["db", paths.databaseName + "-wal"]
                 || p == paths.dataDir + ["db", paths.databaseName + "-shm"]
  {
    var file := paths.DatabaseFile();
    assert file == paths.dataDir + ["db"] + [paths.databaseName];
    assert file[..|file| - 1] == paths.dataDir + ["db"];
    assert forall suffix: string :: WithSuffix(file, suffix) == paths.dataDir + ["db", paths.databaseName + suffix];
  }

  /** Files of the data directory that are not backups. */
  predicate InLiveArea(paths: AppPaths, p: Path) {
    var n := |paths.dataDir|;
    |p| > n + 1 && p[..n] == paths.dataDir && (p[n] == "config" || p[n] == "maps" || p[n] == "db")
  }

  lemma {:induction false} TargetIsLive(paths: AppPaths, relative: Path)
    requires RestoreTargetFor(paths, relative).Ok?
    ensures var t := RestoreTargetFor(paths, relative).value;
            && InLiveArea(paths, t) && InLiveArea(paths, TempName(t))
            && !IsSidecar(paths, t) && !IsSidecar(paths, TempName(t)) && TempName(t) != t
  {
    var t := RestoreTargetFor(paths, relative).value;
    var n := |paths.dataDir|;
    assert t[..n] == paths.dataDir;
    var last := t[|t| - 1];
    assert TempName(t)[|t| - 1] == "." + last + ".restore_tmp";
    assert |"." + last + ".restore_tmp"| > |last| + 4;
    SuffixDiffers(paths.databaseName, "-wal");
    SuffixDiffers(paths.databaseName, "-shm");
    assert WithSuffix(paths.DatabaseFile(), "-wal")[n] == "db" && WithSuffix(paths.DatabaseFile(), "-shm")[n] == "db";
  }

  lemma {:induction false} SuffixDiffers(name: string, suffix: string)
    requires suffix != []
    ensures name + suffix != name
  {
    assert |name + suffix| != |name|;
  }

  /* ---------- The file system ---------- */

  class FileSystem {
    var files: map<Path, Content>

    /** No fault comes, and no directory is in the way of a file: an operation fails only for want
        of the file it works on. */
    const healthy: bool

    constructor (files: map<Path, Content>, healthy: bool)
      ensures this.files == files && this.healthy == healthy
    {
      this.files := files;
      this.healthy := healthy;
    }

    method Fault() returns (fault: bool)
      ensures healthy ==> !fault
    {
      fault := *;
      fault := fault && !healthy;
    }

    /** shutil.copy2 */
    method Copy(source: Path, destination: Path) returns (ok: bool)
      modifies this
      ensures ok ==> source in old(files) && files == old(files)[destination := old(files)[source]]
      ensures healthy ==> (ok <==> source in old(files))
      ensures source !in old(files) ==> files == old(files)
      ensures forall p :: p != destination ==> Same(old(files), files, p)
      ensures destination in old(files) ==> destination in files
    {
      if source !in files {
        return false;
      }
      var interrupted := Fault();
      if interrupted {
        var leftovers: Content := *;
        var touched: bool := *;
        if touched {
          files := files[destination := leftovers];
        }
        return false;
      }
      files := files[destination := files[source]];
      return true;
    }

    /** Path.replace */
    method Replace(source: Path, destination: Path) returns (ok: bool)
      requires source != destination
      modifies this
      ensures ok ==> source in old(files)
      ensures healthy ==> (ok <==> source in old(files))
      ensures ok ==> files == (old(files) - {source})[destination := old(files)[source]]
      ensures !ok ==> files == old(files)
    {
      var interrupted := Fault();
      if source !in files || interrupted {
        return false;
      }
      files := (files - {source})[destination := files[source]];
      return true;
    }

    /** Path.unlink */
    method Unlink(p: Path) returns (ok: bool)
      modifies this
      ensures ok ==> p in old(files) && files == old(files) - {p}
      ensures healthy ==> (ok <==> p in old(files))
      ensures !ok ==> files == old(files)
    {
      var interrupted := Fault();
      if p !in files || interrupted {
        return false;
      }
      files := files - {p};
      return true;
    }

    /** Path.mkdir(parents=True, exist_ok=True) */
    method MakeDirectory(p: Path) returns (ok: bool)
      ensures healthy ==> ok
    {
      var interrupted := Fault();
      return !interrupted;
    }
  }

  function At(files: map<Path, Content>, p: Path): Option<Content> {
    if p in files then Some(files[p]) else None
  }

  /** The two states have the same file, or no file, at p. */
  predicate Same(a: map<Path, Content>, b: map<Path, Content>, p: Path) {
    At(a, p) == At(b, p)
  }

  /* ---------- The restore loop ---------- */

  /** original is where the rollback copy is, if the target existed. */
  datatype Backup = Backup(target: Path, original: Option<Path>)

  datatype Job = Job(paths: AppPaths, items: seq<Path>, stageDir: Path, rollbackDir: Path) {
    /** The temporary directories are where the source makes them. Items may repeat. */
    ghost predicate Valid() {
      && Apart(stageDir, paths.dataDir)
      && |rollbackDir| == |paths.dataDir| + 2
      && rollbackDir[..|paths.dataDir| + 1] == paths.BackupsDir()
    }

    function Target(i: nat): Result<Path>
      requires i < |items|
    {
      RestoreTargetFor(paths, items[i])
    }

    predicate HasTarget(i: nat)
      requires i < |items|
    {
      Target(i).Ok?
    }

    function Staged(i: nat): Path
      requires i < |items|
    {
      stageDir + items[i]
    }

    /** The rollback copy of a target keeps its path relative to the data directory. */
    function CopyOf(target: Path): Path
      requires |target| >= |paths.dataDir|
    {
      rollbackDir + target[|paths.dataDir|..]
    }

    predicate TargetIs(i: nat, p: Path)
      requires i < |items|
    {
      Target(i) == Ok(p)
    }

    /** Item i works through p as its temporary name. */
    predicate TempIs(i: nat, p: Path)
      requires i < |items|
    {
      Target(i).Ok? && TempName(Target(i).value) == p
    }

    /** Paths the loop may write besides the targets. */
    ghost predicate IsScratch(p: Path) {
      || rollbackDir <= p
      || IsSidecar(paths, p)
      || (exists j :: 0 <= j < |items| && TempIs(j, p))
    }

    ghost predicate IsTarget(p: Path) {
      exists i :: 0 <= i < |items| && TargetIs(i, p)
    }
  }

  /** The paths part ways at some component, so neither is inside the other. */
  predicate Apart(a: Path, b: Path) {
    exists k :: 0 <= k < |a| && k < |b| && a[k] != b[k]
  }

  lemma {:induction false} ApartExtends(a: Path, b: Path, x: Path, y: Path)
    requires Apart(a, b)
    ensures a + x != b + y
  {
    var k :| 0 <= k < |a| && k < |b| && a[k] != b[k];
    assert (a + x)[k] == a[k] && (b + y)[k] == b[k];
  }

  lemma {:induction false} LiveAreaIsApart(job: Job, p: Path)
    requires job.Valid() && InLiveArea(job.paths, p)
    ensures !(job.rollbackDir <= p)
    ensures forall i :: 0 <= i < |job.items| ==> p != job.Staged(i)
  {
    var n := |job.paths.dataDir|;
    assert job.rollbackDir[n] == job.paths.BackupsDir()[n] == "backups";
    assert p == job.paths.dataDir + p[n..];
    forall i | 0 <= i < |job.items|
      ensures p != job.Staged(i)
    {
      ApartExtends(job.stageDir, job.paths.dataDir, job.items[i], p[n..]);
    }
  }

  lemma {:induction false} CopyIsNotStaged(job: Job, target: Path, i: nat)
    requires job.Valid() && |target| >= |job.paths.dataDir| && i < |job.items|
    ensures job.CopyOf(target) != job.Staged(i)
  {
    var n := |job.paths.dataDir|;
    assert job.rollbackDir[..n] == job.paths.BackupsDir()[..n] == job.paths.dataDir;
    assert job.rollbackDir == job.paths.dataDir + job.rollbackDir[n..];
    assert job.CopyOf(target) == job.paths.dataDir + (job.rollbackDir[n..] + target[n..]);
    ApartExtends(job.stageDir, job.paths.dataDir, job.items[i], job.rollbackDir[n..] + target[n..]);
  }

  lemma {:induction false} CopiesDistinct(job: Job, a: Path, b: Path)
    requires InLiveArea(job.paths, a) && InLiveArea(job.paths, b)
    requires job.CopyOf(a) == job.CopyOf(b)
    ensures a == b
  {
    var n := |job.paths.dataDir|;
    assert job.CopyOf(a)[|job.rollbackDir|..] == a[n..] && job.CopyOf(b)[|job.rollbackDir|..] == b[n..];
    assert a == a[..n] + a[n..] && b == b[..n] + b[n..];
  }

  /** Items with one target are the same archive path, so they have one staged file. */
  lemma {:induction false} SharedTargetSameItem(job: Job, i: nat, j: nat, p: Path)
    requires i < |job.items| && j < |job.items| && job.TargetIs(i, p) && job.TargetIs(j, p)
    ensures job.items[i] == job.items[j] && job.Staged(i) == job.Staged(j)
  {
    RestoreTargetInjective(job.paths, job.items[i], job.items[j]);
  }

  lemma {:induction false} SidecarsAreLive(paths: AppPaths, p: Path)
    requires IsSidecar(paths, p)
    ensures InLiveArea(paths, p)
  {
    var n := |paths.dataDir|;
    assert p[..n] == paths.dataDir && p[n] == "db";
  }

  /* ---------- What each path holds ---------- */

  /** What p holds once the first k items are restored: the last of them that concerns p decides. */
  function Held(job: Job, before: map<Path, Content>, p: Path, k: nat): Option<Content>
    requires k <= |job.items|
  {
    if k == 0 then At(before, p)
    else if job.TargetIs(k - 1, p) then At(before, job.Staged(k - 1))
    else if job.TempIs(k - 1, p) then None
    else Held(job, before, p, k - 1)
  }

  /** What the rollback copy of p holds after m entries; None if none was made. A later item with
      the same target overwrites the copy. */
  function Copied(job: Job, before: map<Path, Content>, p: Path, m: nat): Option<Content>
    requires m <= |job.items|
  {
    if m == 0 then None
    else if job.TargetIs(m - 1, p) && Held(job, before, p, m - 1).Some? then Held(job, before, p, m - 1)
    else Copied(job, before, p, m - 1)
  }

  /** p is the target of one of the items lo, ..., hi - 1. */
  predicate TargetIn(job: Job, p: Path, lo: nat, hi: nat)
    requires hi <= |job.items|
  {
    exists i :: lo <= i < hi && job.TargetIs(i, p)
  }

  /** What rolling back the entries m - 1, ..., r leaves at p, which is among their targets: the
      earliest entry comes last. */
  function Rolled(job: Job, before: map<Path, Content>, p: Path, r: nat, m: nat): Option<Content>
    requires m <= |job.items| && TargetIn(job, p, r, m)
    decreases m - r
  {
    if job.TargetIs(r, p) then
      if Held(job, before, p, r).None? then None else Copied(job, before, p, m)
    else Rolled(job, before, p, r + 1, m)
  }

  /** What p holds after k items were restored, m entries were made and all were rolled back. */
  function Recovered(job: Job, before: map<Path, Content>, p: Path, k: nat, m: nat): Option<Content>
    requires k <= |job.items| && m <= |job.items|
  {
    if TargetIn(job, p, 0, m) then Rolled(job, before, p, 0, m) else Held(job, before, p, k)
  }

  /** Neither a rollback copy nor a sidecar. */
  predicate InScope(job: Job, p: Path) {
    !(job.rollbackDir <= p) && !IsSidecar(job.paths, p)
  }

  /** After k restored items every path in scope holds what it should. */
  ghost predicate Tracks(job: Job, before: map<Path, Content>, now: map<Path, Content>, k: nat)
    requires k <= |job.items|
  {
    forall p :: InScope(job, p) ==> At(now, p) == Held(job, before, p, k)
  }

  ghost predicate Confined(job: Job, a: map<Path, Content>, b: map<Path, Content>) {
    && (forall p :: !job.IsTarget(p) && !job.IsScratch(p) ==> Same(a, b, p))
    && (forall i :: 0 <= i < |job.items| ==> Same(a, b, job.Staged(i)))
  }

  ghost predicate AreEntries(job: Job, before: map<Path, Content>, backups: seq<Backup>) {
    && |backups| <= |job.items|
    && (forall i :: 0 <= i < |backups| ==> IsEntry(job, before, backups[i], i))
  }

  ghost predicate IsEntry(job: Job, before: map<Path, Content>, b: Backup, i: nat)
    requires i < |job.items|
  {
    && job.TargetIs(i, b.target) && |b.target| >= |job.paths.dataDir|
    && b.original == if Held(job, before, b.target, i).Some? then Some(job.CopyOf(b.target)) else None
  }

  /** The rollback copy of p holds what it should after m entries. */
  ghost predicate CopyIsGood(job: Job, before: map<Path, Content>, now: map<Path, Content>, p: Path, m: nat)
    requires m <= |job.items|
  {
    && |p| >= |job.paths.dataDir|
    && (Copied(job, before, p, m).Some? ==> At(now, job.CopyOf(p)) == Copied(job, before, p, m))
  }

  ghost predicate CopiesAreGood(job: Job, before: map<Path, Content>, now: map<Path, Content>, m: nat)
    requires m <= |job.items|
  {
    forall i :: 0 <= i < m && job.HasTarget(i) ==> CopyIsGood(job, before, now, job.Target(i).value, m)
  }

  /* ---------- Rollback entries ---------- */

  /** The rollback entry for item i: no copy if the target was missing, else a copy of what was there. */
  ghost predicate Entry(job: Job, was: map<Path, Content>, now: map<Path, Content>, b: Backup, i: nat)
    requires i < |job.items|
  {
    && job.Target(i) == Ok(b.target)
    && |b.target| >= |job.paths.dataDir|
    && b.original == (if b.target in was then Some(job.CopyOf(b.target)) else None)
    && At(now, job.CopyOf(b.target)) == if b.target in was then At(was, b.target) else At(was, job.CopyOf(b.target))
  }

  /* ---------- One item ---------- */

  method BackupOriginal(fs: FileSystem, job: Job, target: Path) returns (r: Result<Option<Path>>)
    requires |target| >= |job.paths.dataDir|
    modifies fs
    ensures forall p :: p != job.CopyOf(target) ==> Same(old(fs.files), fs.files, p)
    ensures fs.healthy ==> r.Ok?
    ensures target !in old(fs.files) ==> fs.files == old(fs.files)
    ensures job.CopyOf(target) in old(fs.files) ==> job.CopyOf(target) in fs.files
    ensures r.Ok? ==> (r.value.None? <==> target !in old(fs.files))
    ensures r.Ok? && r.value.Some? ==> r.value.value == job.CopyOf(target)
    ensures r.Ok? && r.value.Some? ==> job.CopyOf(target) in fs.files
    ensures r.Ok? && r.value.Some? ==> fs.files[job.CopyOf(target)] == old(fs.files)[target]
  {
    if target !in fs.files {
      return Ok(None);
    }
    var destination := job.CopyOf(target);
    if destination != [] {
      var made := fs.MakeDirectory(destination[..|destination| - 1]);
      if !made {
        return ValueError;
      }
    }
    var copied := fs.Copy(target, destination);
    if !copied {
      return ValueError;
    }
    return Ok(Some(destination));
  }

  predicate NoSidecars(paths: AppPaths, files: map<Path, Content>) {
    WithSuffix(paths.DatabaseFile(), "-wal") !in files && WithSuffix(paths.DatabaseFile(), "-shm") !in files
  }

  lemma {:induction false} NoSidecarsIff(paths: AppPaths, files: map<Path, Content>)
    ensures NoSidecars(paths, files) <==> forall p :: IsSidecar(paths, p) ==> p !in files
  {
    assert IsSidecar(paths, WithSuffix(paths.DatabaseFile(), "-wal"));
    assert IsSidecar(paths, WithSuffix(paths.DatabaseFile(), "-shm"));
  }

  /** Failures to remove a sidecar are ignored; stuck says that there was one. */
  method RemoveSidecars(fs: FileSystem, paths: AppPaths) returns (ghost stuck: bool)
    modifies fs
    ensures !stuck ==> NoSidecars(paths, fs.files)
    ensures fs.healthy ==> !stuck
    ensures forall p :: !IsSidecar(paths, p) ==> Same(old(fs.files), fs.files, p)
    ensures forall p :: p in fs.files ==> Same(old(fs.files), fs.files, p)
  {
    var suffixes := ["-wal", "-shm"];
    stuck := false;
    for n := 0 to 2
      invariant forall p :: !IsSidecar(paths, p) ==> Same(old(fs.files), fs.files, p)
      invariant forall p :: p in fs.files ==> Same(old(fs.files), fs.files, p)
      invariant fs.healthy ==> !stuck
      invariant !stuck && n > 0 ==> WithSuffix(paths.DatabaseFile(), "-wal") !in fs.files
      invariant !stuck && n > 1 ==> WithSuffix(paths.DatabaseFile(), "-shm") !in fs.files
    {
      var sidecar := WithSuffix(paths.DatabaseFile(), suffixes[n]);
      assert IsSidecar(paths, sidecar);
      if sidecar in fs.files {
        var removed := fs.Unlink(sidecar);
        stuck := stuck || !removed;
      }
    }
  }

  /** Copies the staged file next to the target, then moves it over the target. */
  method Install(fs: FileSystem, source: Path, target: Path) returns (ok: bool)
    requires target != [] && TempName(target) != target
    modifies fs
    ensures ok ==> source in old(fs.files)
    ensures fs.healthy ==> (ok <==> source in old(fs.files))
    ensures ok ==> fs.files == (old(fs.files) - {TempName(target)})[target := old(fs.files)[source]]
    ensures !ok ==> forall p :: p != TempName(target) ==> Same(old(fs.files), fs.files, p)
    ensures fs.healthy && !ok ==> fs.files == old(fs.files)
  {
    ok := fs.MakeDirectory(target[..|target| - 1]);
    if ok {
      ok := fs.Copy(source, TempName(target));
    }
    if ok {
      ok := fs.Replace(TempName(target), target);
    }
  }

  /** The loop body: entry is what it appended to the rollback list before it went on or failed. */
  method RestoreItem(fs: FileSystem, job: Job, k: nat) returns (ok: bool, entry: Option<Backup>, ghost stuck: bool)
    requires job.Valid() && k < |job.items|
    modifies fs
    ensures fs.healthy ==> !stuck && (ok <==> job.HasTarget(k) && job.Staged(k) in old(fs.files))
    ensures fs.healthy ==> (entry.Some? <==> job.HasTarget(k))
    ensures fs.healthy && !ok ==> forall p :: !(job.rollbackDir <= p) ==> Same(old(fs.files), fs.files, p)
    ensures ok ==> entry.Some?
    ensures entry.Some? ==> job.HasTarget(k) && Entry(job, old(fs.files), fs.files, entry.value, k)
    ensures ok ==> Replaced(job, old(fs.files), fs.files, k)
    ensures ok && !stuck && job.TargetIs(k, job.paths.DatabaseFile()) ==> NoSidecars(job.paths, fs.files)
    ensures ok && NoSidecars(job.paths, old(fs.files)) ==> NoSidecars(job.paths, fs.files)
    ensures !ok ==> Interrupted(job, old(fs.files), fs.files, k, entry.Some?)
  {
    stuck := false;
    var found := job.Target(k);
    if found.ValueError? {
      return false, None, stuck;
    }
    var target := found.value;
    AreasApart(job, k);
    var original := BackupOriginal(fs, job, target);
    ghost var saved := fs.files;
    if original.ValueError? {
      InterruptedIntro(job, k, old(fs.files), saved, saved, false);
      return false, None, stuck;
    }
    entry := Some(Backup(target, original.value));
    assert Same(old(fs.files), saved, job.Staged(k));
    ok := Install(fs, job.Staged(k), target);
    if ok {
      ghost var put := fs.files;
      if target == job.paths.DatabaseFile() {
        stuck := RemoveSidecars(fs, job.paths);
      }
      SidecarsStayGone(job, k, old(fs.files), saved, put, fs.files);
      ReplacedIntro(job, k, old(fs.files), saved, put, fs.files);
    } else {
      InterruptedIntro(job, k, old(fs.files), saved, fs.files, true);
    }
    assert Same(saved, fs.files, job.CopyOf(target));
  }

  /** The rollback copies, the staged files and the live area do not meet. */
  lemma {:induction false} AreasApart(job: Job, k: nat)
    requires job.Valid() && k < |job.items| && job.HasTarget(k)
    ensures var t := job.Target(k).value;
            && |t| >= |job.paths.dataDir| && TempName(t) != t && !IsSidecar(job.paths, t)
            && job.rollbackDir <= job.CopyOf(t) && !(job.rollbackDir <= t) && !(job.rollbackDir <= TempName(t))
            && (forall i :: 0 <= i < |job.items| ==> job.Staged(i) != t && job.Staged(i) != TempName(t))
            && job.CopyOf(t) != job.Staged(k)
    ensures forall p :: IsSidecar(job.paths, p) ==> !(job.rollbackDir <= p)
  {
    var t := job.Target(k).value;
    TargetIsLive(job.paths, job.items[k]);
    LiveAreaIsApart(job, t);
    LiveAreaIsApart(job, TempName(t));
    CopyIsNotStaged(job, t, k);
    forall p | IsSidecar(job.paths, p)
      ensures !(job.rollbackDir <= p)
    {
      SidecarsAreLive(job.paths, p);
      LiveAreaIsApart(job, p);
    }
  }

  lemma {:induction false} SidecarsStayGone(
    job: Job, k: nat,
    was: map<Path, Content>, saved: map<Path, Content>, put: map<Path, Content>, now: map<Path, Content>)
    requires job.Valid() && k < |job.items| && job.HasTarget(k) && |job.Target(k).value| >= |job.paths.dataDir|
    requires forall p :: p != job.CopyOf(job.Target(k).value) ==> Same(was, saved, p)
    requires job.Staged(k) in saved
    requires put == (saved - {TempName(job.Target(k).value)})[job.Target(k).value := saved[job.Staged(k)]]
    requires forall p :: p in now ==> Same(put, now, p)
    ensures NoSidecars(job.paths, was) ==> NoSidecars(job.paths, now)
  {
    AreasApart(job, k);
    forall p | IsSidecar(job.paths, p) && p !in was
      ensures p !in now
    {
      assert Same(was, saved, p);
    }
    assert IsSidecar(job.paths, WithSuffix(job.paths.DatabaseFile(), "-wal"));
    assert IsSidecar(job.paths, WithSuffix(job.paths.DatabaseFile(), "-shm"));
  }

  lemma {:induction false} ReplacedIntro(
    job: Job, k: nat,
    was: map<Path, Content>, saved: map<Path, Content>, put: map<Path, Content>, now: map<Path, Content>)
    requires job.Valid() && k < |job.items| && job.HasTarget(k) && |job.Target(k).value| >= |job.paths.dataDir|
    requires forall p :: p != job.CopyOf(job.Target(k).value) ==> Same(was, saved, p)
    requires job.Staged(k) in saved
    requires put == (saved - {TempName(job.Target(k).value)})[job.Target(k).value := saved[job.Staged(k)]]
    requires forall p :: !(job.TargetIs(k, job.paths.DatabaseFile()) && IsSidecar(job.paths, p)) ==> Same(put, now, p)
    requires forall p :: p in now ==> Same(put, now, p)
    ensures Replaced(job, was, now, k)
    ensures Same(saved, now, job.CopyOf(job.Target(k).value))
  {
    AreasApart(job, k);
    var t := job.Target(k).value;
    assert TempName(t) !in put;
    assert Same(put, now, t) && Same(was, saved, job.Staged(k));
    forall p | job.rollbackDir <= p
      ensures Same(saved, now, p)
      ensures p != job.CopyOf(t) ==> Same(was, now, p)
    {
      assert Same(put, now, p);
      assert p != job.CopyOf(t) ==> Same(was, saved, p);
    }
    forall p | !IsWrittenFor(job, k, p)
      ensures Same(was, now, p)
    {
      assert Same(was, saved, p) && Same(put, now, p);
    }
  }

  lemma {:induction false} InterruptedIntro(
    job: Job, k: nat, was: map<Path, Content>, saved: map<Path, Content>, now: map<Path, Content>, listed: bool)
    requires job.Valid() && k < |job.items| && job.HasTarget(k) && |job.Target(k).value| >= |job.paths.dataDir|
    requires forall p :: p != job.CopyOf(job.Target(k).value) ==> Same(was, saved, p)
    requires forall p :: !(listed && p == TempName(job.Target(k).value)) ==> Same(saved, now, p)
    ensures Interrupted(job, was, now, k, listed)
    ensures Same(saved, now, job.CopyOf(job.Target(k).value))
  {
    AreasApart(job, k);
    var t := job.Target(k).value;
    forall p | p != job.CopyOf(t) && p != TempName(t)
      ensures Same(was, now, p)
    {
      assert Same(was, saved, p) && Same(saved, now, p);
    }
    assert Same(was, saved, TempName(t));
    assert !listed ==> Same(saved, now, TempName(t));
  }

  /** Item k went through: its target holds the staged content and its temporary name is free. */
  ghost predicate Replaced(job: Job, was: map<Path, Content>, now: map<Path, Content>, k: nat)
    requires k < |job.items|
  {
    && job.HasTarget(k)
    && job.Staged(k) in was && At(now, job.Target(k).value) == At(was, job.Staged(k))
    && TempName(job.Target(k).value) !in now
    && (forall p :: !IsWrittenFor(job, k, p) ==> Same(was, now, p))
    && OtherCopiesKept(job, was, now, k)
  }

  /** Item k failed: its target is still as it was; only its temporary name may have been written. */
  ghost predicate Interrupted(job: Job, was: map<Path, Content>, now: map<Path, Content>, k: nat, listed: bool)
    requires k < |job.items|
  {
    && (listed ==> job.HasTarget(k))
    && (forall p :: !(job.rollbackDir <= p) && !(listed && p == TempName(job.Target(k).value)) ==> Same(was, now, p))
    && OtherCopiesKept(job, was, now, k)
  }

  ghost predicate IsWrittenFor(job: Job, k: nat, p: Path)
    requires k < |job.items| && job.HasTarget(k)
  {
    var t := job.Target(k).value;
    p == t || p == TempName(t) || job.rollbackDir <= p || (t == job.paths.DatabaseFile() && IsSidecar(job.paths, p))
  }

  ghost predicate OtherCopiesKept(job: Job, was: map<Path, Content>, now: map<Path, Content>, k: nat)
    requires k < |job.items|
  {
    forall p :: job.rollbackDir <= p && !(job.HasTarget(k) && p == job.CopyOf(job.Target(k).value)) ==>
             Same(was, now, p)
  }

  /* ---------- One item further ---------- */

  /** Staged files are in scope, and no item's target or temporary name. */
  lemma {:induction false} StagedApart(job: Job, i: nat)
    requires job.Valid() && i < |job.items|
    ensures !InLiveArea(job.paths, job.Staged(i)) && InScope(job, job.Staged(i))
  {
    var n := |job.paths.dataDir|;
    var k :| 0 <= k < |job.stageDir| && k < n && job.stageDir[k] != job.paths.dataDir[k];
    assert job.Staged(i)[k] == job.stageDir[k];
    assert job.rollbackDir[k] == job.rollbackDir[..n + 1][k] == job.paths.BackupsDir()[k] == job.paths.dataDir[k];
    assert n < |job.Staged(i)| ==> job.Staged(i)[..n][k] == job.Staged(i)[k];
    assert IsSidecar(job.paths, job.Staged(i)) ==> InLiveArea(job.paths, job.Staged(i)) by {
      if IsSidecar(job.paths, job.Staged(i)) {
        SidecarsAreLive(job.paths, job.Staged(i));
      }
    }
  }

  lemma {:induction false} TargetInScope(job: Job, i: nat)
    requires job.Valid() && i < |job.items| && job.HasTarget(i)
    ensures var t := job.Target(i).value;
            InLiveArea(job.paths, t) && InScope(job, t) && InScope(job, TempName(t)) && |t| >= |job.paths.dataDir|
  {
    TargetIsLive(job.paths, job.items[i]);
    LiveAreaIsApart(job, job.Target(i).value);
    LiveAreaIsApart(job, TempName(job.Target(i).value));
  }

  lemma {:induction false} HeldOfOther(job: Job, before: map<Path, Content>, p: Path, k: nat)
    requires k <= |job.items| && forall i :: 0 <= i < k ==> !job.TargetIs(i, p) && !job.TempIs(i, p)
    ensures Held(job, before, p, k) == At(before, p)
  {
    if k > 0 {
      HeldOfOther(job, before, p, k - 1);
    }
  }

  lemma {:induction false} HeldOfStaged(job: Job, before: map<Path, Content>, i: nat, k: nat)
    requires job.Valid() && i < |job.items| && k <= |job.items|
    ensures Held(job, before, job.Staged(i), k) == At(before, job.Staged(i))
  {
    StagedApart(job, i);
    forall j | 0 <= j < k
      ensures !job.TargetIs(j, job.Staged(i)) && !job.TempIs(j, job.Staged(i))
    {
      if job.HasTarget(j) {
        TargetIsLive(job.paths, job.items[j]);
      }
    }
    HeldOfOther(job, before, job.Staged(i), k);
  }

  lemma {:induction false} TracksNext(
    job: Job, before: map<Path, Content>, was: map<Path, Content>, now: map<Path, Content>, k: nat)
    requires job.Valid() && k < |job.items| && Tracks(job, before, was, k) && Replaced(job, was, now, k)
    ensures Tracks(job, before, now, k + 1)
    ensures job.Staged(k) in before
  {
    StagedApart(job, k);
    HeldOfStaged(job, before, k, k);
    assert At(was, job.Staged(k)) == At(before, job.Staged(k));
    forall p | InScope(job, p)
      ensures At(now, p) == Held(job, before, p, k + 1)
    {
      if !job.TargetIs(k, p) && !job.TempIs(k, p) {
        assert !IsWrittenFor(job, k, p);
        assert Same(was, now, p);
      }
    }
  }

  lemma {:induction false} EntryNext(
    job: Job, before: map<Path, Content>, was: map<Path, Content>, now: map<Path, Content>, backups: seq<Backup>,
    b: Backup)
    requires job.Valid() && |backups| < |job.items| && AreEntries(job, before, backups)
    requires Tracks(job, before, was, |backups|) && Entry(job, was, now, b, |backups|)
    ensures AreEntries(job, before, backups + [b])
  {
    var k, all := |backups|, backups + [b];
    TargetInScope(job, k);
    forall i | 0 <= i < |all|
      ensures IsEntry(job, before, all[i], i)
    {
      assert i < k ==> all[i] == backups[i] && IsEntry(job, before, backups[i], i);
    }
  }

  lemma {:induction false} CopiesNext(
    job: Job, before: map<Path, Content>, was: map<Path, Content>, now: map<Path, Content>, k: nat, b: Backup)
    requires job.Valid() && k < |job.items| && Tracks(job, before, was, k) && CopiesAreGood(job, before, was, k)
    requires Entry(job, was, now, b, k) && OtherCopiesKept(job, was, now, k)
    ensures CopiesAreGood(job, before, now, k + 1)
  {
    TargetInScope(job, k);
    forall i | 0 <= i < k + 1 && job.HasTarget(i)
      ensures CopyIsGood(job, before, now, job.Target(i).value, k + 1)
    {
      TargetInScope(job, i);
      if job.Target(i) == job.Target(k) {
        SharedCopyGood(job, before, was, now, k, b);
      } else {
        OtherCopyKept(job, before, was, now, i, k);
      }
    }
  }

  lemma {:induction false} SharedCopyGood(
    job: Job, before: map<Path, Content>, was: map<Path, Content>, now: map<Path, Content>, k: nat, b: Backup)
    requires job.Valid() && k < |job.items| && Tracks(job, before, was, k) && CopiesAreGood(job, before, was, k)
    requires Entry(job, was, now, b, k)
    ensures CopyIsGood(job, before, now, b.target, k + 1)
  {
    TargetInScope(job, k);
    NoEntryNoCopy(job, before, b.target, k);
    if TargetIn(job, b.target, 0, k) {
      var i :| 0 <= i < k && job.TargetIs(i, b.target);
      assert job.HasTarget(i) && job.Target(i).value == b.target;
      assert CopyIsGood(job, before, was, b.target, k);
    }
  }

  lemma {:induction false} NoEntryNoCopy(job: Job, before: map<Path, Content>, p: Path, m: nat)
    requires m <= |job.items|
    ensures !TargetIn(job, p, 0, m) ==> Copied(job, before, p, m).None?
  {
    if m > 0 {
      NoEntryNoCopy(job, before, p, m - 1);
      assert TargetIn(job, p, 0, m - 1) ==> TargetIn(job, p, 0, m);
    }
  }

  lemma {:induction false} OtherCopyKept(
    job: Job, before: map<Path, Content>, was: map<Path, Content>, now: map<Path, Content>, i: nat, k: nat)
    requires job.Valid() && i < k < |job.items| && job.HasTarget(i) && job.Target(i) != job.Target(k)
    requires CopiesAreGood(job, before, was, k) && OtherCopiesKept(job, was, now, k)
    ensures CopyIsGood(job, before, now, job.Target(i).value, k)
    ensures CopyIsGood(job, before, now, job.Target(i).value, k + 1)
  {
    var t := job.Target(i).value;
    assert CopyIsGood(job, before, was, t, k);
    TargetInScope(job, i);
    if job.HasTarget(k) {
      TargetInScope(job, k);
      if job.CopyOf(t) == job.CopyOf(job.Target(k).value) {
        CopiesDistinct(job, t, job.Target(k).value);
        assert false;
      }
    }
    assert Same(was, now, job.CopyOf(t));
  }

  /* ---------- Rollback ---------- */

  method RollBackOne(fs: FileSystem, b: Backup) returns (ok: bool)
    requires b.target != []
    modifies fs
    ensures fs.healthy && (b.original.Some? ==> b.original.value in old(fs.files)) ==> ok
    ensures forall p :: p != b.target ==> Same(old(fs.files), fs.files, p)
    ensures ok ==> At(fs.files, b.target) == if b.original.Some? then At(old(fs.files), b.original.value) else None
    ensures ok && b.original.Some? ==> b.original.value in old(fs.files)
  {
    match b.original {
      case None =>
        if b.target in fs.files {
          ok := fs.Unlink(b.target);
        } else {
          ok := true;
        }
      case Some(original) =>
        ok := fs.MakeDirectory(b.target[..|b.target| - 1]);
        if ok {
          ok := fs.Copy(original, b.target);
        }
    }
  }

  /** A failing step is logged and the next one tried; clean says that none failed. */
  method RollbackRestoredFiles(fs: FileSystem, job: Job, backups: seq<Backup>, ghost before: map<Path, Content>)
    returns (clean: bool)
    requires job.Valid() && AreEntries(job, before, backups)
    modifies fs
    ensures fs.healthy && CopiesAreGood(job, before, old(fs.files), |backups|) ==> clean
    ensures clean ==>
              forall p :: TargetIn(job, p, 0, |backups|) && CopyIsGood(job, before, old(fs.files), p, |backups|) ==>
                            At(fs.files, p) == Rolled(job, before, p, 0, |backups|)
    ensures forall p :: !TargetIn(job, p, 0, |backups|) ==> Same(old(fs.files), fs.files, p)
  {
    clean := true;
    ghost var m := |backups|;
    for r := |backups| downto 0
      invariant fs.healthy && CopiesAreGood(job, before, old(fs.files), m) ==> clean
      invariant clean ==> RolledDown(job, before, old(fs.files), fs.files, r, m)
      invariant forall p :: !TargetIn(job, p, r, m) ==> Same(old(fs.files), fs.files, p)
    {
      ghost var was := fs.files;
      assert IsEntry(job, before, backups[r], r);
      TargetInScope(job, r);
      CopyUntouched(job, r, m, old(fs.files), was);
      CopyWasMade(job, before, backups[r].target, r, m);
      var ok := RollBackOne(fs, backups[r]);
      TargetInNext(job, r, m);
      if clean && ok {
        RolledNext(job, before, old(fs.files), was, fs.files, backups[r], r, m);
      }
      clean := clean && ok;
      forall p | !TargetIn(job, p, r, m)
        ensures Same(old(fs.files), fs.files, p)
      {
        assert !TargetIn(job, p, r + 1, m) && !job.TargetIs(r, p);
        assert Same(old(fs.files), was, p) && Same(was, fs.files, p);
      }
    }
  }

  ghost predicate RolledDown(
    job: Job, before: map<Path, Content>, failed: map<Path, Content>, now: map<Path, Content>, r: nat, m: nat)
    requires m <= |job.items|
  {
    forall p :: TargetIn(job, p, r, m) && CopyIsGood(job, before, failed, p, m) ==>
      At(now, p) == Rolled(job, before, p, r, m)
  }

  lemma {:induction false} TargetInNext(job: Job, r: nat, m: nat)
    requires r < m <= |job.items|
    ensures forall p :: TargetIn(job, p, r, m) <==> job.TargetIs(r, p) || TargetIn(job, p, r + 1, m)
  {
    forall p | TargetIn(job, p, r + 1, m) || job.TargetIs(r, p)
      ensures TargetIn(job, p, r, m)
    {
      if TargetIn(job, p, r + 1, m) {
        var i :| r + 1 <= i < m && job.TargetIs(i, p);
      }
    }
  }

  /** Rolling back writes targets only, so the copies stay. */
  lemma {:induction false} CopyUntouched(job: Job, r: nat, m: nat, failed: map<Path, Content>, was: map<Path, Content>)
    requires job.Valid() && r < m <= |job.items| && job.HasTarget(r)
    requires forall p :: !TargetIn(job, p, r + 1, m) ==> Same(failed, was, p)
    ensures |job.Target(r).value| >= |job.paths.dataDir|
    ensures Same(failed, was, job.CopyOf(job.Target(r).value))
  {
    TargetInScope(job, r);
    var copy := job.CopyOf(job.Target(r).value);
    assert job.rollbackDir <= copy;
    forall i | r + 1 <= i < m
      ensures !job.TargetIs(i, copy)
    {
      if job.HasTarget(i) {
        TargetInScope(job, i);
      }
    }
    assert !TargetIn(job, copy, r + 1, m);
  }

  lemma {:induction false} CopyWasMade(job: Job, before: map<Path, Content>, p: Path, r: nat, m: nat)
    requires r < m <= |job.items| && job.TargetIs(r, p)
    ensures Held(job, before, p, r).Some? ==> Copied(job, before, p, m).Some?
  {
    if r < m - 1 {
      CopyWasMade(job, before, p, r, m - 1);
    }
  }

  lemma {:induction false} RolledNext(
    job: Job, before: map<Path, Content>, failed: map<Path, Content>, was: map<Path, Content>, now: map<Path, Content>,
    b: Backup, r: nat, m: nat)
    requires r < m <= |job.items| && IsEntry(job, before, b, r)
    requires RolledDown(job, before, failed, was, r + 1, m)
    requires forall p :: TargetIn(job, p, r, m) <==> job.TargetIs(r, p) || TargetIn(job, p, r + 1, m)
    requires Same(failed, was, job.CopyOf(b.target))
    requires b.original.Some? ==> Copied(job, before, b.target, m).Some?
    requires forall p :: p != b.target ==> Same(was, now, p)
    requires At(now, b.target) == if b.original.Some? then At(was, b.original.value) else None
    ensures RolledDown(job, before, failed, now, r, m)
  {
    forall p | TargetIn(job, p, r, m) && CopyIsGood(job, before, failed, p, m)
      ensures At(now, p) == Rolled(job, before, p, r, m)
    {
      if p != b.target {
        assert TargetIn(job, p, r + 1, m);
        assert Same(was, now, p);
      }
    }
  }

  /* ---------- The whole restore ---------- */

  /** restored counts the items that went through, listed the rollback entries; clean says that
      no rollback step failed. */
  datatype Report = Report(ok: bool, restored: nat, listed: nat, clean: bool)

  /** The first k items have targets and staged files. */
  ghost predicate CanRestore(job: Job, before: map<Path, Content>, k: nat)
    requires k <= |job.items|
  {
    forall i :: 0 <= i < k ==> job.HasTarget(i) && job.Staged(i) in before
  }

  /** The fault itself may have left something at two kinds of paths that rollback does not mend:
      the rollback copy of a target shared with an earlier item, and the temporary name. */
  predicate Settled(job: Job, p: Path, k: nat, m: nat)
    requires k < |job.items| && m <= |job.items|
  {
    && !(m == k && job.TargetIs(k, p) && TargetIn(job, p, 0, k))
    && !(m == k + 1 && job.TempIs(k, p) && !TargetIn(job, p, 0, m))
  }

  /** The points at which a restore can fail: at item k, with or without its rollback entry. */
  ghost predicate IsFailure(job: Job, before: map<Path, Content>, k: nat, m: nat) {
    && k < |job.items| && k <= m <= k + 1
    && CanRestore(job, before, k) && (m == k + 1 ==> job.HasTarget(k))
  }

  ghost predicate RecoversTo(
    job: Job, before: map<Path, Content>, now: map<Path, Content>, healthy: bool, k: nat, m: nat)
    requires k < |job.items| && m <= |job.items|
  {
    forall p :: InScope(job, p) && (healthy || Settled(job, p, k, m)) ==> At(now, p) == Recovered(job, before, p, k, m)
  }

  /** What a restore promises, whatever fails in it. */
  ghost predicate Outcome(job: Job, before: map<Path, Content>, now: map<Path, Content>, healthy: bool, r: Report) {
    && Confined(job, before, now)
    && (if r.ok then
          && r.restored == r.listed == |job.items| && CanRestore(job, before, r.restored)
          && Tracks(job, before, now, r.restored)
        else
          && IsFailure(job, before, r.restored, r.listed)
          && (r.clean ==> RecoversTo(job, before, now, healthy, r.restored, r.listed)))
    && (healthy ==> r.clean)
    && (healthy && !r.ok ==> !CanRestore(job, before, r.restored + 1))
    && (healthy && !r.ok ==> (r.listed == r.restored + 1 <==> job.HasTarget(r.restored)))
  }

  ghost predicate DatabaseAmong(job: Job, k: nat)
    requires k <= |job.items|
  {
    TargetIn(job, job.paths.DatabaseFile(), 0, k)
  }

  ghost predicate SidecarsSame(job: Job, a: map<Path, Content>, b: map<Path, Content>) {
    forall p :: IsSidecar(job.paths, p) ==> Same(a, b, p)
  }

  /** The sidecars are as before unless the database was restored; then they are gone, also after
      a failure, unless one could not be removed. */
  ghost predicate SidecarOutcome(job: Job, before: map<Path, Content>, now: map<Path, Content>, k: nat, stuck: bool)
    requires k <= |job.items|
  {
    && (!DatabaseAmong(job, k) ==> SidecarsSame(job, before, now))
    && (DatabaseAmong(job, k) && !stuck ==> NoSidecars(job.paths, now))
  }

  /** _restore_validated_files; stuck says that a sidecar could not be removed. */
  method RestoreValidatedFiles(fs: FileSystem, job: Job) returns (r: Report, ghost stuck: bool)
    requires job.Valid()
    modifies fs
    ensures Outcome(job, old(fs.files), fs.files, fs.healthy, r)
    ensures r.restored <= |job.items| && SidecarOutcome(job, old(fs.files), fs.files, r.restored, stuck)
    ensures fs.healthy ==> !stuck
  {
    var backups: seq<Backup> := [];
    ghost var before := fs.files;
    var restored: nat := 0;
    stuck := false;
    while restored < |job.items|
      invariant restored <= |job.items| && InLoop(job, before, fs.files, backups, restored)
      invariant SidecarOutcome(job, before, fs.files, restored, stuck)
      invariant fs.healthy ==> !stuck
    {
      ghost var was := fs.files;
      StagedStill(job, before, was, restored);
      var done, entry;
      ghost var left;
      done, entry, left := RestoreItem(fs, job, restored);
      if entry.Some? {
        EntryMade(job, before, was, fs.files, backups, restored, entry.value);
        backups := backups + [entry.value];
      }
      if !done {
        ghost var failed := fs.files;
        HealthyCopies(job, before, was, failed, restored, |backups|);
        var clean := RollbackRestoredFiles(fs, job, backups, before);
        r := Report(false, restored, |backups|, clean);
        FailureOutcome(job, before, was, failed, fs.files, fs.healthy, r, stuck);
        return;
      }
      SidecarsNext(job, before, was, fs.files, restored, stuck, left);
      LoopNext(job, before, was, fs.files, backups, restored);
      stuck := stuck || left;
      restored := restored + 1;
    }
    r := Report(true, restored, |backups|, true);
    SuccessOutcome(job, before, fs.files, fs.healthy, backups, r);
  }

  /** Where the loop stands after k items. */
  ghost predicate InLoop(job: Job, before: map<Path, Content>, now: map<Path, Content>, backups: seq<Backup>, k: nat)
    requires k <= |job.items|
  {
    && |backups| == k && AreEntries(job, before, backups)
    && Tracks(job, before, now, k) && CanRestore(job, before, k) && CopiesAreGood(job, before, now, k)
  }

  lemma {:induction false} LoopNext(
    job: Job, before: map<Path, Content>, was: map<Path, Content>, now: map<Path, Content>, backups: seq<Backup>,
    k: nat)
    requires job.Valid() && k < |job.items| && Tracks(job, before, was, k) && CanRestore(job, before, k)
    requires Replaced(job, was, now, k)
    requires |backups| == k + 1 && AreEntries(job, before, backups) && CopiesAreGood(job, before, now, k + 1)
    ensures InLoop(job, before, now, backups, k + 1)
  {
    TracksNext(job, before, was, now, k);
  }

  lemma {:induction false} SuccessOutcome(
    job: Job, before: map<Path, Content>, now: map<Path, Content>, healthy: bool, backups: seq<Backup>, r: Report)
    requires job.Valid() && InLoop(job, before, now, backups, |job.items|)
    requires r == Report(true, |job.items|, |job.items|, true)
    ensures Outcome(job, before, now, healthy, r)
  {
    TracksIsConfined(job, before, now, |job.items|);
  }

  lemma {:induction false} StagedStill(job: Job, before: map<Path, Content>, now: map<Path, Content>, k: nat)
    requires job.Valid() && k < |job.items| && Tracks(job, before, now, k)
    ensures job.Staged(k) in now <==> job.Staged(k) in before
  {
    StagedApart(job, k);
    HeldOfStaged(job, before, k, k);
  }

  lemma {:induction false} EntryMade(
    job: Job, before: map<Path, Content>, was: map<Path, Content>, now: map<Path, Content>, backups: seq<Backup>,
    k: nat, b: Backup)
    requires job.Valid() && k < |job.items| && InLoop(job, before, was, backups, k)
    requires Entry(job, was, now, b, k) && OtherCopiesKept(job, was, now, k)
    ensures AreEntries(job, before, backups + [b]) && CopiesAreGood(job, before, now, k + 1)
  {
    EntryNext(job, before, was, now, backups, b);
    CopiesNext(job, before, was, now, k, b);
  }

  lemma {:induction false} SidecarsNext(
    job: Job, before: map<Path, Content>, was: map<Path, Content>, now: map<Path, Content>, k: nat, stuck: bool,
    left: bool)
    requires job.Valid() && k < |job.items| && SidecarOutcome(job, before, was, k, stuck) && Replaced(job, was, now, k)
    requires !left && job.TargetIs(k, job.paths.DatabaseFile()) ==> NoSidecars(job.paths, now)
    requires NoSidecars(job.paths, was) ==> NoSidecars(job.paths, now)
    ensures SidecarOutcome(job, before, now, k + 1, stuck || left)
  {
    AreasApart(job, k);
    TargetIsLive(job.paths, job.items[k]);
    var database := job.paths.DatabaseFile();
    assert DatabaseAmong(job, k + 1) <==> DatabaseAmong(job, k) || job.TargetIs(k, database);
    if !DatabaseAmong(job, k + 1) {
      forall p | IsSidecar(job.paths, p)
        ensures Same(before, now, p)
      {
        assert !IsWrittenFor(job, k, p);
        assert Same(before, was, p) && Same(was, now, p);
      }
    }
  }

  /** After a failed item the other copies are good; all are when its own copy was made or not begun. */
  lemma {:induction false} HealthyCopies(
    job: Job, before: map<Path, Content>, was: map<Path, Content>, failed: map<Path, Content>, k: nat, m: nat)
    requires job.Valid() && k < |job.items| && k <= m <= k + 1
    requires CopiesAreGood(job, before, was, k) && Interrupted(job, was, failed, k, m == k + 1)
    requires m == k + 1 ==> CopiesAreGood(job, before, failed, m)
    ensures forall i :: 0 <= i < m && job.HasTarget(i) && !(m == k && job.Target(i) == job.Target(k)) ==>
              CopyIsGood(job, before, failed, job.Target(i).value, m)
    ensures m == k && !job.HasTarget(k) ==> CopiesAreGood(job, before, failed, m)
  {
    if m == k {
      forall i | 0 <= i < k && job.HasTarget(i) && job.Target(i) != job.Target(k)
        ensures CopyIsGood(job, before, failed, job.Target(i).value, k)
      {
        OtherCopyKept(job, before, was, failed, i, k);
      }
    }
  }

  lemma {:induction false} TracksIsConfined(job: Job, before: map<Path, Content>, now: map<Path, Content>, k: nat)
    requires job.Valid() && k <= |job.items| && Tracks(job, before, now, k)
    ensures Confined(job, before, now)
  {
    forall p | !job.IsTarget(p) && !job.IsScratch(p)
      ensures Same(before, now, p)
    {
      HeldOfOther(job, before, p, k);
    }
    forall i | 0 <= i < |job.items|
      ensures Same(before, now, job.Staged(i))
    {
      StagedApart(job, i);
      HeldOfStaged(job, before, i, k);
    }
  }

  lemma {:induction false} FailureOutcome(
    job: Job, before: map<Path, Content>, was: map<Path, Content>, failed: map<Path, Content>, now: map<Path, Content>,
    healthy: bool, r: Report, stuck: bool)
    requires job.Valid() && !r.ok && IsFailure(job, before, r.restored, r.listed)
    requires Tracks(job, before, was, r.restored)
    requires Interrupted(job, was, failed, r.restored, r.listed == r.restored + 1)
    requires SidecarOutcome(job, before, was, r.restored, stuck)
    requires forall i :: 0 <= i < r.listed && job.HasTarget(i) ==>
               (r.listed == r.restored && job.Target(i) == job.Target(r.restored))
               || CopyIsGood(job, before, failed, job.Target(i).value, r.listed)
    requires r.clean ==> forall p :: TargetIn(job, p, 0, r.listed) && CopyIsGood(job, before, failed, p, r.listed) ==>
               At(now, p) == Rolled(job, before, p, 0, r.listed)
    requires forall p :: !TargetIn(job, p, 0, r.listed) ==> Same(failed, now, p)
    requires healthy ==> r.clean && !CanRestore(job, before, r.restored + 1)
    requires healthy ==> (r.listed == r.restored + 1 <==> job.HasTarget(r.restored))
    requires healthy ==> forall p :: !(job.rollbackDir <= p) ==> Same(was, failed, p)
    ensures Outcome(job, before, now, healthy, r)
    ensures SidecarOutcome(job, before, now, r.restored, stuck)
  {
    FailureIsConfined(job, before, was, failed, now, r.restored, r.listed);
    FailureLeavesSidecars(job, was, failed, now, r.restored, r.listed);
    if r.clean {
      forall p | InScope(job, p) && (healthy || Settled(job, p, r.restored, r.listed))
        ensures At(now, p) == Recovered(job, before, p, r.restored, r.listed)
      {
        if TargetIn(job, p, 0, r.listed) {
          var i :| 0 <= i < r.listed && job.TargetIs(i, p);
          assert job.HasTarget(i) && job.Target(i).value == p;
          assert r.listed == r.restored ==> TargetIn(job, p, 0, r.restored);
          assert job.Target(i) == job.Target(r.restored) ==> job.TargetIs(r.restored, p) && job.HasTarget(r.restored);
          assert CopyIsGood(job, before, failed, p, r.listed);
        } else {
          assert Same(failed, now, p);
          assert Same(was, failed, p);
        }
      }
    }
  }

  lemma {:induction false} FailureIsConfined(
    job: Job, before: map<Path, Content>, was: map<Path, Content>, failed: map<Path, Content>, now: map<Path, Content>,
    k: nat, m: nat)
    requires job.Valid() && k < |job.items| && m <= |job.items| && Tracks(job, before, was, k)
    requires Interrupted(job, was, failed, k, m == k + 1)
    requires forall p :: !TargetIn(job, p, 0, m) ==> Same(failed, now, p)
    ensures Confined(job, before, now)
  {
    TracksIsConfined(job, before, was, k);
    forall p | !job.IsTarget(p) && !job.IsScratch(p)
      ensures Same(before, now, p)
    {
      assert !TargetIn(job, p, 0, m) && !job.TempIs(k, p);
      assert Same(before, was, p) && Same(was, failed, p) && Same(failed, now, p);
    }
    forall i | 0 <= i < |job.items|
      ensures Same(before, now, job.Staged(i))
    {
      var p := job.Staged(i);
      StagedApart(job, i);
      forall j | 0 <= j < |job.items|
        ensures !job.TargetIs(j, p) && !job.TempIs(j, p)
      {
        if job.HasTarget(j) {
          TargetIsLive(job.paths, job.items[j]);
        }
      }
      assert !job.TempIs(k, p);
      assert !TargetIn(job, p, 0, m);
      assert Same(before, was, p) && Same(was, failed, p) && Same(failed, now, p);
    }
  }

  lemma {:induction false} FailureLeavesSidecars(
    job: Job, was: map<Path, Content>, failed: map<Path, Content>, now: map<Path, Content>, k: nat, m: nat)
    requires job.Valid() && k < |job.items| && m <= |job.items|
    requires Interrupted(job, was, failed, k, m == k + 1)
    requires forall p :: !TargetIn(job, p, 0, m) ==> Same(failed, now, p)
    ensures SidecarsSame(job, was, now)
    ensures NoSidecars(job.paths, was) ==> NoSidecars(job.paths, now)
  {
    forall p | IsSidecar(job.paths, p)
      ensures Same(was, now, p)
    {
      SidecarsAreLive(job.paths, p);
      LiveAreaIsApart(job, p);
      forall j | 0 <= j < |job.items|
        ensures !job.TargetIs(j, p) && !job.TempIs(j, p)
      {
        if job.HasTarget(j) {
          TargetIsLive(job.paths, job.items[j]);
        }
      }
      assert !job.TempIs(k, p);
      assert !TargetIn(job, p, 0, m);
      assert Same(was, failed, p) && Same(failed, now, p);
    }
    assert IsSidecar(job.paths, WithSuffix(job.paths.DatabaseFile(), "-wal"));
    assert IsSidecar(job.paths, WithSuffix(job.paths.DatabaseFile(), "-shm"));
  }
}
