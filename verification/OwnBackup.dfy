/** A backup that the program makes of its own files, and what restoring it brings back. */
module OwnBackup {
  import opened Models
  import opened ArchivePath
  import opened BackupPackage
  import opened BackupRoundTrip
  import opened RestoreExactness
  import Restore
  import RestoreManifests

  type Path = Restore.Path

  /** A file below the configuration or the map directory: the names that lead to it, and its bytes. */
  datatype LiveFile = LiveFile(names: seq<string>, data: Bytes)

  predicate IsNamed(f: LiveFile) {
    f.names != [] && forall i :: 0 <= i < |f.names| ==> IsComponent(f.names[i])
  }

  function SourcesUnder(top: string, kind: string, files: seq<LiveFile>): (sources: seq<Source>)
    ensures |sources| == |files|
  {
    seq(|files|, i requires 0 <= i < |files| => Source(top + "/" + Join(files[i].names), kind, Some(files[i].data)))
  }

  /** The database first, then the configuration, then the maps. */
  function OwnSources(database: Bytes, config: seq<LiveFile>, maps: seq<LiveFile>): seq<Source> {
    [Source("db/app.sqlite3", "database", Some(database))]
    + SourcesUnder("config", "config", config) + SourcesUnder("maps", "map", maps)
  }

  /** Where these files live. */
  function OwnPlaces(paths: Restore.AppPaths, config: seq<LiveFile>, maps: seq<LiveFile>): seq<Path> {
    [paths.dataDir + ["db", paths.databaseName]]
    + seq(|config|, i requires 0 <= i < |config| => paths.dataDir + ["config"] + config[i].names)
    + seq(|maps|, i requires 0 <= i < |maps| => paths.dataDir + ["maps"] + maps[i].names)
  }

  /** The live file that an archive path stands for. */
  function Home(paths: Restore.AppPaths, path: string): Path {
    if path == "db/app.sqlite3" then paths.dataDir + ["db", paths.databaseName] else paths.dataDir + Split(path)
  }

  /* ---------- Archive paths of live files ---------- */

  lemma {:induction false} JoinUnder(top: string, names: seq<string>)
    requires names != []
    ensures Join([top] + names) == top + "/" + Join(names)
  {
    assert ([top] + names)[1..] == names;
  }

  lemma {:induction false} PathUnder(top: string, f: LiveFile)
    requires IsAllowedTop(top) && IsNamed(f)
    ensures var p := top + "/" + Join(f.names); Split(p) == [top] + f.names && IsSafe(Split(p))
  {
    assert IsComponent(top);
    var parts := [top] + f.names;
    assert forall i :: 0 <= i < |parts| ==> IsComponent(parts[i]);
    JoinUnder(top, f.names);
    SplitJoin(parts);
  }

  /** What is stripped from a safe path is at its end. */
  lemma {:induction false} StrippedSafe(p: string)
    requires IsSafe(Split(p))
    ensures Strip(ForwardSlashes(p)) == StripRight(p) <= p
  {
    JoinSplit(p);
    SafeHasNoBackslash(Split(p));
    ForwardSlashesAre(p);
    FirstCharacter(Split(p));
    StripLeftIs(p);
    StripRightIs(p);
  }

  lemma {:induction false} OnePiece(q: string)
    ensures '/' !in q ==> |Parts(q)| <= 1
  {
    if '/' !in q {
      SplitFirst(q, "");
      assert [q][1..] == [] && Components([]) == [];
      assert |Components([q])| <= 1;
    }
  }

  lemma {:induction false} TopIsKept(top: string, rest: string, q: string)
    requires IsComponent(top) && q <= top + "/" + rest && |Parts(q)| >= 2
    ensures Parts(q)[0] == top
  {
    OnePiece(q);
    assert |q| <= |top| ==> q <= top;
    var more := q[|top| + 1..];
    assert q == top + "/" + more;
    SplitFirst(top, more);
    assert ([top] + Split(more))[1..] == Split(more);
  }

  /** A live file is packed under its own path iff that does not end in white space; it always stays
      below its own directory. */
  lemma {:induction false} PackedUnder(top: string, f: LiveFile)
    requires IsAllowedTop(top) && IsNamed(f)
    ensures var p := top + "/" + Join(f.names);
            && (SafeArchivePath(p).Ok? ==>
                  && |Split(SafeArchivePath(p).value)| >= 2 && Split(SafeArchivePath(p).value)[0] == top
                  && (SafeArchivePath(p).value == p <==> !EndsInSpace(p)))
            && (!EndsInSpace(p) ==> (SafeArchivePath(p).Ok? <==> |p| <= 260))
  {
    var p := top + "/" + Join(f.names);
    PathUnder(top, f);
    StrippedSafe(p);
    StripRightIs(p);
    ComponentsKeep(Split(p));
    if SafeArchivePath(p).Ok? {
      AcceptedIsSafe(p);
      FixedPoints(p);
      assert IsComponent(top);
      TopIsKept(top, Join(f.names), StripRight(p));
      PartsAreSplit(p);
    }
    if !EndsInSpace(p) && |p| <= 260 {
      FixedPoints(p);
    }
  }

  lemma {:induction false} PartsAreSplit(p: string)
    requires SafeArchivePath(p).Ok?
    ensures Split(SafeArchivePath(p).value) == Parts(Strip(ForwardSlashes(p)))
  {
    var normalized := Strip(ForwardSlashes(p));
    SplitPieces(normalized);
    ForwardSlashesAre(p);
    StripLeftIs(ForwardSlashes(p));
    StripRightIs(StripLeft(ForwardSlashes(p)));
    assert '\\' !in normalized;
    ComponentsAre(Split(normalized));
    SplitJoin(Parts(normalized));
  }

  /* ---------- Where they are restored to ---------- */

  lemma {:induction false} DatabaseIsPacked()
    ensures Split("db/app.sqlite3") == ["db", "app.sqlite3"]
    ensures SafeArchivePath("db/app.sqlite3") == Ok("db/app.sqlite3") && !EndsInSpace("db/app.sqlite3")
  {
    RestoreManifests.DatabaseOpens();
  }

  lemma {:induction false} HomeUnder(paths: Restore.AppPaths, top: string, f: LiveFile, p: string, v: string)
    requires (top == "config" || top == "maps") && IsNamed(f) && p == top + "/" + Join(f.names)
    requires SafeArchivePath(p) == Ok(v)
    ensures Restore.RestoreTargetFor(paths, Split(v)) == Ok(Home(paths, v))
    ensures Home(paths, v) == paths.dataDir + [top] + f.names <==> !EndsInSpace(p)
  {
    PackedAs(top, f, p, v);
    TargetBelow(paths, top, v);
    BelowSame(paths.dataDir, Split(v), [top] + f.names);
    assert paths.dataDir + [top] + f.names == paths.dataDir + ([top] + f.names);
  }

  lemma {:induction false} PackedAs(top: string, f: LiveFile, p: string, v: string)
    requires IsAllowedTop(top) && IsNamed(f) && p == top + "/" + Join(f.names) && SafeArchivePath(p) == Ok(v)
    ensures |Split(v)| >= 2 && Split(v)[0] == top && (Split(v) == [top] + f.names <==> !EndsInSpace(p))
  {
    PackedUnder(top, f);
    PathUnder(top, f);
    JoinSplit(p);
    JoinSplit(v);
  }

  lemma {:induction false} TargetBelow(paths: Restore.AppPaths, top: string, v: string)
    requires (top == "config" || top == "maps") && |Split(v)| >= 2 && Split(v)[0] == top
    ensures Restore.RestoreTargetFor(paths, Split(v)) == Ok(Home(paths, v))
    ensures Home(paths, v) == paths.dataDir + Split(v)
  {
    DatabaseIsPacked();
    NotBelowDatabase(top, v);
    Restore.TargetForIff(paths, Split(v));
  }

  lemma {:induction false} NotBelowDatabase(top: string, v: string)
    requires |top| > 2 && Split(v)[0] == top
    ensures Split(v) != ["db", "app.sqlite3"]
  {
    assert |["db", "app.sqlite3"][0]| == 2;
  }

  lemma {:induction false} BelowSame(root: Path, a: Path, b: Path)
    ensures root + a == root + b <==> a == b
  {
    assert (root + a)[|root|..] == a && (root + b)[|root|..] == b;
  }

  /** The sources are the database, then the configuration, then the maps; so are their places. */
  lemma {:induction false} OwnAt(
    paths: Restore.AppPaths, database: Bytes, config: seq<LiveFile>, maps: seq<LiveFile>, i: nat)
    requires i < |OwnSources(database, config, maps)|
    ensures |OwnPlaces(paths, config, maps)| == |OwnSources(database, config, maps)| == 1 + |config| + |maps|
    ensures var s, place := OwnSources(database, config, maps)[i], OwnPlaces(paths, config, maps)[i];
            if i == 0 then
              && s == Source("db/app.sqlite3", "database", Some(database))
              && place == paths.dataDir + ["db", paths.databaseName]
            else if i <= |config| then
              IsOwn(paths, "config", "config", config[i - 1], s, place)
            else
              IsOwn(paths, "maps", "map", maps[i - 1 - |config|], s, place)
  {
  }

  predicate IsOwn(paths: Restore.AppPaths, top: string, kind: string, f: LiveFile, s: Source, place: Path) {
    s == Source(top + "/" + Join(f.names), kind, Some(f.data)) && place == paths.dataDir + [top] + f.names
  }

  /** A source has a target, its home, and that is its own place iff its path does not end in white space. */
  ghost predicate HomeIs(paths: Restore.AppPaths, path: string, place: Path) {
    SafeArchivePath(path).Ok? ==>
      && Restore.RestoreTargetFor(paths,
           Split(SafeArchivePath(path).value)) == Ok(Home(paths, SafeArchivePath(path).value))
      && (Home(paths, SafeArchivePath(path).value) == place <==> !EndsInSpace(path))
  }

  lemma {:induction false} HomeOfFile(
    paths: Restore.AppPaths, top: string, kind: string, f: LiveFile, s: Source, place: Path)
    requires (top == "config" || top == "maps") && IsNamed(f) && IsOwn(paths, top, kind, f, s, place)
    ensures HomeIs(paths, s.archivePath, place)
  {
    if SafeArchivePath(s.archivePath).Ok? {
      HomeUnder(paths, top, f, s.archivePath, SafeArchivePath(s.archivePath).value);
    }
  }

  lemma {:induction false} HomeOfDatabase(paths: Restore.AppPaths)
    ensures HomeIs(paths, "db/app.sqlite3", paths.dataDir + ["db", paths.databaseName])
  {
    DatabaseIsPacked();
    Restore.TargetForIff(paths, ["db", "app.sqlite3"]);
  }

  lemma {:induction false} HomeOfOwn(
    paths: Restore.AppPaths, database: Bytes, config: seq<LiveFile>, maps: seq<LiveFile>, i: nat)
    requires forall f :: f in config + maps ==> IsNamed(f)
    requires i < |OwnSources(database, config, maps)| == |OwnPlaces(paths, config, maps)|
    ensures HomeIs(paths, OwnSources(database, config, maps)[i].archivePath, OwnPlaces(paths, config, maps)[i])
  {
    var s, place := OwnSources(database, config, maps)[i], OwnPlaces(paths, config, maps)[i];
    OwnAt(paths, database, config, maps, i);
    if i == 0 {
      HomeOfDatabase(paths);
    } else if i <= |config| {
      assert config[i - 1] in config + maps;
      HomeOfFile(paths, "config", "config", config[i - 1], s, place);
    } else {
      assert maps[i - 1 - |config|] in config + maps;
      HomeOfFile(paths, "maps", "map", maps[i - 1 - |config|], s, place);
    }
  }

  /* ---------- What comes back ---------- */

  /** The file works its way through a name that a file before it has been restored to. */
  ghost predicate TakenLater(paths: Restore.AppPaths, files: seq<ManifestFile>, i: nat)
    requires i < |files|
  {
    exists j :: i < j < |files| && IsTakenBy(paths, files, i, j)
  }

  predicate IsTakenBy(paths: Restore.AppPaths, files: seq<ManifestFile>, i: nat, j: nat)
    requires i < |files| && j < |files|
  {
    Home(paths, files[j].path) != []
    && Home(paths, files[i].path) == Restore.TempName(Home(paths, files[j].path))
  }

  ghost predicate CameBack(
    paths: Restore.AppPaths, sources: seq<Source>, files: seq<ManifestFile>, now: map<Path, Bytes>)
    requires |sources| == |files|
  {
    forall i :: 0 <= i < |files| ==>
      (Restore.At(now, Home(paths, files[i].path)) == sources[i].data <==> !TakenLater(paths, files, i))
  }

  /** The job restores the files from their staged copies. */
  ghost predicate RestoresFiles(
    job: Restore.Job, sources: seq<Source>, files: seq<ManifestFile>, before: map<Path, Bytes>) {
    && |job.items| == |files| == |sources|
    && (forall i :: 0 <= i < |files| ==> job.items[i] == Split(files[i].path))
    && (forall i :: 0 <= i < |files| ==> job.Target(i) == Ok(Home(job.paths, files[i].path)))
    && (forall i :: 0 <= i < |files| ==> sources[i].data.Some? && Restore.At(before, job.Staged(i)) == sources[i].data)
  }

  lemma {:induction false} FilesComeBack(
    job: Restore.Job, sources: seq<Source>, files: seq<ManifestFile>, before: map<Path, Bytes>, now: map<Path, Bytes>,
    r: Restore.Report)
    requires job.Valid() && RestoresFiles(job, sources, files, before) && DistinctPaths(files)
    requires Restore.Outcome(job, before, now, true, r)
    ensures r.ok && CameBack(job.paths, sources, files, now)
  {
    assert Restore.CanRestore(job, before, |job.items|) by {
      forall i | 0 <= i < |job.items|
        ensures job.HasTarget(i) && job.Staged(i) in before
      {
        assert job.Target(i) == Ok(Home(job.paths, files[i].path));
      }
    }
    assert !r.ok ==> Restore.CanRestore(job, before, r.restored + 1);
    forall i | 0 <= i < |files|
      ensures Restore.At(now, Home(job.paths, files[i].path)) == sources[i].data <==> !TakenLater(job.paths, files, i)
    {
      SuccessIsCompleteIff(job, before, now, true, r, i);
      RestoredIff(job, sources, files, before, i);
    }
  }

  lemma {:induction false} RestoredIff(
    job: Restore.Job, sources: seq<Source>, files: seq<ManifestFile>, before: map<Path, Bytes>, i: nat)
    requires RestoresFiles(job, sources, files, before) && DistinctPaths(files) && i < |files|
    ensures Restored(job, Home(job.paths, files[i].path), |job.items|) <==> !TakenLater(job.paths, files, i)
  {
    var p, n := Home(job.paths, files[i].path), |job.items|;
    assert job.TargetIs(i, p);
    forall j | 0 <= j < n
      ensures job.TempIs(j, p) <==> IsTakenBy(job.paths, files, i, j)
      ensures job.TargetIs(j, p) ==> j == i
    {
      assert job.Target(j) == Ok(Home(job.paths, files[j].path));
      if job.TargetIs(j, p) {
        Restore.SharedTargetSameItem(job, i, j, p);
        JoinSplit(files[i].path);
        JoinSplit(files[j].path);
      }
    }
    if !TakenLater(job.paths, files, i) {
      assert IsLastRestore(job, p, i, n);
    }
    if Restored(job, p, n) {
      var l :| 0 <= l < n && IsLastRestore(job, p, l, n);
      assert l == i;
    }
  }

  /* ---------- The whole way ---------- */

  /** relative_restore_path for every file of the manifest. */
  function ItemsToRestore(files: seq<ManifestFile>): (items: seq<Path>)
    ensures |items| == |files|
  {
    seq(|files|, i requires 0 <= i < |files| =>
      var safe := SafeArchivePath(files[i].path); if safe.Ok? then Split(safe.value) else [])
  }

  /** Whatever the sources are packed as has a place to be restored to. */
  ghost predicate AllHaveHomes(paths: Restore.AppPaths, sources: seq<Source>) {
    forall i :: 0 <= i < |sources| ==> HasHome(paths, SafeArchivePath(sources[i].archivePath))
  }

  predicate HasHome(paths: Restore.AppPaths, safe: Result<string>) {
    safe.Ok? ==> Restore.RestoreTargetFor(paths, Split(safe.value)) == Ok(Home(paths, safe.value))
  }

  lemma {:induction false} StagedJob(
    lib: Library, sources: seq<Source>, schema: nat, m: Manifest, entries: seq<Entry>, size: nat, currentSchema: nat,
    job: Restore.Job, tree: Tree, before: map<Path, Bytes>)
    requires lib.Valid() && AllHaveHomes(job.paths, sources)
    requires IsPackage(lib, sources, schema, m, entries) && Fits(lib, m, entries, size, currentSchema)
    requires job.items == ItemsToRestore(m.files) && HoldsSources(sources, m, job.stageDir, tree)
    requires forall q :: q in tree ==> q in before && before[q] == tree[q]
    ensures RestoresFiles(job, sources, m.files, before) && DistinctPaths(m.files)
  {
    forall i | 0 <= i < |m.files|
      ensures job.items[i] == Split(m.files[i].path)
      ensures job.Target(i) == Ok(Home(job.paths, m.files[i].path))
      ensures sources[i].data.Some? && Restore.At(before, job.Staged(i)) == sources[i].data
    {
      assert IsUsable(sources[i]) && m.files[i] == FileOf(lib, sources[i]);
      IdempotentIff(sources[i].archivePath);
      assert HasHome(job.paths, SafeArchivePath(sources[i].archivePath));
      assert job.stageDir + Split(m.files[i].path) in tree;
    }
  }

  ghost predicate AllUsable(sources: seq<Source>) {
    forall i :: 0 <= i < |sources| ==> IsUsable(sources[i])
  }

  /** The archive is accepted and can be extracted. */
  ghost predicate CanBeStaged(lib: Library, m: Manifest, entries: seq<Entry>, size: nat, currentSchema: nat) {
    Fits(lib, m, entries, size, currentSchema) && !SomeInside(m.files)
  }

  /** The staged files are in the file system; from there they are restored. */
  method RestoreStaged(
    lib: Library, sources: seq<Source>, schema: nat, m: Manifest, ghost entries: seq<Entry>, ghost size: nat,
    ghost currentSchema: nat, fs: Restore.FileSystem, job: Restore.Job, tree: Tree)
    returns (restored: bool)
    requires lib.Valid() && fs.healthy && job.Valid() && AllHaveHomes(job.paths, sources)
    requires IsPackage(lib, sources, schema, m, entries) && CanBeStaged(lib, m, entries, size, currentSchema)
    requires job.items == ItemsToRestore(m.files) && HoldsSources(sources, m, job.stageDir, tree)
    modifies fs
    ensures restored && CameBack(job.paths, sources, m.files, fs.files)
  {
    fs.files := fs.files + tree;
    ghost var before := fs.files;
    var report;
    ghost var stuck;
    report, stuck := Restore.RestoreValidatedFiles(fs, job);
    StagedJob(lib, sources, schema, m, entries, size, currentSchema, job, tree, before);
    FilesComeBack(job, sources, m.files, before, fs.files, report);
    restored := report.ok;
  }

  /** Pack files, validate and stage the archive, restore it where nothing fails. */
  method PackAndRestore(
    lib: Library, sources: seq<Source>, schema: nat, size: nat, currentSchema: nat, fs: Restore.FileSystem,
    paths: Restore.AppPaths, stageDir: Path, rollbackDir: Path)
    returns (created: Result<Manifest>, entries: seq<Entry>, restored: bool)
    requires lib.Valid() && fs.healthy && Resolve(stageDir) == stageDir && sources != []
    requires Restore.Job(paths, [], stageDir, rollbackDir).Valid() && AllHaveHomes(paths, sources)
    modifies fs
    ensures created.Ok? <==> AllUsable(sources)
    ensures created.Ok? ==> IsPackage(lib, sources, schema, created.value, entries)
    ensures restored <==> created.Ok? && CanBeStaged(lib, created.value, entries, size, currentSchema)
    ensures restored ==> CameBack(paths, sources, created.value.files, fs.files)
  {
    var staged;
    created, entries, staged := RoundTrip(lib, sources, schema, size, currentSchema, stageDir);
    restored := staged.Ok?;
    if restored {
      var job := Restore.Job(paths, ItemsToRestore(created.value.files), stageDir, rollbackDir);
      restored := RestoreStaged(lib, sources, schema, created.value, entries, size, currentSchema, fs, job,
        staged.value);
    }
  }

  /* ---------- The program's own files ---------- */

  /** Every file that does not end in white space goes back to its own place, and no other does. */
  ghost predicate GoHome(paths: Restore.AppPaths, sources: seq<Source>, places: seq<Path>, files: seq<ManifestFile>)
    requires |files| == |sources| == |places|
  {
    forall i :: 0 <= i < |files| ==>
      (Home(paths, files[i].path) == places[i] <==> !EndsInSpace(sources[i].archivePath))
  }

  lemma {:induction false} OwnHaveHomes(
    paths: Restore.AppPaths, database: Bytes, config: seq<LiveFile>, maps: seq<LiveFile>)
    requires forall f :: f in config + maps ==> IsNamed(f)
    ensures AllHaveHomes(paths, OwnSources(database, config, maps))
  {
    var sources := OwnSources(database, config, maps);
    forall i | 0 <= i < |sources|
      ensures HasHome(paths, SafeArchivePath(sources[i].archivePath))
    {
      HomeOfOwn(paths, database, config, maps, i);
    }
  }

  lemma {:induction false} PackageGoesHome(
    paths: Restore.AppPaths, lib: Library, database: Bytes, config: seq<LiveFile>, maps: seq<LiveFile>, schema: nat,
    m: Manifest, entries: seq<Entry>)
    requires forall f :: f in config + maps ==> IsNamed(f)
    requires IsPackage(lib, OwnSources(database, config, maps), schema, m, entries)
    ensures GoHome(paths, OwnSources(database, config, maps), OwnPlaces(paths, config, maps), m.files)
  {
    var sources := OwnSources(database, config, maps);
    forall i | 0 <= i < |m.files|
      ensures Home(paths, m.files[i].path) == OwnPlaces(paths, config, maps)[i]
              <==> !EndsInSpace(sources[i].archivePath)
    {
      assert IsUsable(sources[i]) && m.files[i] == FileOf(lib, sources[i]);
      HomeOfOwn(paths, database, config, maps, i);
    }
  }

  /** A file can be packed iff it has 1 byte to 512 mebibytes and, unless it ends in white space, a
      path of at most 260 characters. */
  ghost predicate UsableIff(s: Source) {
    !EndsInSpace(s.archivePath) ==>
      (IsUsable(s) <==> 0 < |s.data.GetOr([])| <= 0x2000_0000 && |s.archivePath| <= 260)
  }

  lemma {:induction false} FileIsUsable(top: string, kind: string, f: LiveFile)
    requires (top == "config" && kind == "config") || (top == "maps" && kind == "map")
    requires IsNamed(f)
    ensures UsableIff(Source(top + "/" + Join(f.names), kind, Some(f.data)))
  {
    PackedUnder(top, f);
  }

  lemma {:induction false} DatabaseIsUsable(database: Bytes)
    ensures UsableIff(Source("db/app.sqlite3", "database", Some(database)))
  {
    DatabaseIsPacked();
  }

  /** This holds of the program's own files. */
  lemma {:induction false} OwnIsUsable(database: Bytes, config: seq<LiveFile>, maps: seq<LiveFile>, i: nat)
    requires forall f :: f in config + maps ==> IsNamed(f)
    requires i < |OwnSources(database, config, maps)|
    ensures UsableIff(OwnSources(database, config, maps)[i])
  {
    OwnAt(Restore.AppPaths([], ""), database, config, maps, i);
    if i == 0 {
      DatabaseIsUsable(database);
    } else if i <= |config| {
      assert config[i - 1] in config + maps;
      FileIsUsable("config", "config", config[i - 1]);
    } else {
      assert maps[i - 1 - |config|] in config + maps;
      FileIsUsable("maps", "map", maps[i - 1 - |config|]);
    }
  }

  /** The program's own files, packed and restored: this succeeds iff the archive could be made, fits,
      and no path lies inside another. Then every file is back unless a later one worked through its
      name, and it is back in its own place iff its path does not end in white space. */
  method BackUpAndRestore(
    lib: Library, database: Bytes, config: seq<LiveFile>, maps: seq<LiveFile>, schema: nat, size: nat,
    currentSchema: nat, fs: Restore.FileSystem, paths: Restore.AppPaths, stageDir: Path, rollbackDir: Path)
    returns (created: Result<Manifest>, entries: seq<Entry>, restored: bool)
    requires lib.Valid() && fs.healthy && Resolve(stageDir) == stageDir
    requires Restore.Job(paths, [], stageDir, rollbackDir).Valid()
    requires forall f :: f in config + maps ==> IsNamed(f)
    modifies fs
    ensures created.Ok? <==> AllUsable(OwnSources(database, config, maps))
    ensures created.Ok? ==> IsPackage(lib, OwnSources(database, config, maps), schema, created.value, entries)
    ensures restored <==> created.Ok? && CanBeStaged(lib, created.value, entries, size, currentSchema)
    ensures restored ==> CameBack(paths, OwnSources(database, config, maps), created.value.files, fs.files)
    ensures created.Ok? ==>
              GoHome(paths, OwnSources(database, config, maps), OwnPlaces(paths, config, maps), created.value.files)
  {
    OwnHaveHomes(paths, database, config, maps);
    created, entries, restored :=
      PackAndRestore(lib, OwnSources(database, config, maps), schema, size, currentSchema, fs, paths, stageDir,
        rollbackDir);
    if created.Ok? {
      PackageGoesHome(paths, lib, database, config, maps, schema, created.value, entries);
    }
  }
}
