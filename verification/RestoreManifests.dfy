/** Restores of validated manifests: the conditions on restores in terms of archive paths, and two
    archives that validation accepts and whose failing restore loses a file. */
module RestoreManifests {
  import opened Models
  import opened Restore
  import opened RestoreExactness
  import ArchivePath
  import BackupPackage
  import BackupRoundTrip
  import ForeignArchive

  /* ---------- Conditions on archive paths ---------- */

  /** An item works through the target of another iff one archive path is the other's temporary name. */
  lemma {:induction false} ClashOnPaths(job: Job, i: nat, j: nat)
    requires i < |job.items| && j < |job.items| && job.HasTarget(i) && job.HasTarget(j)
    ensures job.TempIs(j, job.Target(i).value) <==> job.items[i] == TempName(job.items[j])
  {
    TempIsNoDatabase(job.items[j]);
    if job.items[j] == DATABASE_ENTRY {
      DatabaseClash(job.paths, job.items[i]);
    } else if job.items[i] == DATABASE_ENTRY {
      OtherTarget(job.paths, job.items[j]);
      assert TempName(job.Target(j).value)[|job.paths.dataDir|] == job.items[j][0];
      assert job.Target(i).value[|job.paths.dataDir|] == "db";
    } else {
      OtherTarget(job.paths, job.items[i]);
      OtherTarget(job.paths, job.items[j]);
      var n := |job.paths.dataDir|;
      assert job.Target(i).value[n..] == job.items[i];
      assert TempName(job.Target(j).value)[n..] == TempName(job.items[j]);
    }
  }

  lemma {:induction false} TempIsNoDatabase(b: Path)
    requires b != []
    ensures TempName(b) != DATABASE_ENTRY
  {
    TempLength(b[|b| - 1]);
    assert TempName(b)[|b| - 1][0] == '.';
  }

  /** Outside the database a target is the archive path below the data directory. */
  lemma {:induction false} OtherTarget(paths: AppPaths, b: Path)
    requires RestoreTargetFor(paths, b).Ok? && b != DATABASE_ENTRY
    ensures RestoreTargetFor(paths, b) == Ok(paths.dataDir + b) && b[0] != "db"
    ensures TempName(paths.dataDir + b) == paths.dataDir + TempName(b)
  {
    assert b == [b[0]] + b[1..];
    assert paths.dataDir + b == paths.dataDir + [b[0]] + b[1..];
  }

  /** The temporary name of the database is no target. */
  lemma {:induction false} DatabaseClash(paths: AppPaths, a: Path)
    requires RestoreTargetFor(paths, a).Ok?
    ensures TempName(paths.DatabaseFile()) != RestoreTargetFor(paths, a).value
    ensures a != TempName(DATABASE_ENTRY)
  {
    var n := |paths.dataDir|;
    TempIsNoDatabase(DATABASE_ENTRY);
    TargetIsLive(paths, DATABASE_ENTRY);
    assert TempName(paths.DatabaseFile())[n] == "db" && TempName(DATABASE_ENTRY)[0] == "db";
    if a != DATABASE_ENTRY {
      OtherTarget(paths, a);
      assert RestoreTargetFor(paths, a).value[n] == a[0];
    }
  }

  lemma {:induction false} TempLength(name: string)
    ensures ("." + name + ".restore_tmp")[0] == '.' && |"." + name + ".restore_tmp"| > |name|
  {
  }

  ghost predicate DistinctUpTo(items: seq<Path>, k: nat)
    requires k <= |items|
  {
    forall i, j :: 0 <= i < j < k ==> items[i] != items[j]
  }

  /** No item's temporary name is another item's path. */
  ghost predicate NoTempAmong(job: Job) {
    forall i, j :: 0 <= i < |job.items| && 0 <= j < |job.items| && job.HasTarget(i) && job.HasTarget(j) ==>
      job.items[i] != TempName(job.items[j])
  }

  /** Item j is among the first k, and its temporary name is the path of a later item. */
  ghost predicate TakesAway(job: Job, j: nat, i: nat)
    requires j < |job.items| && i < |job.items|
  {
    j < i && job.HasTarget(i) && job.HasTarget(j) && job.items[i] == TempName(job.items[j])
  }

  /** Without temporary names among the items, rollback is always exact iff the items that can have
      been backed up are distinct. */
  lemma {:induction false} ExactIffDistinct(job: Job, k: nat)
    requires job.Valid() && k < |job.items| && forall i :: 0 <= i < k ==> job.HasTarget(i)
    requires NoTempAmong(job)
    ensures AlwaysExact(job, k) <==> DistinctUpTo(job.items, MostEntries(job, k))
  {
    AlwaysExactIff(job, k);
    NoneTaken(job, k);
    var m := MostEntries(job, k);
    if DistinctUpTo(job.items, m) {
      forall p | job.IsTarget(p)
        ensures !Lost(job, p, k) && !Recopied(job, p, m)
      {
        DistinctNeverRecopied(job, p, m);
      }
    } else {
      var i, j :| 0 <= i < j < m && job.items[i] == job.items[j];
      SharedIsRecopied(job, i, j, m);
    }
  }

  lemma {:induction false} NoneTaken(job: Job, k: nat)
    requires NoTempAmong(job) && k <= |job.items|
    ensures forall p :: job.IsTarget(p) ==> !Lost(job, p, k)
  {
    forall p | job.IsTarget(p)
      ensures !Lost(job, p, k)
    {
      forall j | 0 <= j < k
        ensures !job.TempIs(j, p)
      {
        NotTempOfTarget(job, p, j);
      }
    }
  }

  lemma {:induction false} NotTempOfTarget(job: Job, p: Path, j: nat)
    requires NoTempAmong(job) && j < |job.items| && job.IsTarget(p)
    ensures !job.TempIs(j, p)
  {
    var i :| 0 <= i < |job.items| && job.TargetIs(i, p);
    if job.HasTarget(j) {
      ClashOnPaths(job, i, j);
    }
  }

  lemma {:induction false} SharedIsRecopied(job: Job, i: nat, j: nat, m: nat)
    requires NoTempAmong(job) && i < j < m <= |job.items| && job.items[i] == job.items[j] && job.HasTarget(i)
    ensures var p := job.Target(i).value; job.IsTarget(p) && Recopied(job, p, m)
  {
    var p := job.Target(i).value;
    assert job.TargetIs(i, p) && job.TargetIs(j, p);
    forall l | i + 1 <= l < j
      ensures !job.TempIs(l, p)
    {
      NotTempOfTarget(job, p, l);
    }
    assert IsLastRestore(job, p, i, j);
    assert Restored(job, p, j);
  }

  lemma {:induction false} DistinctNeverRecopied(job: Job, p: Path, m: nat)
    requires m <= |job.items| && DistinctUpTo(job.items, m)
    ensures !Recopied(job, p, m)
  {
    forall i, j | 0 <= i < j < m && job.TargetIs(i, p) && job.TargetIs(j, p)
      ensures false
    {
      SharedTargetSameItem(job, i, j, p);
    }
  }

  /** None of the first k items has a temporary name that is the path of a later item. */
  ghost predicate NothingTaken(job: Job, k: nat)
    requires k <= |job.items|
  {
    forall i, j :: 0 <= j < k && 0 <= i < |job.items| ==> !TakesAway(job, j, i)
  }

  lemma {:induction false} TempComesAfter(job: Job, i: nat, j: nat, p: Path)
    requires i < |job.items| && j < |job.items| && job.TargetIs(i, p) && job.TempIs(j, p) && !TakesAway(job, j, i)
    ensures i < j
  {
    ClashOnPaths(job, i, j);
    TargetIsNotTemp(job, i, p);
  }

  lemma {:induction false} NeverLost(job: Job, p: Path, k: nat)
    requires k <= |job.items| && NothingTaken(job, k) && job.IsTarget(p)
    ensures !Lost(job, p, k)
  {
    var i :| 0 <= i < |job.items| && job.TargetIs(i, p);
    forall j | 0 <= j < k && job.TempIs(j, p)
      ensures TargetIn(job, p, 0, j)
    {
      assert !TakesAway(job, j, i);
      TempComesAfter(job, i, j, p);
    }
  }

  /** With distinct items, rollback is always exact iff no item that went through has a temporary
      name that is the path of a later item. */
  lemma {:induction false} ExactIffNothingTaken(job: Job, k: nat)
    requires job.Valid() && k < |job.items| && forall i :: 0 <= i < k ==> job.HasTarget(i)
    requires DistinctUpTo(job.items, |job.items|)
    ensures AlwaysExact(job, k) <==> NothingTaken(job, k)
  {
    AlwaysExactIff(job, k);
    if NothingTaken(job, k) {
      forall p | job.IsTarget(p)
        ensures !Lost(job, p, k) && !Recopied(job, p, MostEntries(job, k))
      {
        NeverLost(job, p, k);
        DistinctNeverRecopied(job, p, MostEntries(job, k));
      }
    }
    forall i, j | 0 <= j < k && 0 <= i < |job.items| && TakesAway(job, j, i)
      ensures !IsSafeUpTo(job, k)
    {
      var p := job.Target(i).value;
      ClashOnPaths(job, i, j);
      assert job.TargetIs(i, p) && job.TempIs(j, p);
      forall l | 0 <= l < j
        ensures !job.TargetIs(l, p)
      {
        if job.TargetIs(l, p) {
          SharedTargetSameItem(job, l, i, p);
          assert false;
        }
      }
      assert Lost(job, p, k);
    }
  }

  /** With distinct items, and no item up to the failing one taking a later item's path for its
      temporary name, a failed restore with a clean rollback leaves every target as it was, whatever
      the fault was. */
  lemma {:induction false} FailureIsUndone(
    job: Job, before: map<Path, Content>, now: map<Path, Content>, healthy: bool, r: Report, p: Path)
    requires job.Valid() && Outcome(job, before, now, healthy, r) && !r.ok && r.clean && job.IsTarget(p)
    requires DistinctUpTo(job.items, |job.items|) && NothingTaken(job, r.restored + 1)
    ensures Same(before, now, p)
  {
    var k := r.restored;
    assert NothingTaken(job, k);
    NeverLost(job, p, k);
    DistinctNeverRecopied(job, p, r.listed);
    var i :| 0 <= i < |job.items| && job.TargetIs(i, p);
    if job.TempIs(k, p) {
      assert !TakesAway(job, k, i);
      TempComesAfter(job, i, k, p);
    }
    forall l | 0 <= l < k && job.TargetIs(l, p)
      ensures !job.TargetIs(k, p)
    {
      if job.TargetIs(k, p) {
        SharedTargetSameItem(job, l, k, p);
        assert false;
      }
    }
    assert Settled(job, p, k, r.listed);
    RollbackIsExactIff(job, before, now, healthy, r, p);
  }

  /* ---------- Where the jobs come from ---------- */

  ghost function ItemsOf(places: seq<BackupPackage.Place>): seq<Path> {
    seq(|places|, i requires 0 <= i < |places| => places[i].item)
  }

  /** The items of a validated and staged archive are distinct iff no path of its manifest ends in
      white space. */
  lemma {:induction false} StagedItemsDistinctIff(
    lib: BackupPackage.Library, entries: seq<BackupPackage.Entry>, size: nat, currentSchema: nat,
    m: BackupPackage.Manifest)
    requires BackupPackage.Accepted(lib, entries, size, currentSchema, m)
    requires BackupPackage.Extracts(BackupPackage.PlacesOf(lib, entries, m.files))
    ensures var items := ItemsOf(BackupPackage.PlacesOf(lib, entries, m.files));
            DistinctUpTo(items, |items|)
            <==> forall i :: 0 <= i < |m.files| ==> !ArchivePath.EndsInSpace(m.files[i].path)
  {
    BackupRoundTrip.StagedItemsDistinctIff(lib, entries, size, currentSchema, m);
    DistinctItemsIff(BackupPackage.PlacesOf(lib, entries, m.files));
  }

  lemma {:induction false} DistinctItemsIff(places: seq<BackupPackage.Place>)
    ensures DistinctUpTo(ItemsOf(places), |places|) <==> !BackupRoundTrip.SharedPlace(places)
  {
    var items := ItemsOf(places);
    assert |items| == |places| && forall i :: 0 <= i < |places| ==> items[i] == places[i].item;
  }

  /** For a validated and staged archive whose items all have targets, none of them another's
      temporary name: rollback after a failure at the last item is always exact iff no path of the
      manifest ends in white space. */
  lemma {:induction false} ValidatedExactIff(
    lib: BackupPackage.Library, entries: seq<BackupPackage.Entry>, size: nat, currentSchema: nat,
    m: BackupPackage.Manifest, job: Job)
    requires BackupPackage.Accepted(lib, entries, size, currentSchema, m)
    requires BackupPackage.Extracts(BackupPackage.PlacesOf(lib, entries, m.files))
    requires job.items == ItemsOf(BackupPackage.PlacesOf(lib, entries, m.files)) && job.items != []
    requires job.Valid() && NoTempAmong(job) && forall i :: 0 <= i < |job.items| ==> job.HasTarget(i)
    ensures AlwaysExact(job, |job.items| - 1)
            <==> forall i :: 0 <= i < |m.files| ==> !ArchivePath.EndsInSpace(m.files[i].path)
  {
    BackupRoundTrip.StagedItemsDistinctIff(lib, entries, size, currentSchema, m);
    ExactIffNotShared(job, BackupPackage.PlacesOf(lib, entries, m.files));
  }

  lemma {:induction false} ExactIffNotShared(job: Job, places: seq<BackupPackage.Place>)
    requires job.items == ItemsOf(places) && job.items != []
    requires job.Valid() && NoTempAmong(job) && forall i :: 0 <= i < |job.items| ==> job.HasTarget(i)
    ensures AlwaysExact(job, |job.items| - 1) <==> !BackupRoundTrip.SharedPlace(places)
  {
    ExactIffDistinct(job, |job.items| - 1);
    DistinctItemsIff(places);
  }

  /* ---------- Accepted archives whose restore always fails and loses a file ---------- */

  /** A short file name without the letter l, so that it cannot mention a license. */
  predicate IsPlainName(x: string) {
    && 0 < |x| <= 100 && ArchivePath.IsComponent(x) && !ArchivePath.IsSpace(x[|x| - 1])
    && forall i :: 0 <= i < |x| ==> BackupPackage.Lower(x[i]) != 'l'
  }

  lemma {:induction false} PlainNamesExist()
    ensures IsPlainName("x") && IsPlainName("other") && "other" != "app.sqlite3"
  {
    assert |"other"| != |"app.sqlite3"|;
  }

  function TempOf(x: string): string {
    "." + x + ".restore_tmp"
  }

  predicate IsSmall(data: Content) {
    0 < |data| <= ForeignArchive.SMALL
  }

  lemma {:induction false} TempIsPlain(x: string)
    requires IsPlainName(x) && |x| <= 80
    ensures IsPlainName(TempOf(x))
  {
    var t := TempOf(x);
    assert t[0] == '.' && t[1..|x| + 1] == x && t[|x| + 1..] == ".restore_tmp";
    assert forall i :: 0 <= i < |t| && i > 0 && i <= |x| ==> t[i] == x[i - 1];
    assert forall i :: |x| < i < |t| ==> t[i] == ".restore_tmp"[i - |x| - 1];
    assert t[|t| - 1] == 'p';
  }

  lemma {:induction false} NoLicenseIn(top: string, name: string)
    requires (top == "config" || top == "db") && forall i :: 0 <= i < |name| ==> BackupPackage.Lower(name[i]) != 'l'
    ensures !BackupPackage.MentionsLicense(top + "/" + name)
  {
    var path := top + "/" + name;
    forall k | 0 <= k <= |path| - 7
      ensures BackupPackage.Lower(path[k]) != 'l'
    {
      if k > |top| {
        assert path[k] == name[k - |top| - 1];
      } else if k < |top| {
        assert path[k] == top[k];
      }
    }
    ForeignArchive.NoLicense(path);
  }

  lemma {:induction false} PairOpens(top: string, name: string)
    requires ArchivePath.IsAllowedTop(top) && ArchivePath.IsComponent(name) && |name| <= 100
    requires !ArchivePath.IsSpace(name[|name| - 1])
    ensures var p := top + "/" + name;
            ArchivePath.Split(p) == [top, name] && ArchivePath.SafeArchivePath(p) == Ok(p)
  {
    ForeignArchive.TwoParts(top, name);
    ArchivePath.SafeAgain(top + "/" + name);
  }

  lemma {:induction false} PairRow(row: ForeignArchive.Row, top: string, name: string)
    requires (top == "config" || top == "db") && IsPlainName(name) && row.raw == row.path == top + "/" + name
    requires BackupPackage.IsKind(row.kind) && IsSmall(row.data)
    ensures ForeignArchive.GoodRow(row)
  {
    PairOpens(top, name);
    NoLicenseIn(top, name);
  }

  lemma {:induction false} DatabaseOpens()
    ensures ArchivePath.Split(BackupPackage.DATABASE_PATH) == DATABASE_ENTRY
    ensures ArchivePath.SafeArchivePath(BackupPackage.DATABASE_PATH) == Ok(BackupPackage.DATABASE_PATH)
  {
    assert "db" + "/" + "app.sqlite3" == BackupPackage.DATABASE_PATH;
    PairOpens("db", "app.sqlite3");
  }

  lemma {:induction false} DatabaseIsNoLicense()
    ensures !BackupPackage.MentionsLicense(BackupPackage.DATABASE_PATH)
  {
    ForeignArchive.NoLicense(BackupPackage.DATABASE_PATH);
  }

  lemma {:induction false} DatabaseRow(row: ForeignArchive.Row)
    requires row.raw == row.path == BackupPackage.DATABASE_PATH && row.kind == "database" && IsSmall(row.data)
    ensures ForeignArchive.GoodRow(row)
  {
    DatabaseOpens();
    DatabaseIsNoLicense();
  }

  lemma {:induction false} PairOpensAs(rows: seq<ForeignArchive.Row>, i: nat, top: string, name: string)
    requires i < |rows| && rows[i].path == top + "/" + name
    requires ArchivePath.IsAllowedTop(top) && IsPlainName(name)
    ensures ForeignArchive.OpensAs(rows, i, i, [top, name])
  {
    PairOpens(top, name);
  }

  lemma {:induction false} DatabaseOpensAs(rows: seq<ForeignArchive.Row>, i: nat)
    requires i < |rows| && rows[i].path == BackupPackage.DATABASE_PATH
    ensures ForeignArchive.OpensAs(rows, i, i, DATABASE_ENTRY)
  {
    DatabaseOpens();
  }

  /** The manifest text has "config/x /", which parses to "config/x " and is opened as "config/x". */
  lemma {:induction false} SpacedOpens(x: string)
    requires IsPlainName(x)
    ensures var p := "config" + "/" + x;
            && ArchivePath.SafeArchivePath(p + " /") == Ok(p + " ")
            && ArchivePath.SafeArchivePath(p + " ") == Ok(p)
  {
    var p := "config" + "/" + x;
    ForeignArchive.TwoParts("config", x);
    SpacedIsComponent(x);
    ForeignArchive.TwoParts("config", x + " ");
    assert p + " " == "config" + "/" + (x + " ");
    assert (p + " ") + "/" == p + " /";
    ArchivePath.EverySafePathComesOut(p + " ");
    ForeignArchive.SpaceIsStripped(p);
  }

  lemma {:induction false} SpacedIsComponent(x: string)
    requires ArchivePath.IsComponent(x)
    ensures ArchivePath.IsComponent(x + " ")
  {
    assert |x + " "| > 1 && (x + " ")[|x|] == ' ' && ".."[1] == '.';
  }

  lemma {:induction false} SpacedRow(x: string, data: Content)
    requires IsPlainName(x) && IsSmall(data)
    ensures ForeignArchive.GoodRow(
              ForeignArchive.Row("config" + "/" + x + " /", "config" + "/" + x + " ", "config", data))
  {
    SpacedOpens(x);
    NoLicenseIn("config", x + " ");
    assert "config" + "/" + x + " " == "config" + "/" + (x + " ");
  }

  function SharedRows(x: string, o: string, database: Content, file: Content, other: Content): seq<ForeignArchive.Row> {
    [ForeignArchive.Row(BackupPackage.DATABASE_PATH, BackupPackage.DATABASE_PATH, "database", database),
     ForeignArchive.Row("config" + "/" + x, "config" + "/" + x, "config", file),
     ForeignArchive.Row("config" + "/" + x + " /", "config" + "/" + x + " ", "config", file),
     ForeignArchive.Row("db" + "/" + o, "db" + "/" + o, "config", other)]
  }

  /** t is to be the temporary name of x. */
  function ClashRows(
    x: string, t: string, o: string, database: Content, file: Content, taken: Content,
    other: Content): seq<ForeignArchive.Row> {
    [ForeignArchive.Row("config" + "/" + x, "config" + "/" + x, "config", file),
     ForeignArchive.Row("config" + "/" + t, "config" + "/" + t, "config", taken),
     ForeignArchive.Row(BackupPackage.DATABASE_PATH, BackupPackage.DATABASE_PATH, "database", database),
     ForeignArchive.Row("db" + "/" + o, "db" + "/" + o, "config", other)]
  }

  /** The restored items of the two archives. */
  function SharedItems(x: string, o: string): seq<Path> {
    [DATABASE_ENTRY, ["config", x], ["config", x], ["db", o]]
  }

  function ClashItems(x: string, t: string, o: string): seq<Path> {
    [["config", x], ["config", t], DATABASE_ENTRY, ["db", o]]
  }

  lemma {:induction false} SharedRowIsGood(
    x: string, o: string, database: Content, file: Content, other: Content, k: nat)
    requires IsPlainName(x) && IsPlainName(o) && IsSmall(database) && IsSmall(file) && IsSmall(other) && k < 4
    ensures ForeignArchive.GoodRow(SharedRows(x, o, database, file, other)[k])
  {
    var row := SharedRows(x, o, database, file, other)[k];
    if k == 0 {
      DatabaseRow(row);
    } else if k == 1 {
      PairRow(row, "config", x);
    } else if k == 2 {
      SpacedRow(x, file);
    } else {
      PairRow(row, "db", o);
    }
  }

  lemma {:induction false} SharedRowOpens(
    x: string, o: string, database: Content, file: Content, other: Content, k: nat)
    requires IsPlainName(x) && IsPlainName(o) && k < 4
    ensures ForeignArchive.OpensAs(SharedRows(x, o, database, file, other), k, [0, 1, 1, 3][k], SharedItems(x, o)[k])
  {
    var rows := SharedRows(x, o, database, file, other);
    if k == 0 {
      DatabaseOpensAs(rows, 0);
    } else if k == 1 {
      PairOpensAs(rows, 1, "config", x);
    } else if k == 2 {
      PairOpens("config", x);
      SpacedOpens(x);
    } else {
      PairOpensAs(rows, 3, "db", o);
    }
  }

  lemma {:induction false} ClashRowIsGood(
    x: string, t: string, o: string, database: Content, file: Content, taken: Content, other: Content, k: nat)
    requires IsPlainName(x) && IsPlainName(t) && IsPlainName(o) && k < 4
    requires IsSmall(database) && IsSmall(file) && IsSmall(taken) && IsSmall(other)
    ensures ForeignArchive.GoodRow(ClashRows(x, t, o, database, file, taken, other)[k])
  {
    var row := ClashRows(x, t, o, database, file, taken, other)[k];
    if k == 0 {
      PairRow(row, "config", x);
    } else if k == 1 {
      PairRow(row, "config", t);
    } else if k == 2 {
      DatabaseRow(row);
    } else {
      PairRow(row, "db", o);
    }
  }

  function ClashTop(k: nat): string {
    if k == 3 then "db" else "config"
  }

  function ClashName(x: string, t: string, o: string, k: nat): string {
    if k == 0 then x else if k == 1 then t else o
  }

  lemma {:induction false} ClashPairs(
    x: string, t: string, o: string, database: Content, file: Content, taken: Content, other: Content, k: nat)
    requires k < 4 && k != 2
    ensures ClashRows(x, t, o, database, file, taken, other)[k].path == ClashTop(k) + "/" + ClashName(x, t, o, k)
    ensures ClashItems(x, t, o)[k] == [ClashTop(k), ClashName(x, t, o, k)]
  {
  }

  lemma {:induction false} ClashRowOpens(
    x: string, t: string, o: string, database: Content, file: Content, taken: Content, other: Content, k: nat)
    requires IsPlainName(x) && IsPlainName(t) && IsPlainName(o) && k < 4
    ensures ForeignArchive.OpensAs(ClashRows(x, t, o, database, file, taken, other), k, k, ClashItems(x, t, o)[k])
  {
    if k == 2 {
      DatabaseOpensAs(ClashRows(x, t, o, database, file, taken, other), 2);
    } else {
      ClashPairs(x, t, o, database, file, taken, other, k);
      PairOpensAs(ClashRows(x, t, o, database, file, taken, other), k, ClashTop(k), ClashName(x, t, o, k));
    }
  }

  /** Paths of the rows differ. */
  lemma {:induction false} PairsDiffer(x: string, o: string)
    requires o != "app.sqlite3"
    ensures "config" + "/" + x != "db" + "/" + o && "config" + "/" + x + " " != "db" + "/" + o
    ensures "config" + "/" + x != BackupPackage.DATABASE_PATH && "config" + "/" + x + " " != BackupPackage.DATABASE_PATH
    ensures "db" + "/" + o != BackupPackage.DATABASE_PATH
    ensures "config" + "/" + x != "config" + "/" + x + " "
  {
    assert ("config" + "/" + x)[0] == 'c' && ("config" + "/" + x + " ")[0] == 'c' && ("db" + "/" + o)[0] == 'd';
    assert BackupPackage.DATABASE_PATH[0] == 'd' && BackupPackage.DATABASE_PATH[3..] == "app.sqlite3";
    assert ("db" + "/" + o)[3..] == o;
    assert |"config" + "/" + x| < |"config" + "/" + x + " "|;
  }

  lemma {:induction false} FourRowsStaged(
    lib: BackupPackage.Library, rows: seq<ForeignArchive.Row>, size: nat, currentSchema: nat, under: seq<nat>,
    items: seq<Path>, d: nat)
    requires lib.Valid() && |rows| == |under| == |items| == 4 && d < 4
    requires BackupPackage.IsDatabaseItem(ForeignArchive.FileWith(lib, rows[d].path, rows[d]))
    requires ForeignArchive.AllGood(rows) && ForeignArchive.AllOpenAs(rows, under, items)
    requires rows[0].path != rows[1].path && rows[0].path != rows[2].path && rows[0].path != rows[3].path
    requires rows[1].path != rows[2].path && rows[1].path != rows[3].path && rows[2].path != rows[3].path
    requires ForeignArchive.TextIsSmall(lib, rows)
    requires 0 < size <= BackupPackage.MAX_BACKUP_BYTES
    ensures IsStagedAs(lib, rows, size, currentSchema, items)
  {
    ForeignArchive.FourGoodRows(lib, rows, d);
    ForeignArchive.RowsStaged(lib, rows, size, currentSchema, under, items);
  }

  /** Validation accepts the archive of the rows, extraction succeeds, and these items are restored. */
  ghost predicate IsStagedAs(
    lib: BackupPackage.Library, rows: seq<ForeignArchive.Row>, size: nat, currentSchema: nat, items: seq<Path>)
  {
    var m, entries := ForeignArchive.ParsedManifest(lib, rows), ForeignArchive.EntriesOf(lib, rows);
    && BackupPackage.Accepted(lib, entries, size, currentSchema, m)
    && BackupPackage.Extracts(BackupPackage.PlacesOf(lib, entries, m.files))
    && ItemsOf(BackupPackage.PlacesOf(lib, entries, m.files)) == items
  }

  /** The archive with "config/x" twice, once with a space and a slash, is accepted and staged, and
      both of its items restore to one file. */
  lemma {:induction false} SharedArchiveIsAccepted(
    lib: BackupPackage.Library, x: string, o: string, database: Content, file: Content, other: Content,
    size: nat, currentSchema: nat)
    requires lib.Valid() && IsPlainName(x) && IsPlainName(o) && o != "app.sqlite3"
    requires IsSmall(database) && IsSmall(file) && IsSmall(other)
    requires ForeignArchive.TextIsSmall(lib, SharedRows(x, o, database, file, other))
    requires 0 < size <= BackupPackage.MAX_BACKUP_BYTES
    ensures IsStagedAs(lib, SharedRows(x, o, database, file, other), size, currentSchema, SharedItems(x, o))
  {
    var rows, items: seq<Path> := SharedRows(x, o, database, file, other), SharedItems(x, o);
    forall k {:trigger ForeignArchive.GoodRow(rows[k])} | 0 <= k < 4
      ensures ForeignArchive.GoodRow(rows[k])
    {
      SharedRowIsGood(x, o, database, file, other, k);
    }
    var under: seq<nat> := [0, 1, 1, 3];
    forall k {:trigger ForeignArchive.OpensAs(rows, k, under[k], items[k])} | 0 <= k < 4
      ensures ForeignArchive.OpensAs(rows, k, under[k], items[k])
    {
      SharedRowOpens(x, o, database, file, other, k);
    }
    PairsDiffer(x, o);
    FourRowsStaged(lib, rows, size, currentSchema, under, items, 0);
  }

  /** The archive with "config/x", the temporary name of its target, and the database is accepted
      and staged. */
  lemma {:induction false} ClashArchiveIsAccepted(
    lib: BackupPackage.Library, x: string, o: string, database: Content, file: Content, taken: Content, other: Content,
    size: nat, currentSchema: nat)
    requires lib.Valid() && IsPlainName(x) && |x| <= 80 && IsPlainName(o) && o != "app.sqlite3"
    requires IsSmall(database) && IsSmall(file) && IsSmall(taken) && IsSmall(other)
    requires ForeignArchive.TextIsSmall(lib, ClashRows(x, TempOf(x), o, database, file, taken, other))
    requires 0 < size <= BackupPackage.MAX_BACKUP_BYTES
    ensures IsStagedAs(lib, ClashRows(x, TempOf(x), o, database, file, taken, other), size, currentSchema,
              ClashItems(x, TempOf(x), o))
  {
    TempIsPlain(x);
    ClashPathsAreAccepted(lib, x, TempOf(x), o, database, file, taken, other, size, currentSchema);
  }

  lemma {:induction false} ClashPathsAreAccepted(
    lib: BackupPackage.Library, x: string, t: string, o: string,
    database: Content, file: Content, taken: Content, other: Content,
    size: nat, currentSchema: nat)
    requires lib.Valid() && IsPlainName(x) && IsPlainName(t) && |x| < |t| && IsPlainName(o) && o != "app.sqlite3"
    requires IsSmall(database) && IsSmall(file) && IsSmall(taken) && IsSmall(other)
    requires ForeignArchive.TextIsSmall(lib, ClashRows(x, t, o, database, file, taken, other))
    requires 0 < size <= BackupPackage.MAX_BACKUP_BYTES
    ensures IsStagedAs(lib, ClashRows(x, t, o, database, file, taken, other), size, currentSchema, ClashItems(x, t, o))
  {
    var rows, items: seq<Path> := ClashRows(x, t, o, database, file, taken, other), ClashItems(x, t, o);
    forall k {:trigger ForeignArchive.GoodRow(rows[k])} | 0 <= k < 4
      ensures ForeignArchive.GoodRow(rows[k])
    {
      ClashRowIsGood(x, t, o, database, file, taken, other, k);
    }
    var under: seq<nat> := [0, 1, 2, 3];
    forall k {:trigger ForeignArchive.OpensAs(rows, k, under[k], items[k])} | 0 <= k < 4
      ensures ForeignArchive.OpensAs(rows, k, under[k], items[k])
    {
      assert under[k] == k;
      ClashRowOpens(x, t, o, database, file, taken, other, k);
    }
    PairsDiffer(x, o);
    PairsDiffer(t, o);
    assert |"config" + "/" + x| < |"config" + "/" + t|;
    FourRowsStaged(lib, rows, size, currentSchema, under, items, 2);
  }

  const SHARED_WITNESS := SharedRows("x", "other", [1], [2], [3])
  const CLASH_WITNESS := ClashRows("x", TempOf("x"), "other", [1], [2], [3], [4])

  /** Two such archives with files of one byte each: whatever the digest, and however the manifest is
      written as long as that takes at most a mebibyte, they are accepted and staged. */
  lemma {:induction false} WitnessesAreAccepted(lib: BackupPackage.Library, size: nat, currentSchema: nat)
    requires lib.Valid() && 0 < size <= BackupPackage.MAX_BACKUP_BYTES
    requires ForeignArchive.TextIsSmall(lib, SHARED_WITNESS)
    requires ForeignArchive.TextIsSmall(lib, CLASH_WITNESS)
    ensures IsStagedAs(lib, SHARED_WITNESS, size, currentSchema, SharedItems("x", "other"))
    ensures IsStagedAs(lib, CLASH_WITNESS, size, currentSchema, ClashItems("x", TempOf("x"), "other"))
  {
    PlainNamesExist();
    SharedArchiveIsAccepted(lib, "x", "other", [1], [2], [3], size, currentSchema);
    ClashArchiveIsAccepted(lib, "x", "other", [1], [2], [3], [4], size, currentSchema);
  }

  /* ---------- What their restore does ---------- */

  /** An item below "db" other than the database has no target, so the restore always fails there. */
  lemma {:induction false} AlwaysFailsAtThree(job: Job, before: map<Path, Content>, now: map<Path, Content>, r: Report)
    requires job.Valid() && |job.items| == 4 && !job.HasTarget(3)
    requires forall i :: 0 <= i < 3 ==> job.HasTarget(i) && job.Staged(i) in before
    requires Outcome(job, before, now, true, r)
    ensures !r.ok && r.clean && r.restored == r.listed == 3
  {
    assert CanRestore(job, before, r.restored);
    assert CanRestore(job, before, 3);
    assert CanRestore(job, before, 2) && CanRestore(job, before, 1);
  }

  lemma {:induction false} ConfigTarget(paths: AppPaths, x: string)
    ensures RestoreTargetFor(paths, ["config", x]) == Ok(paths.dataDir + ["config", x])
    ensures TempName(paths.dataDir + ["config", x]) == paths.dataDir + ["config", TempOf(x)]
  {
    assert ["config", x][0] != DATABASE_ENTRY[0] by {
      assert |"config"| != |"db"|;
    }
    assert RestoreTargetFor(paths, ["config", x]) == Ok(paths.ConfigDir() + ["config", x][1..]);
    assert paths.ConfigDir() + ["config", x][1..] == paths.dataDir + ["config", x];
  }

  lemma {:induction false} OtherHasNoTarget(paths: AppPaths, o: string)
    requires o != "app.sqlite3"
    ensures RestoreTargetFor(paths, ["db", o]) == ValueError
  {
    assert ["db", o][1] != DATABASE_ENTRY[1];
    assert |"db"| != |"config"| && |"db"| != |"maps"|;
  }

  /** The database item concerns nothing in the configuration directory. */
  lemma {:induction false} DatabaseIsElsewhere(paths: AppPaths, x: string)
    ensures RestoreTargetFor(paths, DATABASE_ENTRY) == Ok(paths.DatabaseFile())
    ensures paths.DatabaseFile() != paths.dataDir + ["config", x]
    ensures TempName(paths.DatabaseFile()) != paths.dataDir + ["config", x]
  {
    var n := |paths.dataDir|;
    assert TempName(paths.DatabaseFile())[n] == "db" && paths.DatabaseFile()[n] == "db";
    assert (paths.dataDir + ["config", x])[n] == "config" && |"db"| != |"config"|;
  }

  /** Without any fault, restoring the archive of SharedArchiveIsAccepted fails, rolls back without a
      failing step, and leaves the archive's content where the file was. */
  lemma {:induction false} SharedTargetLosesAFile(
    job: Job, before: map<Path, Content>, now: map<Path, Content>, r: Report, x: string, o: string)
    requires job.Valid() && job.items == SharedItems(x, o) && o != "app.sqlite3"
    requires forall i :: 0 <= i < 4 ==> job.Staged(i) in before
    requires Outcome(job, before, now, true, r)
    ensures !r.ok && r.clean
    ensures var p := job.paths.dataDir + ["config", x];
            && job.IsTarget(p)
            && (p in before ==> At(now, p) == At(before, job.Staged(1)))
            && (p in before && before[p] != before[job.Staged(1)] ==> !Same(before, now, p))
  {
    var p := job.paths.dataDir + ["config", x];
    ConfigTarget(job.paths, x);
    DatabaseIsElsewhere(job.paths, x);
    OtherHasNoTarget(job.paths, o);
    assert job.TargetIs(1, p) && job.TargetIs(2, p) && job.HasTarget(0) && !job.HasTarget(3);
    assert !job.TargetIs(0, p) && !job.TempIs(0, p);
    AlwaysFailsAtThree(job, before, now, r);
    TargetInScope(job, 1);
    if p in before {
      assert TargetIn(job, p, 0, 3);
      assert Held(job, before, p, 1) == At(before, p);
      assert Held(job, before, p, 2) == At(before, job.Staged(1));
      assert Copied(job, before, p, 3) == At(before, job.Staged(1));
      RolledIs(job, before, p, 0, 3, 1);
    }
  }

  /** Without any fault, restoring the archive of ClashArchiveIsAccepted fails, rolls back without a
      failing step, and the file that had the temporary name is gone. */
  lemma {:induction false} ClashLosesAFile(
    job: Job, before: map<Path, Content>, now: map<Path, Content>, r: Report, x: string, o: string)
    requires job.Valid() && job.items == ClashItems(x, TempOf(x), o) && o != "app.sqlite3"
    requires forall i :: 0 <= i < 4 ==> job.Staged(i) in before
    requires job.paths.dataDir + ["config", TempOf(x)] in before
    requires Outcome(job, before, now, true, r)
    ensures !r.ok && r.clean
    ensures job.paths.dataDir + ["config", TempOf(x)] !in now
  {
    var p := job.paths.dataDir + ["config", TempOf(x)];
    ConfigTarget(job.paths, x);
    ConfigTarget(job.paths, TempOf(x));
    DatabaseIsElsewhere(job.paths, x);
    OtherHasNoTarget(job.paths, o);
    assert job.TargetIs(1, p) && job.TempIs(0, p);
    assert job.HasTarget(0) && job.HasTarget(2) && !job.HasTarget(3);
    AlwaysFailsAtThree(job, before, now, r);
    TargetInScope(job, 1);
    TargetIsNotTemp(job, 0, p);
    assert !TargetIn(job, p, 0, 1);
    assert Held(job, before, p, 1) == None;
    RolledIs(job, before, p, 0, 3, 1);
  }
}
