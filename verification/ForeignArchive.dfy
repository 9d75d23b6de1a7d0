/** Archives that were not written by this program, described row by row: a path as the manifest
    text has it, the path it parses to, and the content. Used to show inputs that validation accepts. */
module ForeignArchive {
  import opened Models
  import opened ArchivePath
  import opened BackupPackage
  import opened BackupRoundTrip

  const SMALL := 0x10_0000

  datatype Row = Row(raw: string, path: string, kind: string, data: Bytes)

  function FileWith(lib: Library, path: string, row: Row): ManifestFile {
    ManifestFile(path, row.kind, |row.data|, lib.hash(row.data))
  }

  function TextManifest(lib: Library, rows: seq<Row>): Manifest {
    Manifest(MANIFEST_VERSION, 0, false, seq(|rows|, i requires 0 <= i < |rows| => FileWith(lib, rows[i].raw, rows[i])))
  }

  function ParsedManifest(lib: Library, rows: seq<Row>): Manifest {
    Manifest(MANIFEST_VERSION, 0, false,
      seq(|rows|, i requires 0 <= i < |rows| => FileWith(lib, rows[i].path, rows[i])))
  }

  function EntriesOf(lib: Library, rows: seq<Row>): seq<Entry> {
    [Entry(MANIFEST_NAME, lib.encode(TextManifest(lib, rows)))]
    + seq(|rows|, i requires 0 <= i < |rows| => Entry(rows[i].path, rows[i].data))
  }

  predicate TextIsSmall(lib: Library, rows: seq<Row>) {
    |lib.encode(TextManifest(lib, rows))| <= SMALL
  }

  ghost predicate GoodRow(row: Row) {
    && SafeArchivePath(row.raw) == Ok(row.path) && SafeArchivePath(row.path).Ok?
    && IsKind(row.kind) && 0 < |row.data| <= SMALL && !MentionsLicense(row.path)
  }

  ghost predicate AllGood(rows: seq<Row>) {
    forall i {:trigger GoodRow(rows[i])} :: 0 <= i < |rows| ==> GoodRow(rows[i])
  }

  ghost predicate GoodRows(lib: Library, rows: seq<Row>) {
    && lib.Valid() && 0 < |rows| <= 100
    && AllGood(rows)
    && (forall i, j :: 0 <= i < j < |rows| ==> rows[i].path != rows[j].path)
    && (exists i :: 0 <= i < |rows| && IsDatabaseItem(FileWith(lib, rows[i].path, rows[i])))
    && TextIsSmall(lib, rows)
  }

  lemma {:induction false} RowIsCreatedFile(lib: Library, row: Row)
    requires GoodRow(row)
    ensures IsCreatedFile(lib, FileWith(lib, row.path, row), row.data)
  {
    AcceptedIsSafe(row.raw);
    NameIsNotManifest(row.path);
  }

  lemma {:induction false} RowParses(lib: Library, row: Row)
    requires lib.Valid() && GoodRow(row)
    ensures ParsedFile(FileWith(lib, row.raw, row)) == Some(FileWith(lib, row.path, row))
  {
    assert IsSha256Text(lib.hash(row.data));
  }

  lemma {:induction false} RowsAreArchive(lib: Library, rows: seq<Row>)
    requires GoodRows(lib, rows)
    ensures IsArchive(lib, ParsedManifest(lib, rows), lib.encode(TextManifest(lib, rows)), EntriesOf(lib, rows))
  {
    var m, entries := ParsedManifest(lib, rows), EntriesOf(lib, rows);
    forall i | 0 <= i < |m.files|
      ensures entries[i + 1].name == m.files[i].path && IsCreatedFile(lib, m.files[i], entries[i + 1].data)
    {
      assert GoodRow(rows[i]);
      RowIsCreatedFile(lib, rows[i]);
    }
  }

  lemma {:induction false} RowsParse(lib: Library, rows: seq<Row>)
    requires GoodRows(lib, rows)
    ensures IsParsed(lib, lib.encode(TextManifest(lib, rows)), ParsedManifest(lib, rows))
  {
    var raw, m := TextManifest(lib, rows), ParsedManifest(lib, rows);
    forall i | 0 <= i < |rows|
      ensures ParsedFiles(raw.files)[i] == Some(m.files[i])
    {
      assert GoodRow(rows[i]);
      RowParses(lib, rows[i]);
    }
  }

  lemma {:induction false} RowPaths(lib: Library, rows: seq<Row>)
    requires GoodRows(lib, rows)
    ensures forall i :: 0 <= i < |rows| ==> !MentionsLicense(ParsedManifest(lib, rows).files[i].path)
    ensures forall i :: 0 <= i < |rows| ==> SafeArchivePath(ParsedManifest(lib, rows).files[i].path).Ok?
  {
    forall i | 0 <= i < |rows|
      ensures !MentionsLicense(ParsedManifest(lib, rows).files[i].path)
      ensures SafeArchivePath(ParsedManifest(lib, rows).files[i].path).Ok?
    {
      assert GoodRow(rows[i]);
    }
  }

  lemma {:induction false} RowsAreSmall(lib: Library, rows: seq<Row>)
    requires GoodRows(lib, rows)
    ensures TotalSize(EntriesOf(lib, rows), |rows| + 1) <= MAX_BACKUP_BYTES
  {
    var entries := EntriesOf(lib, rows);
    forall i | 0 <= i < |entries|
      ensures |entries[i].data| <= SMALL
    {
      assert i > 0 ==> GoodRow(rows[i - 1]);
    }
    SmallTotal(entries, |entries|);
  }

  lemma {:induction false} RowsManifestAccepted(lib: Library, rows: seq<Row>, currentSchema: nat)
    requires GoodRows(lib, rows)
    ensures ManifestAccepted(ParsedManifest(lib, rows), currentSchema)
  {
    RowPaths(lib, rows);
    RowsDistinct(lib, rows);
    RowsHaveDatabase(lib, rows);
  }

  lemma {:induction false} RowsDistinct(lib: Library, rows: seq<Row>)
    requires GoodRows(lib, rows)
    ensures DistinctPaths(ParsedManifest(lib, rows).files)
  {
  }

  lemma {:induction false} RowsHaveDatabase(lib: Library, rows: seq<Row>)
    requires GoodRows(lib, rows)
    ensures exists i :: 0 <= i < |rows| && IsDatabaseItem(ParsedManifest(lib, rows).files[i])
  {
    var d :| 0 <= d < |rows| && IsDatabaseItem(FileWith(lib, rows[d].path, rows[d]));
    assert ParsedManifest(lib, rows).files[d] == FileWith(lib, rows[d].path, rows[d]);
  }

  lemma {:induction false} SmallTotal(entries: seq<Entry>, k: nat)
    requires k <= |entries| && forall i :: 0 <= i < |entries| ==> |entries[i].data| <= SMALL
    ensures TotalSize(entries, k) <= k * SMALL
  {
    if k > 0 {
      SmallTotal(entries, k - 1);
    }
  }

  /** Good rows make an archive that validation accepts. */
  lemma {:induction false} RowsAccepted(lib: Library, rows: seq<Row>, size: nat, currentSchema: nat)
    requires GoodRows(lib, rows) && 0 < size <= MAX_BACKUP_BYTES
    ensures Accepted(lib, EntriesOf(lib, rows), size, currentSchema, ParsedManifest(lib, rows))
  {
    var entries := EntriesOf(lib, rows);
    RowsAreArchive(lib, rows);
    RowsParse(lib, rows);
    RowsManifestAccepted(lib, rows, currentSchema);
    RowPaths(lib, rows);
    RowsAreSmall(lib, rows);
    ArchiveIsAccepted(lib, ParsedManifest(lib, rows), lib.encode(TextManifest(lib, rows)), entries, size,
      currentSchema);
  }

  lemma {:induction false} RowIsSmall(rows: seq<Row>, i: nat)
    requires AllGood(rows) && i < |rows|
    ensures |rows[i].data| <= SMALL
  {
    assert GoodRow(rows[i]);
  }

  lemma {:induction false} PlaceIs(lib: Library, entries: seq<Entry>, f: ManifestFile, path: string, data: Bytes)
    requires SafeArchivePath(f.path) == Ok(path) && Lookup(entries, path) == Some(data)
    requires |data| <= MAX_ENTRY_BYTES && f.sizeBytes == |data| && f.sha256 == lib.hash(data)
    ensures PlaceOf(lib, entries, f) == Place(Split(path), data, true)
  {
  }

  lemma {:induction false} RowContent(lib: Library, rows: seq<Row>, t: nat)
    requires GoodRows(lib, rows) && t < |rows|
    ensures Lookup(EntriesOf(lib, rows), rows[t].path) == Some(rows[t].data)
  {
    var m, entries := ParsedManifest(lib, rows), EntriesOf(lib, rows);
    RowsAreArchive(lib, rows);
    RowsManifestAccepted(lib, rows, 0);
    ContentsMatch(lib, m, lib.encode(TextManifest(lib, rows)), entries, t);
    assert m.files[t].path == rows[t].path && entries[t + 1].data == rows[t].data;
  }

  /** Row i is opened under the path of row t, which has the same content. */
  lemma {:induction false} RowPlace(lib: Library, rows: seq<Row>, i: nat, t: nat)
    requires GoodRows(lib, rows) && i < |rows| && t < |rows|
    requires SafeArchivePath(rows[i].path) == Ok(rows[t].path) && rows[t].data == rows[i].data
    ensures PlacesOf(lib, EntriesOf(lib, rows), ParsedManifest(lib, rows).files)[i]
            == Place(Split(rows[t].path), rows[i].data, true)
  {
    RowContent(lib, rows, t);
    RowIsSmall(rows, i);
    PlaceIs(lib, EntriesOf(lib, rows), FileWith(lib, rows[i].path, rows[i]), rows[t].path, rows[i].data);
  }

  /** Row i is opened under the path of row t and becomes the given item. */
  ghost predicate OpensAs(rows: seq<Row>, i: nat, t: nat, item: seq<string>)
    requires i < |rows|
  {
    && t < |rows| && SafeArchivePath(rows[i].path) == Ok(rows[t].path) && rows[t].data == rows[i].data
    && Split(rows[t].path) == item && |item| == 2
  }

  ghost predicate AllOpenAs(rows: seq<Row>, under: seq<nat>, items: seq<seq<string>>) {
    && |under| == |items| == |rows|
    && (forall i {:trigger OpensAs(rows, i, under[i], items[i])} :: 0 <= i < |rows| ==>
         OpensAs(rows, i, under[i], items[i]))
  }

  /** Validation and extraction accept an archive of good rows, all items of two parts. */
  lemma {:induction false} RowsStaged(
    lib: Library, rows: seq<Row>, size: nat, currentSchema: nat, under: seq<nat>, items: seq<seq<string>>)
    requires GoodRows(lib, rows) && AllOpenAs(rows, under, items) && 0 < size <= MAX_BACKUP_BYTES
    ensures Accepted(lib, EntriesOf(lib, rows), size, currentSchema, ParsedManifest(lib, rows))
    ensures var places := PlacesOf(lib, EntriesOf(lib, rows), ParsedManifest(lib, rows).files);
            Extracts(places) && |places| == |items| && forall i :: 0 <= i < |items| ==> places[i].item == items[i]
  {
    RowsAccepted(lib, rows, size, currentSchema);
    var places := PlacesOf(lib, EntriesOf(lib, rows), ParsedManifest(lib, rows).files);
    forall i | 0 <= i < |rows|
      ensures places[i].item == items[i] && |items[i]| == 2 && places[i].matches
    {
      assert OpensAs(rows, i, under[i], items[i]);
      RowPlace(lib, rows, i, under[i]);
    }
    PairsExtract(places);
  }

  lemma {:induction false} PairsExtract(places: seq<Place>)
    requires forall i :: 0 <= i < |places| ==> |places[i].item| == 2 && places[i].matches
    ensures Extracts(places)
  {
  }

  /** Four good rows with distinct paths, one of them the database. */
  lemma {:induction false} FourGoodRows(lib: Library, rows: seq<Row>, d: nat)
    requires lib.Valid() && |rows| == 4 && d < 4 && IsDatabaseItem(FileWith(lib, rows[d].path, rows[d]))
    requires AllGood(rows)
    requires rows[0].path != rows[1].path && rows[0].path != rows[2].path && rows[0].path != rows[3].path
    requires rows[1].path != rows[2].path && rows[1].path != rows[3].path && rows[2].path != rows[3].path
    requires TextIsSmall(lib, rows)
    ensures GoodRows(lib, rows)
  {
  }

  /* ---------- Paths of two parts ---------- */

  lemma {:induction false} TwoParts(top: string, name: string)
    requires IsAllowedTop(top) && IsComponent(name)
    ensures Split(top + "/" + name) == [top, name] && IsSafe(Split(top + "/" + name))
  {
    SplitFirst(top, name);
    SplitFirst(name, "");
    TopIsComponent(top);
  }

  lemma {:induction false} TopIsComponent(top: string)
    requires IsAllowedTop(top)
    ensures IsComponent(top)
  {
  }

  /** A trailing space is stripped. */
  lemma {:induction false} SpaceIsStripped(p: string)
    requires IsSafe(Split(p)) && |p| <= MAX_PATH && !EndsInSpace(p)
    ensures SafeArchivePath(p + " ") == Ok(p)
  {
    var s := p + " ";
    JoinSplit(p);
    SafeHasNoBackslash(Split(p));
    FirstCharacter(Split(p));
    ForwardSlashesAre(s);
    StripLeftIs(s);
    StripRightIs(p);
    assert s[..|s| - 1] == p;
    assert Strip(s) == p;
    ComponentsKeep(Split(p));
  }

  lemma {:induction false} NoLicense(path: string)
    requires forall k :: 0 <= k <= |path| - 7 ==> Lower(path[k]) != 'l'
    ensures !MentionsLicense(path)
  {
    forall k | 0 <= k <= |path| - 7
      ensures !OccursAt(path, "license", k)
    {
      assert "license"[0] == 'l' && path[k + 0] == path[k];
    }
  }
}
