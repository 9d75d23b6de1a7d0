/** Creation, validation and extraction together: which created archives are accepted, and that
    extracting one returns every byte. */
module BackupRoundTrip {
  import opened Models
  import opened ArchivePath
  import opened BackupPackage

  /** What a created archive must satisfy to be accepted; the caller can check all of it. */
  ghost predicate Fits(lib: Library, m: Manifest, entries: seq<Entry>, size: nat, currentSchema: nat) {
    && 0 < size <= 0x4000_0000
    && |m.files| <= 10000
    && |lib.encode(m)| <= 0x10_0000
    && TotalSize(entries, |entries|) <= 0x4000_0000
    && ManifestAccepted(m, currentSchema)
    && (forall i :: 0 <= i < |m.files| ==> !EndsInSpace(m.files[i].path))
  }

  /* ---------- The names in a created archive ---------- */

  lemma {:induction false} JoinEnds(parts: seq<string>)
    requires parts != [] && forall i :: 0 <= i < |parts| ==> parts[i] != "" && '/' !in parts[i]
    ensures IsFileName(Join(parts))
  {
    if |parts| > 1 {
      JoinEnds(parts[1..]);
    }
  }

  lemma {:induction false} NameIsNotManifest(p: string)
    requires IsSafe(Split(p))
    ensures p != MANIFEST_NAME && IsFileName(p)
  {
    JoinSplit(p);
    JoinEnds(Split(p));
    ManifestNameHasNoSlash();
    SplitFirst(MANIFEST_NAME, "");
  }

  lemma {:induction false} ManifestNameHasNoSlash()
    ensures '/' !in MANIFEST_NAME
  {
  }

  /** What one file of a created archive is like. */
  ghost predicate IsCreatedFile(lib: Library, f: ManifestFile, data: Bytes) {
    && IsSafe(Split(f.path)) && |f.path| <= MAX_PATH && f.path != MANIFEST_NAME && IsFileName(f.path)
    && IsKind(f.kind) && f.sizeBytes == |data| && 0 < |data| <= MAX_ENTRY_BYTES
    && f.sha256 == lib.hash(data)
  }

  lemma {:induction false} CreatedFiles(
    lib: Library, sources: seq<Source>, schema: nat, m: Manifest, entries: seq<Entry>)
    requires IsPackage(lib, sources, schema, m, entries)
    ensures forall i :: 0 <= i < |m.files| ==> entries[i + 1].name == m.files[i].path
    ensures forall i :: 0 <= i < |m.files| ==> IsCreatedFile(lib, m.files[i], entries[i + 1].data)
  {
    forall i | 0 <= i < |m.files|
      ensures entries[i + 1].name == m.files[i].path && IsCreatedFile(lib, m.files[i], entries[i + 1].data)
    {
      assert IsUsable(sources[i]);
      CreatedFile(lib, sources[i]);
    }
  }

  lemma {:induction false} CreatedFile(lib: Library, s: Source)
    requires IsUsable(s)
    ensures IsCreatedFile(lib, FileOf(lib, s), s.data.value)
  {
    AcceptedIsSafe(s.archivePath);
    NameIsNotManifest(SafeArchivePath(s.archivePath).value);
  }

  /** An archive with the files of m, whatever its manifest text says. */
  ghost predicate IsArchive(lib: Library, m: Manifest, text: Bytes, entries: seq<Entry>) {
    && m.files != [] && |entries| == |m.files| + 1
    && entries[0] == Entry(MANIFEST_NAME, text)
    && (forall i :: 0 <= i < |m.files| ==> entries[i + 1].name == m.files[i].path)
    && (forall i :: 0 <= i < |m.files| ==> IsCreatedFile(lib, m.files[i], entries[i + 1].data))
  }

  ghost predicate IsCreated(lib: Library, m: Manifest, entries: seq<Entry>) {
    IsArchive(lib, m, lib.encode(m), entries)
  }

  lemma {:induction false} AllAreFiles(entries: seq<Entry>)
    requires forall i :: 0 <= i < |entries| ==> IsFileName(entries[i].name)
    ensures FileCount(entries) == |entries|
  {
    if entries != [] {
      AllAreFiles(entries[..|entries| - 1]);
    }
  }

  lemma {:induction false} ArchiveNames(lib: Library, m: Manifest, text: Bytes, entries: seq<Entry>)
    requires IsArchive(lib, m, text, entries)
    ensures forall k :: 0 <= k < |entries| ==> IsFileName(entries[k].name)
    ensures forall k :: 0 <= k < |entries| && entries[k].name == MANIFEST_NAME ==> k == 0
    ensures FileCount(entries) == |m.files| + 1
    ensures FileNames(entries) == Paths(m.files) + {MANIFEST_NAME}
    ensures Lookup(entries, MANIFEST_NAME) == Some(text)
  {
    forall k | 0 <= k < |entries|
      ensures IsFileName(entries[k].name) && (entries[k].name == MANIFEST_NAME ==> k == 0)
      ensures k > 0 ==> entries[k].name == m.files[k - 1].path
    {
      if k > 0 {
        var i := k - 1;
        assert IsCreatedFile(lib, m.files[i], entries[i + 1].data) && entries[i + 1].name == m.files[i].path;
      } else {
        ManifestIsFileName();
      }
    }
    AllAreFiles(entries);
    LookupLast(entries, 0);
    forall name | name in Paths(m.files) + {MANIFEST_NAME}
      ensures name in FileNames(entries)
    {
      if name == MANIFEST_NAME {
        assert entries[0].name == name;
      } else {
        var i :| 0 <= i < |m.files| && m.files[i].path == name;
        assert entries[i + 1].name == name;
      }
    }
  }

  lemma {:induction false} ManifestIsFileName()
    ensures IsFileName(MANIFEST_NAME)
  {
  }

  /* ---------- Acceptance ---------- */

  lemma {:induction false} ParsesBack(lib: Library, f: ManifestFile, data: Bytes)
    requires lib.Valid() && IsCreatedFile(lib, f, data)
    ensures ParsedFile(f).Some? <==> SafeArchivePath(f.path).Ok?
    ensures ParsedFile(f).Some? ==> ParsedFile(f) == Some(f.(path := SafeArchivePath(f.path).value))
    ensures !EndsInSpace(f.path) ==> ParsedFile(f) == Some(f)
    ensures EndsInSpace(f.path) && ParsedFile(f).Some? ==> |ParsedFile(f).value.path| < |f.path|
  {
    SafeAgain(f.path);
    assert IsSha256Text(lib.hash(data));
  }

  /** Paths that end in white space do not survive: the longest of them would have to come out of
      a longer one. */
  lemma {:induction false} NoPathEndsInSpace(lib: Library, m: Manifest, entries: seq<Entry>, parsed: Manifest, i: nat)
    requires lib.Valid() && IsCreated(lib, m, entries) && i < |m.files|
    requires IsParsed(lib, lib.encode(m), parsed) && Matches(lib, entries, parsed)
    ensures !EndsInSpace(m.files[i].path)
    decreases MAX_PATH - |m.files[i].path|
  {
    ArchiveNames(lib, m, lib.encode(m), entries);
    var p := m.files[i].path;
    assert IsCreatedFile(lib, m.files[i], entries[i + 1].data);
    assert p in Paths(m.files) && p in Paths(parsed.files);
    var j :| 0 <= j < |parsed.files| && parsed.files[j].path == p;
    assert ParsedFiles(m.files)[j] == Some(parsed.files[j]);
    assert IsCreatedFile(lib, m.files[j], entries[j + 1].data);
    ParsesBack(lib, m.files[j], entries[j + 1].data);
    if EndsInSpace(m.files[j].path) {
      NoPathEndsInSpace(lib, m, entries, parsed, j);
    }
  }

  lemma {:induction false} ParsesToItself(lib: Library, m: Manifest, entries: seq<Entry>, parsed: Manifest)
    requires lib.Valid() && IsCreated(lib, m, entries)
    requires forall i :: 0 <= i < |m.files| ==> !EndsInSpace(m.files[i].path)
    ensures |lib.encode(m)| <= MAX_MANIFEST_BYTES <==> IsParsed(lib, lib.encode(m), m)
    ensures IsParsed(lib, lib.encode(m), parsed) ==> parsed == m
  {
    forall i | 0 <= i < |m.files|
      ensures ParsedFiles(m.files)[i] == Some(m.files[i])
    {
      assert IsCreatedFile(lib, m.files[i], entries[i + 1].data);
      ParsesBack(lib, m.files[i], entries[i + 1].data);
    }
    if IsParsed(lib, lib.encode(m), parsed) {
      ParsedIsUnique(lib, lib.encode(m), m, parsed);
    }
  }

  lemma {:induction false} ContentsMatch(lib: Library, m: Manifest, text: Bytes, entries: seq<Entry>, i: nat)
    requires IsArchive(lib, m, text, entries) && DistinctPaths(m.files) && i < |m.files|
    ensures Lookup(entries, m.files[i].path) == Some(entries[i + 1].data)
    ensures ContentMatches(lib, entries, m.files[i].path, m.files[i])
  {
    var p := m.files[i].path;
    assert IsCreatedFile(lib, m.files[i], entries[i + 1].data) && entries[i + 1].name == p;
    forall k | 0 <= k < |entries| && entries[k].name == p
      ensures k == i + 1
    {
      if k > 0 {
        assert entries[(k - 1) + 1].name == m.files[k - 1].path;
      }
    }
    LookupLast(entries, i + 1);
  }

  lemma {:induction false} InfosAreFine(lib: Library, m: Manifest, text: Bytes, entries: seq<Entry>)
    requires IsArchive(lib, m, text, entries) && |text| <= MAX_MANIFEST_BYTES
    requires forall i :: 0 <= i < |m.files| ==> SafeArchivePath(m.files[i].path).Ok?
    ensures forall k {:trigger InfoAccepted(entries[k])} :: 0 <= k < |entries| ==> InfoAccepted(entries[k])
  {
    forall k {:trigger InfoAccepted(entries[k])} | 0 <= k < |entries|
      ensures InfoAccepted(entries[k])
    {
      if k > 0 {
        var i := k - 1;
        assert IsCreatedFile(lib, m.files[i], entries[i + 1].data) && entries[i + 1].name == m.files[i].path;
      }
    }
  }

  /** An archive is accepted with manifest m when its text parses to m and all limits are kept. */
  lemma {:induction false} ArchiveIsAccepted(
    lib: Library, m: Manifest, text: Bytes, entries: seq<Entry>, size: nat, currentSchema: nat)
    requires IsArchive(lib, m, text, entries) && IsParsed(lib, text, m)
    requires 0 < size <= MAX_BACKUP_BYTES && |m.files| <= MAX_FILE_COUNT && |text| <= MAX_MANIFEST_BYTES
    requires TotalSize(entries, |entries|) <= MAX_BACKUP_BYTES && ManifestAccepted(m, currentSchema)
    requires forall i :: 0 <= i < |m.files| ==> SafeArchivePath(m.files[i].path).Ok?
    ensures Accepted(lib, entries, size, currentSchema, m)
  {
    ArchiveNames(lib, m, text, entries);
    InfosAreFine(lib, m, text, entries);
    forall i | 0 <= i < |m.files|
      ensures ContentMatches(lib, entries, m.files[i].path, m.files[i]) && m.files[i].sizeBytes <= MAX_ENTRY_BYTES
    {
      assert IsCreatedFile(lib, m.files[i], entries[i + 1].data);
      ContentsMatch(lib, m, text, entries, i);
    }
    assert Matches(lib, entries, m);
  }

  /** A created archive is accepted iff it fits, and then with the manifest that was written. */
  lemma {:induction false} CreatedIsAcceptedIff(
    lib: Library, m: Manifest, entries: seq<Entry>, size: nat, currentSchema: nat)
    requires lib.Valid() && IsCreated(lib, m, entries)
    ensures Accepted(lib, entries, size, currentSchema, m) <==> Fits(lib, m, entries, size, currentSchema)
    ensures forall other :: Accepted(lib, entries, size, currentSchema, other) ==> other == m
  {
    ArchiveNames(lib, m, lib.encode(m), entries);
    if Fits(lib, m, entries, size, currentSchema) {
      FittingIsAccepted(lib, m, entries, size, currentSchema);
    }
    forall other | Accepted(lib, entries, size, currentSchema, other)
      ensures other == m && Fits(lib, m, entries, size, currentSchema)
    {
      AcceptedFits(lib, m, entries, size, currentSchema, other);
    }
  }

  lemma {:induction false} FittingIsAccepted(
    lib: Library, m: Manifest, entries: seq<Entry>, size: nat, currentSchema: nat)
    requires lib.Valid() && IsCreated(lib, m, entries) && Fits(lib, m, entries, size, currentSchema)
    ensures Accepted(lib, entries, size, currentSchema, m)
  {
    ParsesToItself(lib, m, entries, m);
    forall i | 0 <= i < |m.files|
      ensures SafeArchivePath(m.files[i].path).Ok?
    {
      assert IsCreatedFile(lib, m.files[i], entries[i + 1].data);
      SafeAgain(m.files[i].path);
    }
    ArchiveIsAccepted(lib, m, lib.encode(m), entries, size, currentSchema);
  }

  lemma {:induction false} AcceptedFits(
    lib: Library, m: Manifest, entries: seq<Entry>, size: nat, currentSchema: nat, parsed: Manifest)
    requires lib.Valid() && IsCreated(lib, m, entries) && Accepted(lib, entries, size, currentSchema, parsed)
    ensures parsed == m && Fits(lib, m, entries, size, currentSchema)
  {
    ArchiveNames(lib, m, lib.encode(m), entries);
    forall i | 0 <= i < |m.files|
      ensures !EndsInSpace(m.files[i].path)
    {
      NoPathEndsInSpace(lib, m, entries, parsed, i);
    }
    ParsesToItself(lib, m, entries, parsed);
  }

  lemma {:induction false} PackageIsCreated(
    lib: Library, sources: seq<Source>, schema: nat, m: Manifest, entries: seq<Entry>)
    requires IsPackage(lib, sources, schema, m, entries)
    ensures IsCreated(lib, m, entries)
    ensures forall i :: 0 <= i < |sources| ==> sources[i].data == Some(entries[i + 1].data)
  {
    CreatedFiles(lib, sources, schema, m, entries);
    assert forall i :: 0 <= i < |sources| ==> IsUsable(sources[i]);
  }

  /* ---------- Extraction ---------- */

  /** The path names a file inside what is itself a file of the archive. */
  ghost predicate SomeInside(files: seq<ManifestFile>) {
    exists i, j :: 0 <= i < |files| && 0 <= j < |files| && IsInside(Split(files[i].path), Split(files[j].path))
  }

  lemma {:induction false} CreatedPlaces(
    lib: Library, m: Manifest, entries: seq<Entry>, size: nat, currentSchema: nat, i: nat)
    requires lib.Valid() && IsCreated(lib, m, entries) && Accepted(lib, entries, size, currentSchema, m)
    requires i < |m.files|
    ensures PlacesOf(lib, entries, m.files)[i] == Place(Split(m.files[i].path), entries[i + 1].data, true)
  {
    CreatedIsAcceptedIff(lib, m, entries, size, currentSchema);
    assert IsCreatedFile(lib, m.files[i], entries[i + 1].data);
    SafeAgain(m.files[i].path);
    ContentsMatch(lib, m, lib.encode(m), entries, i);
  }

  /** Extraction of an accepted created archive succeeds iff no path lies inside another; then the
      tree holds the bytes of every source under its path, and nothing else. */
  lemma {:induction false} CreatedExtracts(
    lib: Library, sources: seq<Source>, schema: nat, m: Manifest, entries: seq<Entry>, size: nat, currentSchema: nat,
    root: seq<string>, tree: Tree)
    requires lib.Valid() && IsPackage(lib, sources, schema, m, entries)
    requires Accepted(lib, entries, size, currentSchema, m)
    ensures Extracts(PlacesOf(lib, entries, m.files)) <==> !SomeInside(m.files)
    ensures IsExtraction(PlacesOf(lib, entries, m.files), root, tree) ==> HoldsSources(sources, m, root, tree)
  {
    PackageIsCreated(lib, sources, schema, m, entries);
    AllCreatedPlaces(lib, m, entries, size, currentSchema);
    FromPlaces(sources, m, entries, PlacesOf(lib, entries, m.files), root, tree);
  }

  lemma {:induction false} AllCreatedPlaces(
    lib: Library, m: Manifest, entries: seq<Entry>, size: nat, currentSchema: nat)
    requires lib.Valid() && IsCreated(lib, m, entries) && Accepted(lib, entries, size, currentSchema, m)
    ensures ArePlaces(m, entries, PlacesOf(lib, entries, m.files))
  {
    forall i | 0 <= i < |m.files|
      ensures PlacesOf(lib, entries, m.files)[i] == Place(Split(m.files[i].path), entries[i + 1].data, true)
    {
      CreatedPlaces(lib, m, entries, size, currentSchema, i);
    }
  }

  /** Each path is opened under its own name. */
  ghost predicate ArePlaces(m: Manifest, entries: seq<Entry>, places: seq<Place>) {
    && |places| == |m.files| && |entries| == |m.files| + 1
    && (forall i :: 0 <= i < |m.files| ==> places[i] == Place(Split(m.files[i].path), entries[i + 1].data, true))
  }

  lemma {:induction false} FromPlaces(
    sources: seq<Source>, m: Manifest, entries: seq<Entry>, places: seq<Place>, root: seq<string>, tree: Tree)
    requires ArePlaces(m, entries, places) && |sources| == |m.files|
    requires forall i :: 0 <= i < |sources| ==> sources[i].data == Some(entries[i + 1].data)
    ensures Extracts(places) <==> !SomeInside(m.files)
    ensures IsExtraction(places, root, tree) ==> HoldsSources(sources, m, root, tree)
  {
    if IsExtraction(places, root, tree) {
      TreeHoldsSources(sources, m, entries, places, root, tree);
    }
    assert Extracts(places) <==> NoneInside(places);
    InsideIsInside(m.files, places);
  }

  lemma {:induction false} InsideIsInside(files: seq<ManifestFile>, places: seq<Place>)
    requires |places| == |files| && forall i :: 0 <= i < |files| ==> places[i].item == Split(files[i].path)
    ensures NoneInside(places) <==> !SomeInside(files)
  {
    if SomeInside(files) {
      var i, j :| 0 <= i < |files| && 0 <= j < |files| && IsInside(Split(files[i].path), Split(files[j].path));
      assert IsInside(places[i].item, places[j].item);
    } else {
      forall i, j | 0 <= i < |places| && 0 <= j < |places|
        ensures !IsInside(places[i].item, places[j].item)
      {
        assert !IsInside(Split(files[i].path), Split(files[j].path));
      }
    }
  }

  ghost predicate IsSourcePath(m: Manifest, root: seq<string>, q: seq<string>) {
    exists i :: 0 <= i < |m.files| && q == root + Split(m.files[i].path)
  }

  ghost predicate HoldsSources(sources: seq<Source>, m: Manifest, root: seq<string>, tree: Tree)
    requires |sources| == |m.files|
  {
    && (forall i :: 0 <= i < |sources| ==>
          root + Split(m.files[i].path) in tree && sources[i].data == Some(tree[root + Split(m.files[i].path)]))
    && (forall q :: q in tree ==> IsSourcePath(m, root, q))
  }

  lemma {:induction false} TreeHoldsSources(
    sources: seq<Source>, m: Manifest, entries: seq<Entry>, places: seq<Place>, root: seq<string>, tree: Tree)
    requires |sources| == |m.files| == |places| && |entries| == |m.files| + 1
    requires forall i :: 0 <= i < |sources| ==> sources[i].data == Some(entries[i + 1].data)
    requires forall i :: 0 <= i < |m.files| ==> places[i] == Place(Split(m.files[i].path), entries[i + 1].data, true)
    requires IsExtraction(places, root, tree)
    ensures HoldsSources(sources, m, root, tree)
  {
    forall i | 0 <= i < |sources|
      ensures root + Split(m.files[i].path) in tree && sources[i].data == Some(tree[root + Split(m.files[i].path)])
    {
      assert IsPlaced(places[i], root, tree);
    }
    forall q | q in tree
      ensures IsSourcePath(m, root, q)
    {
      assert IsOneOf(places, root, q);
      var i :| 0 <= i < |places| && q == root + places[i].item;
      assert q == root + Split(m.files[i].path);
    }
  }

  /** extract_validated_package on an empty destination. */
  method ExtractValidatedPackage(lib: Library, entries: seq<Entry>, size: nat, currentSchema: nat, root: seq<string>)
    returns (validated: Result<Manifest>, extracted: Result<Tree>)
    requires Resolve(root) == root
    ensures validated.Ok? ==> Accepted(lib, entries, size, currentSchema, validated.value)
    ensures validated.ValueError? ==>
              extracted.ValueError? && forall m :: !Accepted(lib, entries, size, currentSchema, m)
    ensures validated.Ok? ==> (extracted.Ok? <==> Extracts(PlacesOf(lib, entries, validated.value.files)))
    ensures extracted.Ok? ==>
              validated.Ok? && IsExtraction(PlacesOf(lib, entries, validated.value.files), root, extracted.value)
  {
    validated := ValidateBackupPackage(lib, entries, size, currentSchema);
    if validated.ValueError? {
      return validated, ValueError;
    }
    extracted := ExtractPackage(lib, entries, validated.value.files, root);
  }

  /** Back up, validate, stage: everything comes back whenever the archive fits and no path lies
      inside another, and otherwise one of the steps fails. */
  method RoundTrip(lib: Library, sources: seq<Source>, schema: nat, size: nat, currentSchema: nat, root: seq<string>)
    returns (created: Result<Manifest>, entries: seq<Entry>, extracted: Result<Tree>)
    requires lib.Valid() && Resolve(root) == root
    ensures created.Ok? <==> sources != [] && forall i :: 0 <= i < |sources| ==> IsUsable(sources[i])
    ensures created.Ok? ==> IsPackage(lib, sources, schema, created.value, entries)
    ensures created.Ok? ==>
              (extracted.Ok?
               <==> Fits(lib, created.value, entries, size, currentSchema) && !SomeInside(created.value.files))
    ensures extracted.Ok? ==> created.Ok? && HoldsSources(sources, created.value, root, extracted.value)
  {
    created, entries := CreateBackupPackage(lib, sources, schema);
    if created.ValueError? {
      return created, entries, ValueError;
    }
    var m := created.value;
    var validated;
    validated, extracted := ExtractValidatedPackage(lib, entries, size, currentSchema, root);
    PackageIsCreated(lib, sources, schema, m, entries);
    CreatedIsAcceptedIff(lib, m, entries, size, currentSchema);
    if validated.Ok? {
      CreatedExtracts(lib, sources, schema, m, entries, size, currentSchema, root,
                      if extracted.Ok? then extracted.value else map[]);
    }
  }

  /* ---------- The paths that a staged archive is restored from ---------- */

  /** Two items of the manifest go to the same file. */
  ghost predicate SharedPlace(places: seq<Place>) {
    exists i, j :: 0 <= i < j < |places| && places[i].item == places[j].item
  }

  /** Each path of an archive that was validated and extracted is made safe again before it is
      opened and restored. Different items stay different files iff no path ends in white space. */
  lemma {:induction false} StagedItemsDistinctIff(
    lib: Library, entries: seq<Entry>, size: nat, currentSchema: nat, m: Manifest)
    requires Accepted(lib, entries, size, currentSchema, m) && Extracts(PlacesOf(lib, entries, m.files))
    ensures !SharedPlace(PlacesOf(lib, entries, m.files))
            <==> forall i :: 0 <= i < |m.files| ==> !EndsInSpace(m.files[i].path)
  {
    var places := PlacesOf(lib, entries, m.files);
    forall i | 0 <= i < |m.files| && EndsInSpace(m.files[i].path)
      ensures SharedPlace(places)
    {
      SpaceIsShared(lib, entries, size, currentSchema, m, i);
    }
    if (forall i :: 0 <= i < |m.files| ==> !EndsInSpace(m.files[i].path)) {
      forall i, j | 0 <= i < j < |places|
        ensures places[i].item != places[j].item
      {
        OwnPlace(lib, entries, size, currentSchema, m, i);
        OwnPlace(lib, entries, size, currentSchema, m, j);
        JoinSplit(m.files[i].path);
        JoinSplit(m.files[j].path);
      }
    }
  }

  lemma {:induction false} OwnPlace(
    lib: Library, entries: seq<Entry>, size: nat, currentSchema: nat, m: Manifest, i: nat)
    requires Accepted(lib, entries, size, currentSchema, m) && i < |m.files| && !EndsInSpace(m.files[i].path)
    ensures PlaceOf(lib, entries, m.files[i]).item == Split(m.files[i].path)
  {
    ParsedPathsAreSafe(lib, Lookup(entries, MANIFEST_NAME).value, m);
    SafeAgain(m.files[i].path);
  }

  /** A path that ends in white space is opened under a shorter name, which is another path of
      the manifest. */
  lemma {:induction false} SpaceIsShared(
    lib: Library, entries: seq<Entry>, size: nat, currentSchema: nat, m: Manifest, i: nat)
    requires Accepted(lib, entries, size, currentSchema, m) && Extracts(PlacesOf(lib, entries, m.files))
    requires i < |m.files| && EndsInSpace(m.files[i].path)
    ensures SharedPlace(PlacesOf(lib, entries, m.files))
    decreases |m.files[i].path|
  {
    var places := PlacesOf(lib, entries, m.files);
    assert places[i].matches;
    var j := ShorterName(lib, entries, size, currentSchema, m, i);
    if EndsInSpace(m.files[j].path) {
      SpaceIsShared(lib, entries, size, currentSchema, m, j);
    } else {
      OwnPlace(lib, entries, size, currentSchema, m, j);
      assert places[i].item == places[j].item;
      assert j < i ==> places[j].item == places[i].item;
    }
  }

  lemma {:induction false} ShorterName(
    lib: Library, entries: seq<Entry>, size: nat, currentSchema: nat, m: Manifest, i: nat)
    returns (j: nat)
    requires Accepted(lib, entries, size, currentSchema, m) && i < |m.files|
    requires EndsInSpace(m.files[i].path) && PlaceOf(lib, entries, m.files[i]).matches
    ensures j < |m.files| && |m.files[j].path| < |m.files[i].path|
    ensures PlaceOf(lib, entries, m.files[i]).item == Split(m.files[j].path)
  {
    ParsedPathsAreSafe(lib, Lookup(entries, MANIFEST_NAME).value, m);
    SpacedName(m.files[i].path);
    var q := SafeArchivePath(m.files[i].path).value;
    LookupFinds(entries, q);
    j := NamedInManifest(entries, m, q);
  }

  lemma {:induction false} SpacedName(p: string)
    requires IsSafe(Split(p)) && |p| <= MAX_PATH && EndsInSpace(p) && SafeArchivePath(p).Ok?
    ensures var q := SafeArchivePath(p).value;
            |q| < |p| && q != MANIFEST_NAME && IsFileName(q)
  {
    SafeAgain(p);
    AcceptedIsSafe(p);
    NameIsNotManifest(SafeArchivePath(p).value);
  }

  lemma {:induction false} NamedInManifest(entries: seq<Entry>, m: Manifest, name: string) returns (j: nat)
    requires FileNames(entries) == Paths(m.files) + {MANIFEST_NAME}
    requires HasName(entries, name) && IsFileName(name) && name != MANIFEST_NAME
    ensures j < |m.files| && m.files[j].path == name
  {
    var k :| 0 <= k < |entries| && entries[k].name == name;
    assert name in FileNames(entries) && name in Paths(m.files);
    j :| 0 <= j < |m.files| && m.files[j].path == name;
  }
}
