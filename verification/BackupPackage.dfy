/** Backup archives: what creation writes, what validation accepts, what extraction returns.
    An archive is the list of its entries; compression, JSON and hashing are a Library. */
module BackupPackage {
  import opened Models
  import opened ArchivePath

  type Bytes = seq<bv8>

  const MANIFEST_NAME := "manifest.json"
  const DATABASE_PATH := "db/app.sqlite3"
  const MANIFEST_VERSION := 1
  const MAX_MANIFEST_BYTES := 0x10_0000
  const MAX_ENTRY_BYTES := 0x2000_0000
  const MAX_BACKUP_BYTES := 0x4000_0000
  const MAX_FILE_COUNT := 10000

  datatype Source = Source(archivePath: string, kind: string, data: Option<Bytes>)

  datatype ManifestFile = ManifestFile(path: string, kind: string, sizeBytes: int, sha256: string)

  datatype Manifest = Manifest(version: int, schemaVersion: nat, includeLicense: bool, files: seq<ManifestFile>)

  datatype Entry = Entry(name: string, data: Bytes)

  datatype Library = Library(hash: Bytes -> string, encode: Manifest -> Bytes, decode: Bytes -> Option<Manifest>) {
    /** JSON text reads back as what was written; digests are 64 lower-case hexadecimal digits. */
    ghost predicate Valid() {
      && (forall m :: decode(encode(m)) == Some(m))
      && (forall b :: IsSha256Text(hash(b)))
    }
  }

  predicate IsSha256Text(s: string) {
    |s| == 64 && forall i :: 0 <= i < |s| ==> '0' <= s[i] <= '9' || 'a' <= s[i] <= 'f'
  }

  lemma {:induction false} Sha256TextIs(s: string)
    ensures IsSha256Text(s) <==> |s| == 64 && forall c :: c in s ==> c in "0123456789abcdef"
  {
    forall i | 0 <= i < |s|
      ensures '0' <= s[i] <= '9' || 'a' <= s[i] <= 'f' <==> s[i] in "0123456789abcdef"
    {
      HexDigit(s[i]);
    }
    if forall c :: c in s ==> c in "0123456789abcdef" {
      assert forall i :: 0 <= i < |s| ==> s[i] in s;
    }
  }

  lemma {:induction false} HexDigit(c: char)
    ensures '0' <= c <= '9' || 'a' <= c <= 'f' <==> c in "0123456789abcdef"
  {
    var digits := "0123456789abcdef";
    assert digits[0] == '0' && digits[1] == '1' && digits[2] == '2' && digits[3] == '3' && digits[4] == '4';
    assert digits[5] == '5' && digits[6] == '6' && digits[7] == '7' && digits[8] == '8' && digits[9] == '9';
    assert digits[10] == 'a' && digits[11] == 'b' && digits[12] == 'c' && digits[13] == 'd';
    assert digits[14] == 'e' && digits[15] == 'f';
  }

  predicate IsKind(kind: string) {
    kind == "database" || kind == "config" || kind == "map"
  }

  function Lower(c: char): char {
    if 'A' <= c <= 'Z' then c - 'A' + 'a' else c
  }

  /** "license" occurs in the path in lower case, upper case or a mixture. */
  predicate MentionsLicense(path: string) {
    var word := "license";
    exists k :: 0 <= k <= |path| - |word| && OccursAt(path, word, k)
  }

  predicate OccursAt(path: string, word: string, k: nat)
    requires k + |word| <= |path|
  {
    forall j :: 0 <= j < |word| ==> Lower(path[k + j]) == word[j]
  }

  predicate IsLetter(c: char, lower: char, upper: char) {
    c == lower || c == upper
  }

  /** The seven letters from k on, each in either case. */
  predicate SpellsLicense(path: string, k: nat)
    requires k + 7 <= |path|
  {
    && IsLetter(path[k], 'l', 'L') && IsLetter(path[k + 1], 'i', 'I') && IsLetter(path[k + 2], 'c', 'C')
    && IsLetter(path[k + 3], 'e', 'E') && IsLetter(path[k + 4], 'n', 'N')
    && IsLetter(path[k + 5], 's', 'S') && IsLetter(path[k + 6], 'e', 'E')
  }

  lemma {:induction false} MentionsIff(path: string)
    ensures MentionsLicense(path) <==> exists k :: 0 <= k <= |path| - 7 && SpellsLicense(path, k)
  {
    forall k | 0 <= k <= |path| - 7
      ensures OccursAt(path, "license", k) <==> SpellsLicense(path, k)
    {
      OccursLetters(path, k);
    }
  }

  lemma {:induction false} OccursLetters(path: string, k: nat)
    requires k + 7 <= |path|
    ensures OccursAt(path, "license", k) <==> SpellsLicense(path, k)
  {
    var word := "license";
    assert word[0] == 'l' && word[1] == 'i' && word[2] == 'c' && word[3] == 'e' && word[4] == 'n' && word[5] == 's'
           && word[6] == 'e';
    forall c: char, i: nat | i < 7
      ensures Lower(c) == word[i] <==> IsLetter(c, word[i], word[i] - 'a' + 'A')
    {
    }
    assert path[k + 0] == path[k];
  }

  /* ---------- Creation ---------- */

  predicate IsUsable(s: Source) {
    && SafeArchivePath(s.archivePath).Ok? && IsKind(s.kind)
    && s.data.Some? && 0 < |s.data.value| <= MAX_ENTRY_BYTES
  }

  function FileOf(lib: Library, s: Source): ManifestFile
    requires IsUsable(s)
  {
    ManifestFile(SafeArchivePath(s.archivePath).value, s.kind, |s.data.value|, lib.hash(s.data.value))
  }

  ghost predicate IsPackage(lib: Library, sources: seq<Source>, schema: nat, m: Manifest, entries: seq<Entry>) {
    && sources != [] && |m.files| == |sources| && |entries| == |sources| + 1
    && m == Manifest(MANIFEST_VERSION, schema, false, m.files)
    && entries[0] == Entry(MANIFEST_NAME, lib.encode(m))
    && (forall i :: 0 <= i < |sources| ==> IsUsable(sources[i]) && m.files[i] == FileOf(lib, sources[i]))
    && (forall i :: 0 <= i < |sources| && IsUsable(sources[i]) ==>
          entries[i + 1] == Entry(m.files[i].path, sources[i].data.value))
  }

  method CreateBackupPackage(lib: Library, sources: seq<Source>, schema: nat)
    returns (r: Result<Manifest>, entries: seq<Entry>)
    ensures r.Ok? <==> sources != [] && forall i :: 0 <= i < |sources| ==> IsUsable(sources[i])
    ensures r.Ok? ==> IsPackage(lib, sources, schema, r.value, entries)
  {
    entries := [];
    if sources == [] {
      return ValueError, [];
    }
    var files: seq<ManifestFile> := [];
    for i := 0 to |sources|
      invariant |files| == i
      invariant forall j :: 0 <= j < i ==> IsUsable(sources[j]) && files[j] == FileOf(lib, sources[j])
    {
      if !IsUsable(sources[i]) {
        return ValueError, [];
      }
      files := files + [FileOf(lib, sources[i])];
    }
    var m := Manifest(MANIFEST_VERSION, schema, false, files);
    entries := [Entry(MANIFEST_NAME, lib.encode(m))];
    for i := 0 to |sources|
      invariant |entries| == i + 1
      invariant entries[0] == Entry(MANIFEST_NAME, lib.encode(m))
      invariant forall j :: 0 <= j < i ==> entries[j + 1] == Entry(m.files[j].path, sources[j].data.value)
    {
      entries := entries + [Entry(SafeArchivePath(sources[i].archivePath).value, sources[i].data.value)];
    }
    r := Ok(m);
  }

  /* ---------- Reading an archive ---------- */

  /** Not a directory entry. */
  predicate IsFileName(name: string) {
    |name| > 0 && name[|name| - 1] != '/'
  }

  /** An entry is opened by name; the last one of that name is meant. */
  function Lookup(entries: seq<Entry>, name: string): Option<Bytes> {
    if |entries| == 0 then None
    else if entries[|entries| - 1].name == name then Some(entries[|entries| - 1].data)
    else Lookup(entries[..|entries| - 1], name)
  }

  ghost predicate HasName(entries: seq<Entry>, name: string) {
    exists i :: 0 <= i < |entries| && entries[i].name == name
  }

  lemma {:induction false} LookupFinds(entries: seq<Entry>, name: string)
    ensures Lookup(entries, name).Some? <==> HasName(entries, name)
  {
    if entries != [] {
      var n := |entries| - 1;
      LookupFinds(entries[..n], name);
      if entries[n].name != name && HasName(entries, name) {
        var i :| 0 <= i < |entries| && entries[i].name == name;
        assert entries[..n][i].name == name;
      }
    }
  }

  /** Of the entries with a name the last one is found. */
  lemma {:induction false} LookupLast(entries: seq<Entry>, k: nat)
    requires k < |entries|
    requires forall i :: k < i < |entries| ==> entries[i].name != entries[k].name
    ensures Lookup(entries, entries[k].name) == Some(entries[k].data)
  {
    var n := |entries| - 1;
    if k < n {
      assert entries[n].name != entries[k].name;
      assert entries[..n][k] == entries[k];
      LookupLast(entries[..n], k);
    }
  }

  function FileCount(entries: seq<Entry>): nat {
    if |entries| == 0 then 0
    else FileCount(entries[..|entries| - 1]) + if IsFileName(entries[|entries| - 1].name) then 1 else 0
  }

  function SizeOf(e: Entry): nat {
    if IsFileName(e.name) then |e.data| else 0
  }

  /** The size of the first k entries, directories aside. */
  function TotalSize(entries: seq<Entry>, k: nat): nat
    requires k <= |entries|
  {
    if k == 0 then 0 else TotalSize(entries, k - 1) + SizeOf(entries[k - 1])
  }

  lemma {:induction false} TotalSizeGrows(entries: seq<Entry>, k: nat, n: nat)
    requires k <= n <= |entries|
    ensures TotalSize(entries, k) <= TotalSize(entries, n)
  {
    if k < n {
      TotalSizeGrows(entries, k, n - 1);
    }
  }

  predicate InfoAccepted(e: Entry) {
    IsFileName(e.name) ==> (e.name == MANIFEST_NAME || SafeArchivePath(e.name).Ok?) && |e.data| <= MAX_ENTRY_BYTES
  }

  ghost predicate AllInfosAccepted(entries: seq<Entry>, k: nat)
    requires k <= |entries|
  {
    forall i {:trigger InfoAccepted(entries[i])} :: 0 <= i < k ==> InfoAccepted(entries[i])
  }

  ghost predicate InfosAccepted(entries: seq<Entry>) {
    TotalSize(entries, |entries|) <= MAX_BACKUP_BYTES && AllInfosAccepted(entries, |entries|)
  }

  /** After k entries the loop goes on iff they are accepted and their sum keeps the limit. */
  ghost predicate FineSoFar(entries: seq<Entry>, k: nat)
    requires k <= |entries|
  {
    TotalSize(entries, k) <= MAX_BACKUP_BYTES && AllInfosAccepted(entries, k)
  }

  lemma {:induction false} FineNext(entries: seq<Entry>, k: nat)
    requires k < |entries| && FineSoFar(entries, k)
    ensures FineSoFar(entries, k + 1)
            <==> InfoAccepted(entries[k]) && TotalSize(entries, k) + SizeOf(entries[k]) <= MAX_BACKUP_BYTES
    ensures InfosAccepted(entries) ==> FineSoFar(entries, k + 1)
  {
    TotalSizeGrows(entries, k + 1, |entries|);
  }

  /** The body of the loop for one entry. */
  method ValidateInfo(info: Entry, total: nat) returns (ok: bool, sum: nat)
    ensures sum == total + SizeOf(info)
    ensures ok <==> InfoAccepted(info) && sum <= MAX_BACKUP_BYTES
  {
    sum := total + SizeOf(info);
    ok := InfoAccepted(info) && sum <= MAX_BACKUP_BYTES;
  }

  method ValidateZipInfos(entries: seq<Entry>) returns (ok: bool)
    ensures ok <==> InfosAccepted(entries)
  {
    var total := 0;
    for i := 0 to |entries|
      invariant total == TotalSize(entries, i) && FineSoFar(entries, i)
    {
      FineNext(entries, i);
      ok, total := ValidateInfo(entries[i], total);
      if !ok {
        return false;
      }
    }
    return true;
  }

  /** One file item of the manifest text. */
  function ParsedFile(raw: ManifestFile): Option<ManifestFile> {
    var path := SafeArchivePath(raw.path);
    if path.Ok? && IsKind(raw.kind) && 0 < raw.sizeBytes <= MAX_ENTRY_BYTES && IsSha256Text(raw.sha256)
    then Some(raw.(path := path.value))
    else None
  }

  /** Which file items of a manifest text are taken. */
  lemma {:induction false} FileIsTakenIff(raw: ManifestFile)
    ensures ParsedFile(raw).Some?
            <==> && SafeArchivePath(raw.path).Ok? && raw.kind in {"database", "config", "map"}
                 && 1 <= raw.sizeBytes <= 0x2000_0000
                 && |raw.sha256| == 64 && forall c :: c in raw.sha256 ==> c in "0123456789abcdef"
    ensures ParsedFile(raw).Some? ==>
              ParsedFile(raw).value == ManifestFile(SafeArchivePath(raw.path).value, raw.kind, raw.sizeBytes,
                raw.sha256)
  {
    Sha256TextIs(raw.sha256);
  }

  ghost function ParsedFiles(raw: seq<ManifestFile>): (parsed: seq<Option<ManifestFile>>)
    ensures |parsed| == |raw|
    ensures forall i :: 0 <= i < |raw| ==> parsed[i] == ParsedFile(raw[i])
  {
    seq(|raw|, i requires 0 <= i < |raw| => ParsedFile(raw[i]))
  }

  /** m is what the manifest text says, with every path made safe. */
  ghost predicate IsParsed(lib: Library, data: Bytes, m: Manifest) {
    && |data| <= MAX_MANIFEST_BYTES && lib.decode(data).Some?
    && var raw := lib.decode(data).value;
       && raw.files != [] && |m.files| == |raw.files| && m == raw.(files := m.files)
       && (forall i :: 0 <= i < |raw.files| ==> ParsedFiles(raw.files)[i] == Some(m.files[i]))
  }

  method ParseManifest(lib: Library, data: Bytes) returns (r: Result<Manifest>)
    ensures r.Ok? ==> IsParsed(lib, data, r.value)
    ensures r.ValueError? ==> forall m :: !IsParsed(lib, data, m)
  {
    if |data| > MAX_MANIFEST_BYTES || lib.decode(data).None? {
      return ValueError;
    }
    var raw := lib.decode(data).value;
    if raw.files == [] {
      return ValueError;
    }
    var files: seq<ManifestFile> := [];
    ghost var parsed := ParsedFiles(raw.files);
    for i := 0 to |raw.files|
      invariant |files| == i
      invariant forall j :: 0 <= j < i ==> parsed[j] == Some(files[j])
    {
      var item := ParsedFile(raw.files[i]);
      assert parsed[i] == item;
      if item.None? {
        return ValueError;
      }
      files := files + [item.value];
    }
    return Ok(raw.(files := files));
  }

  /* ---------- Validation ---------- */

  ghost predicate DistinctPaths(files: seq<ManifestFile>) {
    forall i, j :: 0 <= i < j < |files| ==> files[i].path != files[j].path
  }

  predicate IsDatabaseItem(f: ManifestFile) {
    f.kind == "database" && f.path == DATABASE_PATH
  }

  ghost predicate ManifestAccepted(m: Manifest, currentSchema: nat) {
    && m.version == MANIFEST_VERSION && m.schemaVersion <= currentSchema && !m.includeLicense
    && DistinctPaths(m.files)
    && (forall i :: 0 <= i < |m.files| ==> !MentionsLicense(m.files[i].path))
    && (exists i :: 0 <= i < |m.files| && IsDatabaseItem(m.files[i]))
  }

  /** The directory check cannot fail on paths that the parser has made safe. */
  method ValidateManifest(m: Manifest, currentSchema: nat) returns (ok: bool)
    requires forall i :: 0 <= i < |m.files| ==> IsSafe(Split(m.files[i].path))
    ensures ok <==> ManifestAccepted(m, currentSchema)
  {
    if m.version != MANIFEST_VERSION || m.schemaVersion > currentSchema || m.includeLicense {
      return false;
    }
    var seen: set<string> := {};
    for i := 0 to |m.files|
      invariant forall j :: 0 <= j < i ==> m.files[j].path in seen && !MentionsLicense(m.files[j].path)
      invariant forall p :: p in seen ==> exists j :: 0 <= j < i && m.files[j].path == p
      invariant forall a, b :: 0 <= a < b < i ==> m.files[a].path != m.files[b].path
    {
      var path := m.files[i].path;
      if path in seen {
        return false;
      }
      seen := seen + {path};
      ComponentsKeep(Split(path));
      if !IsAllowedTop(Parts(path)[0]) {
        return false;
      }
      if MentionsLicense(path) {
        return false;
      }
    }
    return exists i :: 0 <= i < |m.files| && IsDatabaseItem(m.files[i]);
  }

  function FileNames(entries: seq<Entry>): set<string> {
    set i | 0 <= i < |entries| && IsFileName(entries[i].name) :: entries[i].name
  }

  function Paths(files: seq<ManifestFile>): set<string> {
    set i | 0 <= i < |files| :: files[i].path
  }

  /** read(MAX_ENTRY_BYTES + 1) */
  function Truncated(data: Bytes): Bytes {
    if |data| <= MAX_ENTRY_BYTES then data else data[..MAX_ENTRY_BYTES + 1]
  }

  lemma {:induction false} TruncatedIs(data: Bytes)
    ensures Truncated(data) <= data
    ensures |Truncated(data)| == if |data| <= 0x2000_0000 then |data| else 0x2000_0001
  {
  }

  /** The entry opened under the name has the size and the digest that the manifest states. */
  ghost predicate ContentMatches(lib: Library, entries: seq<Entry>, name: string, f: ManifestFile) {
    && Lookup(entries, name).Some?
    && var data := Truncated(Lookup(entries, name).value);
       |data| == f.sizeBytes && lib.hash(data) == f.sha256
  }

  ghost predicate Matches(lib: Library, entries: seq<Entry>, m: Manifest) {
    && FileNames(entries) == Paths(m.files) + {MANIFEST_NAME}
    && (forall i :: 0 <= i < |m.files| ==> ContentMatches(lib, entries, m.files[i].path, m.files[i]))
    && (forall i :: 0 <= i < |m.files| ==> m.files[i].sizeBytes <= MAX_ENTRY_BYTES)
  }

  method ValidateZipManifestMatch(lib: Library, entries: seq<Entry>, m: Manifest) returns (ok: bool)
    requires DistinctPaths(m.files)
    ensures ok <==> Matches(lib, entries, m)
  {
    if FileNames(entries) != Paths(m.files) + {MANIFEST_NAME} {
      return false;
    }
    for k := 0 to |m.files|
      invariant forall i :: 0 <= i < k ==> ContentMatches(lib, entries, m.files[i].path, m.files[i])
      invariant forall i :: 0 <= i < k ==> m.files[i].sizeBytes <= MAX_ENTRY_BYTES
    {
      var item := m.files[k];
      assert item.path in FileNames(entries);
      LookupFinds(entries, item.path);
      var data := Truncated(Lookup(entries, item.path).value);
      if |data| != item.sizeBytes || |data| > MAX_ENTRY_BYTES || lib.hash(data) != item.sha256 {
        return false;
      }
    }
    return true;
  }

  /** Validation of an archive of the given size on disk accepts it, with manifest m. */
  ghost predicate Accepted(lib: Library, entries: seq<Entry>, size: nat, currentSchema: nat, m: Manifest) {
    && 0 < size <= MAX_BACKUP_BYTES
    && Lookup(entries, MANIFEST_NAME).Some?
    && FileCount(entries) <= MAX_FILE_COUNT + 1
    && InfosAccepted(entries)
    && IsParsed(lib, Lookup(entries, MANIFEST_NAME).value, m)
    && ManifestAccepted(m, currentSchema)
    && Matches(lib, entries, m)
  }

  lemma {:induction false} ParsedPathsAreSafe(lib: Library, data: Bytes, m: Manifest)
    requires IsParsed(lib, data, m)
    ensures forall i :: 0 <= i < |m.files| ==> IsSafe(Split(m.files[i].path)) && |m.files[i].path| <= MAX_PATH
  {
    var raw := lib.decode(data).value;
    forall i | 0 <= i < |m.files|
      ensures IsSafe(Split(m.files[i].path)) && |m.files[i].path| <= MAX_PATH
    {
      assert ParsedFiles(raw.files)[i] == Some(m.files[i]);
      AcceptedIsSafe(raw.files[i].path);
    }
  }

  lemma {:induction false} ParsedIsUnique(lib: Library, data: Bytes, a: Manifest, b: Manifest)
    requires IsParsed(lib, data, a) && IsParsed(lib, data, b)
    ensures a == b
  {
    var parsed := ParsedFiles(lib.decode(data).value.files);
    assert forall i :: 0 <= i < |parsed| ==> parsed[i] == Some(a.files[i]) && parsed[i] == Some(b.files[i]);
    assert a.files == b.files;
  }

  method ValidateBackupPackage(lib: Library, entries: seq<Entry>, size: nat, currentSchema: nat)
    returns (r: Result<Manifest>)
    ensures r.Ok? ==> Accepted(lib, entries, size, currentSchema, r.value)
    ensures r.ValueError? ==> forall m :: !Accepted(lib, entries, size, currentSchema, m)
  {
    if !(0 < size <= MAX_BACKUP_BYTES) {
      return ValueError;
    }
    var manifestData := Lookup(entries, MANIFEST_NAME);
    if manifestData.None? || FileCount(entries) > MAX_FILE_COUNT + 1 {
      return ValueError;
    }
    var infosOk := ValidateZipInfos(entries);
    if !infosOk {
      return ValueError;
    }
    var parsed := ParseManifest(lib, manifestData.value);
    if parsed.ValueError? {
      return ValueError;
    }
    var m := parsed.value;
    ParsedPathsAreSafe(lib, manifestData.value, m);
    forall other | IsParsed(lib, manifestData.value, other)
      ensures other == m
    {
      ParsedIsUnique(lib, manifestData.value, other, m);
    }
    var manifestOk := ValidateManifest(m, currentSchema);
    if !manifestOk {
      return ValueError;
    }
    var matches := ValidateZipManifestMatch(lib, entries, m);
    if !matches {
      return ValueError;
    }
    return Ok(m);
  }

  /** What validation guarantees of an archive: the limits on its sizes and its number of files, and
      that every file in it but the manifest has an accepted path and is the one the manifest lists. */
  lemma {:induction false} AcceptedGuarantees(
    lib: Library, entries: seq<Entry>, size: nat, currentSchema: nat, m: Manifest, k: nat)
    requires Accepted(lib, entries, size, currentSchema, m) && k < |entries|
    ensures 1 <= size <= 0x4000_0000 && FileCount(entries) <= 10001 && TotalSize(entries, |entries|) <= 0x4000_0000
    ensures m.version == 1 && m.schemaVersion <= currentSchema && !m.includeLicense
    ensures exists i :: 0 <= i < |m.files| && m.files[i].kind == "database" && m.files[i].path == "db/app.sqlite3"
    ensures var e := entries[k];
            e.name != "" && e.name[|e.name| - 1] != '/' ==>
              && |e.data| <= 0x2000_0000
              && (e.name == "manifest.json"
                  || (SafeArchivePath(e.name).Ok? && exists i :: 0 <= i < |m.files| && m.files[i].path == e.name))
  {
    assert InfoAccepted(entries[k]);
    var d :| 0 <= d < |m.files| && IsDatabaseItem(m.files[d]);
    assert m.files[d].kind == "database" && m.files[d].path == "db/app.sqlite3";
    if IsFileName(entries[k].name) {
      FileIsListed(entries, m.files, k);
    }
  }

  lemma {:induction false} FileIsListed(entries: seq<Entry>, files: seq<ManifestFile>, k: nat)
    requires k < |entries| && IsFileName(entries[k].name) && FileNames(entries) == Paths(files) + {MANIFEST_NAME}
    ensures entries[k].name == MANIFEST_NAME || exists i :: 0 <= i < |files| && files[i].path == entries[k].name
  {
    assert entries[k].name in FileNames(entries);
  }

  /** A file entry counts once, and with its size; directories count for nothing. */
  lemma {:induction false} Counts(entries: seq<Entry>, e: Entry)
    ensures var isFile := e.name != "" && e.name[|e.name| - 1] != '/';
            && FileCount(entries + [e]) == FileCount(entries) + (if isFile then 1 else 0)
            && TotalSize(entries + [e], |entries| + 1) == TotalSize(entries,
                 |entries|) + (if isFile then |e.data| else 0)
  {
    assert (entries + [e])[..|entries|] == entries;
    SameTotal(entries, entries + [e], |entries|);
  }

  lemma {:induction false} SameTotal(a: seq<Entry>, b: seq<Entry>, k: nat)
    requires k <= |a| && a <= b
    ensures TotalSize(a, k) == TotalSize(b, k)
  {
    if k > 0 {
      SameTotal(a, b, k - 1);
    }
  }

  /* ---------- Extraction ---------- */

  /** A file to be written: its components under the destination, what is opened for it, and
      whether that is what the manifest states. */
  datatype Place = Place(item: seq<string>, data: Bytes, matches: bool)

  type Tree = map<seq<string>, Bytes>

  predicate IsInside(inner: seq<string>, outer: seq<string>) {
    outer < inner
  }

  /** A file lies where a directory is needed, or the other way round. */
  predicate Blocked(tree: Tree, target: seq<string>) {
    exists q :: q in tree && (IsInside(q, target) || IsInside(target, q))
  }

  /** No file would have to be another one's directory. */
  ghost predicate NoneInside(places: seq<Place>) {
    forall i, j :: 0 <= i < |places| && 0 <= j < |places| ==> !IsInside(places[i].item, places[j].item)
  }

  ghost predicate IsPlaced(place: Place, root: seq<string>, tree: Tree) {
    root + place.item in tree && tree[root + place.item] == place.data
  }

  ghost predicate IsOneOf(places: seq<Place>, root: seq<string>, q: seq<string>) {
    exists i :: 0 <= i < |places| && q == root + places[i].item
  }

  /** The tree holds the places and nothing else. */
  ghost predicate IsExtraction(places: seq<Place>, root: seq<string>, tree: Tree) {
    && (forall i :: 0 <= i < |places| ==> IsPlaced(places[i], root, tree))
    && (forall q :: q in tree ==> IsOneOf(places, root, q))
  }

  /** The same file is always opened for the same place. */
  ghost predicate Consistent(places: seq<Place>) {
    forall i, j :: 0 <= i < |places| && 0 <= j < |places| && places[i].item == places[j].item ==>
      places[i].data == places[j].data
  }

  lemma {:induction false} InsideUnderRoot(root: seq<string>, a: seq<string>, b: seq<string>)
    ensures IsInside(root + a, root + b) <==> IsInside(a, b)
    ensures root + a == root + b <==> a == b
  {
    var n := |root|;
    assert (root + a)[n..] == a && (root + b)[n..] == b;
    if IsInside(a, b) {
      assert (root + a)[..n + |b|] == root + a[..|b|];
    }
    if IsInside(root + a, root + b) {
      assert (root + a)[n..][..|b|] == (root + a)[..n + |b|][n..] == (root + b)[n..] == b;
    }
  }

  /** The next place can be written iff it does not nest with an earlier one. */
  lemma {:induction false} BlockedIff(places: seq<Place>, next: Place, root: seq<string>, tree: Tree)
    requires IsExtraction(places, root, tree) && NoneInside(places)
    ensures Blocked(tree, root + next.item) <==> !NoneInside(places + [next])
  {
    var target, all := root + next.item, places + [next];
    if Blocked(tree, target) {
      var q :| q in tree && (IsInside(q, target) || IsInside(target, q));
      assert IsOneOf(places, root, q);
      var i :| 0 <= i < |places| && q == root + places[i].item;
      InsideUnderRoot(root, places[i].item, next.item);
      InsideUnderRoot(root, next.item, places[i].item);
      assert all[i] == places[i] && all[|places|] == next;
    } else {
      forall i, j | 0 <= i < |all| && 0 <= j < |all|
        ensures !IsInside(all[i].item, all[j].item)
      {
        InsideUnderRoot(root, all[i].item, all[j].item);
        assert i < |places| ==> IsPlaced(places[i], root, tree);
        assert j < |places| ==> IsPlaced(places[j], root, tree);
      }
    }
  }

  lemma {:induction false} NextIsPlaced(places: seq<Place>, next: Place, root: seq<string>, tree: Tree)
    requires IsExtraction(places, root, tree)
    requires forall i :: 0 <= i < |places| && places[i].item == next.item ==> places[i].data == next.data
    ensures IsExtraction(places + [next], root, tree[root + next.item := next.data])
  {
    var all, now := places + [next], tree[root + next.item := next.data];
    forall i | 0 <= i < |all|
      ensures IsPlaced(all[i], root, now)
    {
      if i < |places| {
        assert IsPlaced(places[i], root, tree);
        InsideUnderRoot(root, places[i].item, next.item);
      }
    }
    forall q | q in now
      ensures IsOneOf(all, root, q)
    {
      if q == root + next.item {
        assert all[|places|] == next;
      } else {
        assert IsOneOf(places, root, q);
        var i :| 0 <= i < |places| && q == root + places[i].item;
        assert all[i] == places[i];
      }
    }
  }

  /** The path is made safe once more before it is opened. */
  ghost function PlaceOf(lib: Library, entries: seq<Entry>, f: ManifestFile): Place {
    var safe := SafeArchivePath(f.path);
    var path := if safe.Ok? then safe.value else "";
    Place(Split(path), Opened(entries, path), safe.Ok? && ContentMatches(lib, entries, path, f))
  }

  ghost function Opened(entries: seq<Entry>, path: string): Bytes {
    Truncated(Lookup(entries, path).GetOr([]))
  }

  ghost function PlacesOf(lib: Library, entries: seq<Entry>, files: seq<ManifestFile>): (places: seq<Place>)
    ensures |places| == |files|
    ensures forall i :: 0 <= i < |files| ==> places[i] == PlaceOf(lib, entries, files[i])
  {
    seq(|files|, i requires 0 <= i < |files| => PlaceOf(lib, entries, files[i]))
  }

  /** Every file can be opened with the stated content, and none is another one's directory. */
  ghost predicate Extracts(places: seq<Place>) {
    (forall i :: 0 <= i < |places| ==> places[i].matches) && NoneInside(places)
  }

  /** The body of the loop: writes one item, or fails. */
  method ExtractItem(lib: Library, entries: seq<Entry>, f: ManifestFile, root: seq<string>, tree: Tree)
    returns (r: Result<Tree>)
    requires Resolve(root) == root
    ensures var place := PlaceOf(lib, entries, f);
            && (r.Ok? <==> place.matches && !Blocked(tree, root + place.item))
            && (r.Ok? ==> r.value == tree[root + place.item := place.data])
  {
    var archivePath := SafeArchivePath(f.path);
    if archivePath.ValueError? {
      return ValueError;
    }
    var target := Resolve(root + Split(archivePath.value));
    AcceptedStaysUnderRoot(root, f.path);
    var data := Lookup(entries, archivePath.value);
    if !(root <= target) || data.None? || Blocked(tree, target) {
      return ValueError;
    }
    var written := Truncated(data.value);
    if |written| != f.sizeBytes || lib.hash(written) != f.sha256 {
      return ValueError;
    }
    return Ok(tree[target := written]);
  }

  /** The loop of extract_validated_package over an empty destination. */
  method ExtractPackage(lib: Library, entries: seq<Entry>, files: seq<ManifestFile>, root: seq<string>)
    returns (r: Result<Tree>)
    requires Resolve(root) == root
    ensures r.Ok? <==> Extracts(PlacesOf(lib, entries, files))
    ensures r.Ok? ==> IsExtraction(PlacesOf(lib, entries, files), root, r.value)
  {
    var tree: Tree := map[];
    ghost var places := PlacesOf(lib, entries, files);
    PlacesAgree(lib, entries, files);
    for k := 0 to |files|
      invariant Extracts(places[..k]) && IsExtraction(places[..k], root, tree)
    {
      NextPlace(places, k, root, tree);
      var next := ExtractItem(lib, entries, files[k], root, tree);
      if next.ValueError? {
        return ValueError;
      }
      tree := next.value;
    }
    assert places[..|files|] == places;
    return Ok(tree);
  }

  lemma {:induction false} NextPlace(places: seq<Place>, k: nat, root: seq<string>, tree: Tree)
    requires k < |places| && Consistent(places)
    requires Extracts(places[..k]) && IsExtraction(places[..k], root, tree)
    ensures var place := places[k];
            && IsExtraction(places[..k + 1], root, tree[root + place.item := place.data])
            && (place.matches && !Blocked(tree, root + place.item) <==> Extracts(places[..k + 1]))
            && (Extracts(places) ==> Extracts(places[..k + 1]))
  {
    assert places[..k + 1] == places[..k] + [places[k]];
    BlockedIff(places[..k], places[k], root, tree);
    NextIsPlaced(places[..k], places[k], root, tree);
  }

  lemma {:induction false} PlacesAgree(lib: Library, entries: seq<Entry>, files: seq<ManifestFile>)
    ensures Consistent(PlacesOf(lib, entries, files))
  {
    var places := PlacesOf(lib, entries, files);
    forall i, j | 0 <= i < |places| && 0 <= j < |places| && places[i].item == places[j].item
      ensures places[i].data == places[j].data
    {
      OnePathOnePlace(lib, entries, files[i], files[j]);
    }
  }

  lemma {:induction false} OnePathOnePlace(lib: Library, entries: seq<Entry>, f: ManifestFile, g: ManifestFile)
    requires PlaceOf(lib, entries, f).item == PlaceOf(lib, entries, g).item
    ensures PlaceOf(lib, entries, f).data == PlaceOf(lib, entries, g).data
  {
    var a, b := SafeArchivePath(f.path), SafeArchivePath(g.path);
    JoinSplit(if a.Ok? then a.value else "");
    JoinSplit(if b.Ok? then b.value else "");
  }
}
