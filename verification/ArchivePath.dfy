/** The paths that a backup archive may hold: what _safe_archive_path accepts and returns. */
module ArchivePath {
  import opened Models

  const MAX_PATH := 260

  predicate IsAllowedTop(name: string) {
    name == "db" || name == "config" || name == "maps"
  }

  /** The characters that str.strip removes. */
  predicate IsSpace(c: char) {
    || '\U{0009}' <= c <= '\U{000D}' || '\U{001C}' <= c <= '\U{0020}'
    || c == '\U{0085}' || c == '\U{00A0}' || c == '\U{1680}'
    || '\U{2000}' <= c <= '\U{200A}' || c == '\U{2028}' || c == '\U{2029}'
    || c == '\U{202F}' || c == '\U{205F}' || c == '\U{3000}'
  }

  /** These characters, one by one. */
  lemma {:induction false} SpacesAre(c: char)
    ensures IsSpace(c)
            <==> c in {'\U{0009}', '\U{000A}', '\U{000B}', '\U{000C}', '\U{000D}', '\U{001C}', '\U{001D}', '\U{001E}',
                       '\U{001F}', '\U{0020}', '\U{0085}', '\U{00A0}', '\U{1680}', '\U{2000}', '\U{2001}', '\U{2002}',
                       '\U{2003}', '\U{2004}', '\U{2005}', '\U{2006}', '\U{2007}', '\U{2008}', '\U{2009}', '\U{200A}',
                       '\U{2028}', '\U{2029}', '\U{202F}', '\U{205F}', '\U{3000}'}
  {
  }

  function StripLeft(s: string): string {
    if |s| > 0 && IsSpace(s[0]) then StripLeft(s[1..]) else s
  }

  function StripRight(s: string): string {
    if |s| > 0 && IsSpace(s[|s| - 1]) then StripRight(s[..|s| - 1]) else s
  }

  function Strip(s: string): string {
    StripRight(StripLeft(s))
  }

  function ForwardSlashes(s: string): string {
    if |s| == 0 then "" else [if s[0] == '\\' then '/' else s[0]] + ForwardSlashes(s[1..])
  }

  lemma {:induction false} ForwardSlashesAt(s: string, i: nat)
    requires i < |s|
    ensures |ForwardSlashes(s)| == |s|
    ensures ForwardSlashes(s)[i] == if s[i] == '\\' then '/' else s[i]
  {
    ForwardSlashesAre(s);
    if i > 0 {
      ForwardSlashesAt(s[1..], i - 1);
    }
  }

  lemma {:induction false} ForwardSlashesAre(s: string)
    ensures |ForwardSlashes(s)| == |s| && '\\' !in ForwardSlashes(s)
    ensures '\\' !in s ==> ForwardSlashes(s) == s
  {
    if s != "" {
      ForwardSlashesAre(s[1..]);
    }
  }

  /** The pieces between slashes. */
  function Split(s: string): (parts: seq<string>)
    ensures |parts| > 0
  {
    if |s| == 0 then [""]
    else if s[0] == '/' then [""] + Split(s[1..])
    else [[s[0]] + Split(s[1..])[0]] + Split(s[1..])[1..]
  }

  function Join(parts: seq<string>): string {
    if |parts| == 0 then ""
    else if |parts| == 1 then parts[0]
    else parts[0] + "/" + Join(parts[1..])
  }

  /** A path library ignores empty pieces and single dots. */
  function Components(pieces: seq<string>): seq<string> {
    if |pieces| == 0 then []
    else if |pieces[0]| == 0 || pieces[0] == "." then Components(pieces[1..])
    else [pieces[0]] + Components(pieces[1..])
  }

  function Parts(path: string): seq<string> {
    Components(Split(path))
  }

  function SafeArchivePath(value: string): Result<string> {
    if |Strip(value)| == 0 then ValueError
    else
      var normalized := Strip(ForwardSlashes(value));
      var parts := Parts(normalized);
      if |normalized| > 0 && normalized[0] == '/' then ValueError
      else if ".." in parts then ValueError
      else if |parts| < 2 || !IsAllowedTop(parts[0]) then ValueError
      else if |normalized| > MAX_PATH then ValueError
      else Ok(Join(parts))
  }

  /* ---------- Splitting and joining ---------- */

  predicate IsComponent(name: string) {
    name != "" && name != "." && name != ".." && '/' !in name && '\\' !in name
  }

  /** Two or more proper names, the first of them one of the three directories. */
  ghost predicate IsSafe(parts: seq<string>) {
    |parts| >= 2 && IsAllowedTop(parts[0]) && forall i :: 0 <= i < |parts| ==> IsComponent(parts[i])
  }

  lemma {:induction false} SplitFirst(a: string, rest: string)
    requires '/' !in a
    ensures Split(a + "/" + rest) == [a] + Split(rest)
    ensures Split(a) == [a]
  {
    var s := a + "/" + rest;
    if a == "" {
      assert s[1..] == rest;
    } else {
      SplitFirst(a[1..], rest);
      assert s[1..] == a[1..] + "/" + rest;
      assert a == [a[0]] + a[1..];
    }
  }

  lemma {:induction false} SplitJoin(parts: seq<string>)
    requires parts != [] && forall i :: 0 <= i < |parts| ==> '/' !in parts[i]
    ensures Split(Join(parts)) == parts
  {
    if |parts| == 1 {
      SplitFirst(parts[0], "");
    } else {
      SplitFirst(parts[0], Join(parts[1..]));
      SplitJoin(parts[1..]);
    }
  }

  /** Distinct component lists make distinct paths. */
  lemma {:induction false} JoinInjective(a: seq<string>, b: seq<string>)
    requires IsSafe(a) && IsSafe(b) && Join(a) == Join(b)
    ensures a == b
  {
    SplitJoin(a);
    SplitJoin(b);
  }

  lemma {:induction false} JoinSplit(s: string)
    ensures Join(Split(s)) == s
  {
    if s != "" {
      JoinSplit(s[1..]);
      var rest := Split(s[1..]);
      if s[0] == '/' {
        assert Split(s)[1..] == rest;
      } else {
        assert Split(s)[1..] == rest[1..];
      }
    }
  }

  lemma {:induction false} SplitPieces(s: string)
    ensures forall i :: 0 <= i < |Split(s)| ==> '/' !in Split(s)[i]
    ensures '\\' !in s ==> forall i :: 0 <= i < |Split(s)| ==> '\\' !in Split(s)[i]
  {
    if s != "" {
      SplitPieces(s[1..]);
    }
  }

  lemma {:induction false} ComponentsAre(pieces: seq<string>)
    requires forall i :: 0 <= i < |pieces| ==> '/' !in pieces[i] && '\\' !in pieces[i]
    requires ".." !in Components(pieces)
    ensures forall i :: 0 <= i < |Components(pieces)| ==> IsComponent(Components(pieces)[i])
  {
    if pieces != [] {
      var rest := pieces[1..];
      assert Components(rest) == Components(pieces) || Components(pieces) == [pieces[0]] + Components(rest);
      ComponentsAre(rest);
      if !(pieces[0] == "" || pieces[0] == ".") {
        assert Components(pieces)[0] == pieces[0];
      }
    }
  }

  lemma {:induction false} ComponentsKeep(pieces: seq<string>)
    requires forall i :: 0 <= i < |pieces| ==> IsComponent(pieces[i])
    ensures Components(pieces) == pieces
  {
    if pieces != [] {
      ComponentsKeep(pieces[1..]);
    }
  }

  /** The length of the joined pieces, with a slash after each. */
  function Extent(pieces: seq<string>): nat {
    if |pieces| == 0 then 0 else |pieces[0]| + 1 + Extent(pieces[1..])
  }

  lemma {:induction false} JoinLength(parts: seq<string>)
    requires parts != []
    ensures |Join(parts)| + 1 == Extent(parts)
  {
    if |parts| > 1 {
      JoinLength(parts[1..]);
    }
  }

  lemma {:induction false} ComponentsShrink(pieces: seq<string>)
    ensures Extent(Components(pieces)) <= Extent(pieces)
  {
    if pieces != [] {
      ComponentsShrink(pieces[1..]);
    }
  }

  lemma {:induction false} PartsShrink(s: string)
    requires Parts(s) != []
    ensures |Join(Parts(s))| <= |s|
  {
    JoinSplit(s);
    JoinLength(Split(s));
    ComponentsShrink(Split(s));
    JoinLength(Parts(s));
  }

  /* ---------- Stripping ---------- */

  lemma {:induction false} StripRightIs(s: string)
    ensures StripRight(s) <= s
    ensures StripRight(s) == s <==> s == "" || !IsSpace(s[|s| - 1])
  {
    if s != "" && IsSpace(s[|s| - 1]) {
      StripRightIs(s[..|s| - 1]);
    }
  }

  lemma {:induction false} StripLeftIs(s: string)
    ensures |StripLeft(s)| <= |s| && forall c :: c in StripLeft(s) ==> c in s
    ensures s != "" && !IsSpace(s[0]) ==> StripLeft(s) == s
  {
    if s != "" && IsSpace(s[0]) {
      StripLeftIs(s[1..]);
    }
  }

  predicate AllSpaces(s: string) {
    forall i :: 0 <= i < |s| ==> IsSpace(s[i])
  }

  lemma {:induction false} StripLeftDropsSpaces(s: string) returns (dropped: string)
    ensures s == dropped + StripLeft(s) && AllSpaces(dropped)
    ensures StripLeft(s) != "" ==> !IsSpace(StripLeft(s)[0])
  {
    dropped := "";
    if s != "" && IsSpace(s[0]) {
      var more := StripLeftDropsSpaces(s[1..]);
      dropped := [s[0]] + more;
      assert s == [s[0]] + s[1..];
    }
  }

  lemma {:induction false} StripRightDropsSpaces(s: string) returns (dropped: string)
    ensures s == StripRight(s) + dropped && AllSpaces(dropped)
    ensures StripRight(s) != "" ==> !IsSpace(StripRight(s)[|StripRight(s)| - 1])
  {
    dropped := "";
    if s != "" && IsSpace(s[|s| - 1]) {
      var more := StripRightDropsSpaces(s[..|s| - 1]);
      dropped := more + [s[|s| - 1]];
      assert s == s[..|s| - 1] + [s[|s| - 1]];
    }
  }

  /** Stripping takes white space away at both ends, all of it, and nothing else. */
  lemma {:induction false} StripIs(s: string) returns (left: string, right: string)
    ensures s == left + Strip(s) + right && AllSpaces(left) && AllSpaces(right)
    ensures Strip(s) != "" ==> !IsSpace(Strip(s)[0]) && !IsSpace(Strip(s)[|Strip(s)| - 1])
  {
    left := StripLeftDropsSpaces(s);
    right := StripRightDropsSpaces(StripLeft(s));
    assert Strip(s) != "" ==> StripLeft(s)[0] == Strip(s)[0];
  }

  /* ---------- What is accepted ---------- */

  /** With ComponentsOfOne, what the components of any pieces are. */
  lemma {:induction false} ComponentsAppend(a: seq<string>, b: seq<string>)
    ensures Components(a + b) == Components(a) + Components(b)
  {
    if a == [] {
      assert a + b == b;
    } else {
      assert (a + b)[1..] == a[1..] + b;
      ComponentsAppend(a[1..], b);
    }
  }

  lemma {:induction false} ComponentsOfOne(piece: string)
    ensures Components([piece]) == if piece == "" || piece == "." then [] else [piece]
  {
    assert [piece][1..] == [] && Components([]) == [];
  }

  lemma {:induction false} ComponentsContain(pieces: seq<string>, x: string)
    ensures x in Components(pieces) <==> x in pieces && x != "" && x != "."
  {
    if pieces != [] {
      ComponentsContain(pieces[1..], x);
      assert x in pieces <==> x == pieces[0] || x in pieces[1..];
    }
  }

  lemma {:induction false} StripBlankIff(s: string)
    ensures Strip(s) == "" <==> AllSpaces(s)
  {
    var left, right := StripIs(s);
    if Strip(s) != "" {
      assert s[|left|] == Strip(s)[0];
    }
  }

  lemma {:induction false} SlashesStayVisible(s: string)
    ensures AllSpaces(ForwardSlashes(s)) <==> AllSpaces(s)
  {
    var t := ForwardSlashes(s);
    ForwardSlashesAre(s);
    forall i | 0 <= i < |s|
      ensures IsSpace(t[i]) <==> IsSpace(s[i])
    {
      ForwardSlashesAt(s, i);
    }
  }

  /** Which values are accepted: with forward slashes and without white space around them they are
      not absolute, have no piece "..", have at least two names of which the first is one of the three
      directories, and at most 260 characters. What comes out is these names joined. */
  lemma {:induction false} AcceptedIff(value: string)
    ensures var s := Strip(ForwardSlashes(value));
            && (SafeArchivePath(value).Ok?
                <==> && s != "" && s[0] != '/' && ".." !in Split(s) && |s| <= 260
                     && |Components(Split(s))| >= 2 && Components(Split(s))[0] in {"db", "config", "maps"})
            && (SafeArchivePath(value).Ok? ==> SafeArchivePath(value) == Ok(Join(Components(Split(s)))))
  {
    var s := Strip(ForwardSlashes(value));
    StripBlankIff(value);
    StripBlankIff(ForwardSlashes(value));
    SlashesStayVisible(value);
    ComponentsContain(Split(s), "..");
  }

  /** A returned path is the join of safe components, and short enough. */
  lemma {:induction false} AcceptedIsSafe(value: string)
    requires SafeArchivePath(value).Ok?
    ensures var p := SafeArchivePath(value).value;
            IsSafe(Split(p)) && Join(Split(p)) == p && |p| <= MAX_PATH
  {
    var normalized := Strip(ForwardSlashes(value));
    ForwardSlashesAre(value);
    StripLeftIs(ForwardSlashes(value));
    StripRightIs(StripLeft(ForwardSlashes(value)));
    assert '\\' !in normalized;
    SplitPieces(normalized);
    ComponentsAre(Split(normalized));
    SplitJoin(Parts(normalized));
    PartsShrink(normalized);
  }

  ghost predicate EndsInSpace(p: string) {
    p != "" && IsSpace(p[|p| - 1])
  }

  /** A safe path is returned unchanged when it does not end in white space; if it does, what
      comes out, if anything, is shorter. */
  lemma {:induction false} SafeAgain(p: string)
    requires IsSafe(Split(p)) && |p| <= MAX_PATH
    ensures !EndsInSpace(p) ==> SafeArchivePath(p) == Ok(p)
    ensures EndsInSpace(p) && SafeArchivePath(p).Ok? ==> |SafeArchivePath(p).value| < |p|
  {
    var parts := Split(p);
    JoinSplit(p);
    SafeHasNoBackslash(parts);
    FirstCharacter(parts);
    StripLeftIs(p);
    StripRightIs(p);
    ComponentsKeep(parts);
    ForwardSlashesAre(p);
    if EndsInSpace(p) && SafeArchivePath(p).Ok? {
      PartsShrink(Strip(p));
    }
  }

  lemma {:induction false} FirstCharacter(parts: seq<string>)
    requires parts != [] && IsAllowedTop(parts[0])
    ensures Join(parts) != "" && !IsSpace(Join(parts)[0]) && Join(parts)[0] != '/'
  {
    assert parts[0][0] == Join(parts)[0];
  }

  lemma {:induction false} SafeHasNoBackslash(parts: seq<string>)
    requires forall i :: 0 <= i < |parts| ==> IsComponent(parts[i])
    ensures '\\' !in Join(parts)
  {
    if |parts| > 1 {
      SafeHasNoBackslash(parts[1..]);
    }
  }

  /** _safe_archive_path applied to its own result changes nothing iff the result does not end
      in white space. */
  lemma {:induction false} IdempotentIff(value: string)
    requires SafeArchivePath(value).Ok?
    ensures var p := SafeArchivePath(value).value;
            SafeArchivePath(p) == Ok(p) <==> !EndsInSpace(p)
  {
    AcceptedIsSafe(value);
    SafeAgain(SafeArchivePath(value).value);
  }

  /** The paths returned unchanged are exactly the joins of safe components that are short
      enough and do not end in white space. */
  lemma {:induction false} FixedPoints(p: string)
    ensures SafeArchivePath(p) == Ok(p) <==> IsSafe(Split(p)) && |p| <= MAX_PATH && !EndsInSpace(p)
  {
    if SafeArchivePath(p) == Ok(p) {
      AcceptedIsSafe(p);
      IdempotentIff(p);
    }
    if IsSafe(Split(p)) && |p| <= MAX_PATH && !EndsInSpace(p) {
      SafeAgain(p);
    }
  }

  /** Any safe path, also one that ends in white space, is what some path comes out as: a
      trailing slash protects it from being stripped and is then dropped. */
  lemma {:induction false} EverySafePathComesOut(p: string)
    requires IsSafe(Split(p)) && |p| < MAX_PATH
    ensures SafeArchivePath(p + "/") == Ok(p)
  {
    var s := p + "/";
    SlashIsProtected(p);
    PartsOfSlashed(p);
    JoinSplit(p);
  }

  lemma {:induction false} SlashIsProtected(p: string)
    requires IsSafe(Split(p))
    ensures Strip(p + "/") == p + "/" && ForwardSlashes(p + "/") == p + "/" && p != "" && p[0] != '/'
  {
    JoinSplit(p);
    SafeHasNoBackslash(Split(p));
    FirstCharacter(Split(p));
    ForwardSlashesAre(p + "/");
    StripLeftIs(p + "/");
    StripRightIs(p + "/");
  }

  lemma {:induction false} PartsOfSlashed(p: string)
    requires IsSafe(Split(p))
    ensures Parts(p + "/") == Split(p)
  {
    var parts := Split(p);
    JoinSplit(p);
    JoinSnoc(parts);
    SplitJoin(parts + [""]);
    ComponentsKeep(parts);
    ComponentsSnoc(parts);
  }

  lemma {:induction false} JoinSnoc(parts: seq<string>)
    requires parts != []
    ensures Join(parts + [""]) == Join(parts) + "/"
  {
    if |parts| == 1 {
      assert (parts + [""])[1..] == [""];
    } else {
      JoinSnoc(parts[1..]);
      assert (parts + [""])[1..] == parts[1..] + [""];
    }
  }

  lemma {:induction false} ComponentsSnoc(pieces: seq<string>)
    ensures Components(pieces + [""]) == Components(pieces)
  {
    if pieces == [] {
      assert Components([""]) == [];
    } else {
      ComponentsSnoc(pieces[1..]);
      assert (pieces + [""])[1..] == pieces[1..] + [""];
    }
  }

  /* ---------- Containment ---------- */

  /** Path.resolve without symbolic links: '..' takes the last component away. */
  function Resolve(parts: seq<string>): seq<string> {
    if parts == [] then []
    else
      var front := Resolve(parts[..|parts| - 1]);
      var last := parts[|parts| - 1];
      if last == "" || last == "." then front
      else if last == ".." then (if front == [] then [] else front[..|front| - 1])
      else front + [last]
  }

  /** A dot stays, a name goes down, and two dots go back up. */
  lemma {:induction false} ResolveSteps(parts: seq<string>, name: string)
    requires IsComponent(name)
    ensures Resolve(parts + ["."]) == Resolve(parts + [""]) == Resolve(parts)
    ensures Resolve(parts + [name, ".."]) == Resolve(parts)
    ensures Resolve([".."]) == []
  {
    assert (parts + ["."])[..|parts|] == parts && (parts + [""])[..|parts|] == parts;
    assert (parts + [name, ".."])[..|parts| + 1] == parts + [name];
    ResolveSnoc(parts, name);
    assert [".."][..0] == [];
  }

  /** An accepted path leads to itself below the root, whatever the root. */
  lemma {:induction false} AcceptedStaysUnderRoot(root: seq<string>, value: string)
    requires SafeArchivePath(value).Ok?
    ensures var parts := Split(SafeArchivePath(value).value);
            Resolve(root + parts) == Resolve(root) + parts
  {
    AcceptedIsSafe(value);
    ResolveAppend(root, Split(SafeArchivePath(value).value));
  }

  lemma {:induction false} ResolveAppend(root: seq<string>, parts: seq<string>)
    requires forall i :: 0 <= i < |parts| ==> IsComponent(parts[i])
    ensures Resolve(root + parts) == Resolve(root) + parts
  {
    if parts == [] {
      assert root + parts == root;
    } else {
      var n := |parts| - 1;
      ResolveAppend(root, parts[..n]);
      ResolveSnoc(root + parts[..n], parts[n]);
      assert root + parts == root + parts[..n] + [parts[n]];
      assert Resolve(root) + parts == Resolve(root) + parts[..n] + [parts[n]];
    }
  }

  lemma {:induction false} ResolveSnoc(parts: seq<string>, name: string)
    requires IsComponent(name)
    ensures Resolve(parts + [name]) == Resolve(parts) + [name]
  {
    assert (parts + [name])[..|parts|] == parts;
  }
}
