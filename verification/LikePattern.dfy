/** Search text turned into a pattern for SQL LIKE with a backslash as the escape character. */
module LikePattern {
  import opened ArchivePath

  /* ---------- Normalising: _text ---------- */

  /** str.replace of one character by a text. */
  function ReplaceAll(s: string, c: char, with: string): string {
    if |s| == 0 then "" else (if s[0] == c then with else [s[0]]) + ReplaceAll(s[1..], c, with)
  }

  /** The rest of the word that a text goes on with. */
  function WordEnd(s: string): (n: nat)
    ensures n <= |s|
  {
    if |s| == 0 || IsSpace(s[0]) then 0 else 1 + WordEnd(s[1..])
  }

  /** str.split: the runs of characters other than white space. */
  function Words(s: string): seq<string>
    decreases |s|
  {
    if |s| == 0 then []
    else if IsSpace(s[0]) then Words(s[1..])
    else [s[..WordEnd(s)]] + Words(s[WordEnd(s)..])
  }

  function Spaced(words: seq<string>): string {
    if |words| == 0 then "" else if |words| == 1 then words[0] else words[0] + " " + Spaced(words[1..])
  }

  function Normalised(value: string): string {
    Spaced(Words(ReplaceAll(ReplaceAll(value, '\r', " "), '\n', " ")))
  }

  function Text(value: string, maxLength: nat): string {
    var normalised := Normalised(value);
    if |normalised| <= maxLength then normalised else normalised[..maxLength]
  }

  predicate IsWord(w: string) {
    |w| > 0 && forall c :: c in w ==> !IsSpace(c)
  }

  lemma {:induction false} WordEndEnds(s: string)
    ensures forall c :: c in s[..WordEnd(s)] ==> !IsSpace(c)
    ensures WordEnd(s) < |s| ==> IsSpace(s[WordEnd(s)])
  {
    if |s| > 0 && !IsSpace(s[0]) {
      WordEndEnds(s[1..]);
      assert s[..WordEnd(s)] == [s[0]] + s[1..][..WordEnd(s[1..])];
    }
  }

  lemma {:induction false} WordsAreWords(s: string)
    ensures forall w :: w in Words(s) ==> IsWord(w)
    decreases |s|
  {
    if |s| > 0 {
      if IsSpace(s[0]) {
        WordsAreWords(s[1..]);
      } else {
        WordEndEnds(s);
        WordsAreWords(s[WordEnd(s)..]);
      }
    }
  }

  lemma {:induction false} WordEndOfWord(w: string, rest: string)
    requires forall c :: c in w ==> !IsSpace(c)
    requires |rest| > 0 ==> IsSpace(rest[0])
    ensures WordEnd(w + rest) == |w|
  {
    if |w| > 0 {
      assert (w + rest)[1..] == w[1..] + rest;
      WordEndOfWord(w[1..], rest);
    }
  }

  lemma {:induction false} WordsOfSpaced(words: seq<string>)
    requires forall w :: w in words ==> IsWord(w)
    ensures Words(Spaced(words)) == words
  {
    assert |words| > 0 ==> IsWord(words[0]);
    if |words| == 1 {
      WordEndOfWord(words[0], "");
      assert words[0] + "" == words[0];
      assert words == [words[0]];
    } else if |words| > 1 {
      var rest := " " + Spaced(words[1..]);
      assert IsSpace(rest[0]) && rest[1..] == Spaced(words[1..]);
      WordEndOfWord(words[0], rest);
      assert Spaced(words) == words[0] + rest;
      assert Spaced(words)[|words[0]|..] == rest && Spaced(words)[..|words[0]|] == words[0];
      assert Words(rest) == Words(Spaced(words[1..]));
      WordsOfSpaced(words[1..]);
    }
  }

  /** Carriage returns and line feeds are white space anyway. */
  lemma {:induction false} LineBreaksAreSpaces(s: string, c: char)
    requires IsSpace(c)
    ensures Words(ReplaceAll(s, c, " ")) == Words(s)
    decreases |s|
  {
    if |s| > 0 {
      if IsSpace(s[0]) {
        LineBreaksAreSpaces(s[1..], c);
        assert ReplaceAll(s, c, " ")[1..] == ReplaceAll(s[1..], c, " ");
      } else {
        ReplaceKeepsWord(s, c);
        LineBreaksAreSpaces(s[WordEnd(s)..], c);
      }
    }
  }

  lemma {:induction false} ReplaceKeepsWord(s: string, c: char)
    requires IsSpace(c)
    ensures var n, t := WordEnd(s), ReplaceAll(s, c, " ");
            WordEnd(t) == n && n <= |t| && t[..n] == s[..n] && t[n..] == ReplaceAll(s[n..], c, " ")
  {
    var n, t := WordEnd(s), ReplaceAll(s, c, " ");
    if |s| == 0 || IsSpace(s[0]) {
      assert |s| > 0 ==> IsSpace(t[0]);
      assert s[0..] == s && t[0..] == t;
    } else {
      ReplaceKeepsWord(s[1..], c);
      var u := ReplaceAll(s[1..], c, " ");
      assert t == [s[0]] + u && t[1..] == u;
      assert t[..n] == [s[0]] + u[..n - 1] && s[..n] == [s[0]] + s[1..][..n - 1];
      assert t[n..] == u[n - 1..] && s[n..] == s[1..][n - 1..];
    }
  }

  lemma {:induction false} WordsOfWord(w: string)
    requires IsWord(w)
    ensures Words(w) == [w]
  {
    WordEndOfWord(w, "");
    assert w + "" == w;
  }

  /** Every white space separates: with WordsOfWord this says what the words of any text are. */
  lemma {:induction false} WordsSplitAtSpace(a: string, c: char, b: string)
    requires IsSpace(c)
    ensures Words(a + [c] + b) == Words(a) + Words(b)
    decreases |a|
  {
    var s := a + [c] + b;
    if |a| == 0 {
      assert s[1..] == b;
    } else if IsSpace(a[0]) {
      assert s[1..] == a[1..] + [c] + b;
      WordsSplitAtSpace(a[1..], c, b);
    } else {
      var n := WordEnd(a);
      WordEndEnds(a);
      assert s == a[..n] + (a[n..] + [c] + b);
      WordEndOfWord(a[..n], a[n..] + [c] + b);
      assert s[..n] == a[..n] && s[n..] == a[n..] + [c] + b;
      WordsSplitAtSpace(a[n..], c, b);
    }
  }

  lemma {:induction false} SpacedSnoc(words: seq<string>, w: string)
    ensures Spaced([w]) == w
    ensures words != [] ==> Spaced(words + [w]) == Spaced(words) + " " + w
  {
    if |words| > 1 {
      assert (words + [w])[1..] == words[1..] + [w];
      SpacedSnoc(words[1..], w);
    } else if |words| == 1 {
      assert (words + [w])[1..] == [w];
    }
  }

  /** The words of a text one space apart, cut off after maxLength characters, are what is searched for. */
  lemma {:induction false} TextIs(value: string, maxLength: nat)
    ensures Text(value, maxLength) <= Spaced(Words(value))
    ensures |Text(value, maxLength)|
            == if |Spaced(Words(value))| <= maxLength then |Spaced(Words(value))| else maxLength
  {
    NormalisedIsSpaced(value);
  }

  /** Normalising keeps the words, and doing it twice changes nothing more. */
  lemma {:induction false} NormalisedKeepsWords(value: string)
    ensures Normalised(value) == Spaced(Words(value))
    ensures Words(Normalised(value)) == Words(value)
    ensures Normalised(Normalised(value)) == Normalised(value)
  {
    NormalisedIsSpaced(value);
    WordsAreWords(value);
    WordsOfSpaced(Words(value));
    NormalisedIsSpaced(Normalised(value));
  }

  lemma {:induction false} NormalisedIsSpaced(value: string)
    ensures Normalised(value) == Spaced(Words(value))
  {
    LineBreaksAreSpaces(value, '\r');
    LineBreaksAreSpaces(ReplaceAll(value, '\r', " "), '\n');
  }

  /* ---------- Escaping: _like ---------- */

  function Escaped(text: string): string {
    ReplaceAll(ReplaceAll(ReplaceAll(text, '\\', "\\\\"), '%', "\\%"), '_', "\\_")
  }

  function Pattern(value: string, maxLength: nat): string {
    "%" + Escaped(Text(value, maxLength)) + "%"
  }

  /** A backslash before each backslash, percent sign and underscore. */
  function EscapedEach(text: string): string {
    if |text| == 0 then ""
    else EscapedChar(text[0]) + EscapedEach(text[1..])
  }

  function EscapedChar(x: char): string {
    if x == '\\' || x == '%' || x == '_' then ['\\', x] else [x]
  }

  lemma {:induction false} ReplaceAppend(a: string, b: string, c: char, with: string)
    ensures ReplaceAll(a + b, c, with) == ReplaceAll(a, c, with) + ReplaceAll(b, c, with)
  {
    if |a| == 0 {
      assert a + b == b;
    } else {
      assert (a + b)[1..] == a[1..] + b;
      ReplaceAppend(a[1..], b, c, with);
    }
  }

  lemma {:induction false} ReplaceOne(x: char, c: char, with: string)
    ensures ReplaceAll([x], c, with) == if x == c then with else [x]
  {
    assert [x][1..] == "";
    assert ReplaceAll("", c, with) == "";
  }

  lemma {:induction false} ReplacePair(x: char, y: char, c: char, with: string)
    ensures ReplaceAll([x, y], c, with) == (if x == c then with else [x]) + (if y == c then with else [y])
  {
    ReplaceAppend([x], [y], c, with);
    ReplaceOne(x, c, with);
    ReplaceOne(y, c, with);
    assert [x] + [y] == [x, y];
  }

  /** The three replacements, one after the other, do not disturb each other. */
  lemma {:induction false} EscapedIsCharacterwise(text: string)
    ensures Escaped(text) == EscapedEach(text)
  {
    if |text| > 0 {
      EscapedIsCharacterwise(text[1..]);
      EscapedHead(text[0], text[1..]);
      assert text == [text[0]] + text[1..];
    }
  }

  lemma {:induction false} EscapedHead(x: char, rest: string)
    ensures Escaped([x] + rest) == EscapedChar(x) + Escaped(rest)
  {
    EscapedAppend([x], rest);
    ReplaceOne(x, '\\', "\\\\");
    if x == '\\' {
      ReplacePair('\\', '\\', '%', "\\%");
      ReplacePair('\\', '\\', '_', "\\_");
      assert Escaped([x]) == ['\\', '\\'];
    } else if x == '%' {
      ReplaceOne('%', '%', "\\%");
      ReplacePair('\\', '%', '_', "\\_");
      assert Escaped([x]) == ['\\', '%'];
    } else {
      ReplaceOne(x, '%', "\\%");
      ReplaceOne(x, '_', "\\_");
    }
  }

  lemma {:induction false} EscapedAppend(a: string, b: string)
    ensures Escaped(a + b) == Escaped(a) + Escaped(b)
  {
    ReplaceAppend(a, b, '\\', "\\\\");
    var a1, b1 := ReplaceAll(a, '\\', "\\\\"), ReplaceAll(b, '\\', "\\\\");
    ReplaceAppend(a1, b1, '%', "\\%");
    ReplaceAppend(ReplaceAll(a1, '%', "\\%"), ReplaceAll(b1, '%', "\\%"), '_', "\\_");
  }

  /* ---------- Matching ---------- */

  /** LIKE with ESCAPE '\': fold is the database's case folding. */
  predicate Like(pattern: string, text: string, fold: char -> char)
    decreases |pattern| + |text|
  {
    if |pattern| == 0 then |text| == 0
    else if pattern[0] == '%' then
      Like(pattern[1..], text, fold) || (|text| > 0 && Like(pattern, text[1..], fold))
    else if pattern[0] == '_' then
      |text| > 0 && Like(pattern[1..], text[1..], fold)
    else if pattern[0] == '\\' then
      |pattern| > 1 && |text| > 0 && fold(pattern[1]) == fold(text[0]) && Like(pattern[2..], text[1..], fold)
    else
      |text| > 0 && fold(pattern[0]) == fold(text[0]) && Like(pattern[1..], text[1..], fold)
  }

  predicate SameFolded(a: string, b: string, fold: char -> char) {
    |a| == |b| && forall i :: 0 <= i < |a| ==> fold(a[i]) == fold(b[i])
  }

  predicate StandsAt(part: string, text: string, k: nat, fold: char -> char) {
    k + |part| <= |text| && SameFolded(part, text[k..k + |part|], fold)
  }

  ghost predicate OccursIn(part: string, text: string, fold: char -> char) {
    exists k: nat :: StandsAt(part, text, k, fold)
  }

  /** Escaped characters stand for themselves. */
  lemma {:induction false} EscapedMatchesItself(part: string, rest: string, text: string, fold: char -> char)
    ensures Like(EscapedEach(part) + rest, text, fold)
            <==> |part| <= |text| && SameFolded(part, text[..|part|], fold) && Like(rest, text[|part|..], fold)
  {
    var pattern := EscapedEach(part) + rest;
    if |part| == 0 {
      assert pattern == rest && text[0..] == text;
    } else {
      var tail := EscapedEach(part[1..]) + rest;
      assert pattern == EscapedChar(part[0]) + tail;
      if |text| > 0 {
        EscapedMatchesItself(part[1..], rest, text[1..], fold);
        if part[0] == '\\' || part[0] == '%' || part[0] == '_' {
          assert pattern[0] == '\\' && pattern[1] == part[0] && pattern[2..] == tail;
        } else {
          assert pattern[0] == part[0] && pattern[1..] == tail;
        }
        assert Like(pattern, text, fold) <==> fold(part[0]) == fold(text[0]) && Like(tail, text[1..], fold);
        OneMore(part, text, fold);
        if |part| <= |text| {
          assert text[1..][|part| - 1..] == text[|part|..];
        }
      } else {
        assert pattern[0] != '%';
      }
    }
  }

  lemma {:induction false} OneMore(part: string, text: string, fold: char -> char)
    requires |part| > 0 && |text| > 0
    ensures (|part| <= |text| && SameFolded(part, text[..|part|], fold))
            <==> (&& fold(part[0]) == fold(text[0]) && |part[1..]| <= |text[1..]|
                  && SameFolded(part[1..], text[1..][..|part[1..]|], fold))
  {
    if |part| <= |text| {
      var a, b := part[1..], text[1..][..|part| - 1];
      assert forall i :: 0 <= i < |a| ==> a[i] == part[i + 1] && b[i] == text[..|part|][i + 1];
      assert text[..|part|][0] == text[0];
      if fold(part[0]) == fold(text[0]) && SameFolded(a, b, fold) {
        forall i | 0 <= i < |part|
          ensures fold(part[i]) == fold(text[..|part|][i])
        {
          if i > 0 {
            assert fold(a[i - 1]) == fold(b[i - 1]);
          }
        }
      }
      if SameFolded(part, text[..|part|], fold) {
        forall i | 0 <= i < |a|
          ensures fold(a[i]) == fold(b[i])
        {
          assert fold(part[i + 1]) == fold(text[..|part|][i + 1]);
        }
      }
    }
  }

  lemma {:induction false} PercentSkips(rest: string, text: string, fold: char -> char)
    ensures Like("%" + rest, text, fold) <==> exists k :: 0 <= k <= |text| && Like(rest, text[k..], fold)
  {
    var pattern := "%" + rest;
    assert pattern[1..] == rest;
    assert text[0..] == text;
    if |text| > 0 {
      PercentSkips(rest, text[1..], fold);
      if Like(pattern, text[1..], fold) {
        var k :| 0 <= k <= |text[1..]| && Like(rest, text[1..][k..], fold);
        assert text[1..][k..] == text[k + 1..];
      }
      forall k | 0 < k <= |text| && Like(rest, text[k..], fold)
        ensures Like(pattern, text, fold)
      {
        assert text[1..][k - 1..] == text[k..];
      }
    }
  }

  lemma {:induction false} PercentMatchesAll(text: string, fold: char -> char)
    ensures Like("%", text, fold)
  {
    assert "%" + "" == "%";
    PercentSkips("", text, fold);
    assert Like("", text[|text|..], fold);
  }

  lemma {:induction false} PatternMatchesIffTextOccurs(value: string, maxLength: nat, text: string, fold: char -> char)
    ensures Like(Pattern(value, maxLength), text, fold) <==> OccursIn(Text(value, maxLength), text, fold)
  {
    var part := Text(value, maxLength);
    var rest := Escaped(part) + "%";
    assert Pattern(value, maxLength) == "%" + rest;
    PercentSkips(rest, text, fold);
    if OccursIn(part, text, fold) {
      var k: nat :| StandsAt(part, text, k, fold);
      TailMatchesIff(part, text, k, fold);
    }
    if Like("%" + rest, text, fold) {
      var k :| 0 <= k <= |text| && Like(rest, text[k..], fold);
      TailMatchesIff(part, text, k, fold);
    }
  }

  /** The pattern for a value matches exactly the texts in which the words of the value, one space
      apart and cut off at maxLength, occur, up to case folding; no character acts as a wildcard. */
  lemma {:induction false} PatternMatchesIffOccurs(value: string, maxLength: nat, text: string, fold: char -> char)
    ensures var words := Spaced(Words(value));
            && (|words| <= maxLength ==> (Like(Pattern(value, maxLength), text, fold) <==> OccursIn(words, text, fold)))
            && (|words| > maxLength ==>
                  (Like(Pattern(value, maxLength), text, fold) <==> OccursIn(words[..maxLength], text, fold)))
  {
    var words := Spaced(Words(value));
    TextIs(value, maxLength);
    assert Text(value, maxLength) == if |words| <= maxLength then words else words[..maxLength];
    PatternMatchesIffTextOccurs(value, maxLength, text, fold);
  }

  lemma {:induction false} TailMatchesIff(part: string, text: string, k: nat, fold: char -> char)
    requires k <= |text|
    ensures Like(Escaped(part) + "%", text[k..], fold) <==> StandsAt(part, text, k, fold)
  {
    EscapedIsCharacterwise(part);
    EscapedMatchesItself(part, "%", text[k..], fold);
    if |part| <= |text[k..]| {
      PercentMatchesAll(text[k..][|part|..], fold);
      assert text[k..][..|part|] == text[k..k + |part|];
    }
  }
}
