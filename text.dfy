/**
 * The pure string work of the `md` command: the title regular expression,
 * the `{{title}}` substitution of `str_replace` and the default name of the
 * generated file. Text is a plain sequence of characters.
 */
module Text {
  import opened Wrappers

  /** `pat` occurs in `s` starting at index `i`. */
  predicate Occurs(s: string, pat: string, i: int)
  {
    0 <= i && i + |pat| <= |s| && forall k :: 0 <= k < |pat| ==> s[i + k] == pat[k]
  }

  /** The first index at or after `from` where `pat` occurs in `s`. */
  function IndexOf(s: string, pat: string, from: nat): (r: Option<nat>)
    requires from <= |s|
    ensures r.Some? ==> from <= r.value && Occurs(s, pat, r.value)
    ensures r.Some? ==> forall j :: from <= j < r.value ==> !Occurs(s, pat, j)
    ensures r.None? ==> forall j :: from <= j ==> !Occurs(s, pat, j)
    decreases |s| - from
  {
    if from + |pat| > |s| then None
    else if Occurs(s, pat, from) then Some(from)
    else IndexOf(s, pat, from + 1)
  }

  /** The index of the last `c` in `s`. */
  function LastIndexOf(s: string, c: char): (r: Option<nat>)
    ensures r.None? <==> c !in s
    ensures r.Some? ==> r.value < |s| && s[r.value] == c
    ensures r.Some? ==> forall k :: r.value < k < |s| ==> s[k] != c
  {
    if s == [] then None
    else if s[|s| - 1] == c then Some(|s| - 1)
    else
      assert s == s[..|s| - 1] + [s[|s| - 1]];
      LastIndexOf(s[..|s| - 1], c)
  }

  /** The index of the first line break at or after `from`, or `|s|` when there is none. */
  function LineEnd(s: string, from: nat): (e: nat)
    requires from <= |s|
    ensures from <= e <= |s|
    ensures forall k :: from <= k < e ==> s[k] != '\n'
    ensures e == |s| || s[e] == '\n'
    decreases |s| - from
  {
    if from == |s| || s[from] == '\n' then from
    else
      LineEnd(s, from + 1)
  }

  // ---------------------------------------------------------------------------
  // Title extraction: `UnicodeString::match('/# (.*)/')` (md.php:101-112)
  // ---------------------------------------------------------------------------

  /** The two characters that open a heading match: a hash and a space. */
  const Marker: string := "# "

  /**
   * `$matches[1]` of the pattern `/# (.*)/`: `None` when the text has no match,
   * otherwise the capture. The pattern is not anchored to the start of a line,
   * and `.` matches every character except the line feed.
   */
  function MatchHeading(text: string): (m: Option<string>)
    ensures m.None? <==> forall i :: !Occurs(text, Marker, i)
    ensures m.Some? ==> '\n' !in m.value
  {
    match IndexOf(text, Marker, 0)
    case None => None
    case Some(i) =>
      var e := LineEnd(text, i + 2);
      LineIsNewlineFree(text, i + 2, e);
      Some(text[i + 2..e])
  }

  /**
   * `$title`: the capture of the first match, or the empty string
   * (md.php:101-112). It is one line, and empty when the text has no "# ".
   */
  function ExtractTitle(text: string): (title: string)
    ensures '\n' !in title
    ensures (forall i :: !Occurs(text, Marker, i)) ==> title == ""
  {
    match MatchHeading(text)
    case None => ""
    case Some(capture) => capture
  }

  /**
   * Reference definition of a match: `title` is what follows the FIRST "# " of
   * `text`, found at `i`, up to the next line feed or the end of the text.
   */
  ghost predicate TitleAt(text: string, i: int, title: string)
  {
    && Occurs(text, Marker, i)
    && (forall j :: 0 <= j < i ==> !Occurs(text, Marker, j))
    && i + 2 + |title| <= |text|
    && text[i + 2..i + 2 + |title|] == title
    && '\n' !in title
    && (i + 2 + |title| == |text| || text[i + 2 + |title|] == '\n')
  }

  /** The match agrees with the reference definition, in both directions. */
  lemma MatchHeadingSpec(text: string, title: string)
    ensures MatchHeading(text) == Some(title) <==> exists i :: TitleAt(text, i, title)
  {
    if MatchHeading(text) == Some(title) {
      MatchIsTitle(text, title);
    }
    if i :| TitleAt(text, i, title) {
      TitleIsMatch(text, i, title);
    }
  }

  /** A match is a title in the sense of the reference definition, at the first marker. */
  lemma MatchIsTitle(text: string, title: string)
    requires MatchHeading(text) == Some(title)
    ensures TitleAt(text, IndexOf(text, Marker, 0).value, title)
  {
    var k := IndexOf(text, Marker, 0).value;
    LineIsNewlineFree(text, k + 2, LineEnd(text, k + 2));
  }

  /** A title in the sense of the reference definition is what the match yields. */
  lemma TitleIsMatch(text: string, i: int, title: string)
    requires TitleAt(text, i, title)
    ensures MatchHeading(text) == Some(title)
  {
    assert Occurs(text, Marker, i);
    var k := IndexOf(text, Marker, 0).value;
    assert i == k;
    var end := i + 2 + |title|;
    forall j | k + 2 <= j < end ensures text[j] != '\n' {
      assert text[j] == title[j - k - 2];
    }
    assert end == LineEnd(text, k + 2);
  }

  /** The characters before a line end hold no line feed. */
  lemma LineIsNewlineFree(s: string, from: nat, e: nat)
    requires from <= e <= |s|
    requires forall k :: from <= k < e ==> s[k] != '\n'
    ensures '\n' !in s[from..e]
  {
    forall c | c in s[from..e] ensures c != '\n' {
      var j :| 0 <= j < e - from && s[from..e][j] == c;
      assert s[from + j] == c;
    }
  }

  /**
   * A heading line after a text without "# " gives the title; everything after
   * its line feed, later "# " included, is ignored.
   */
  lemma FirstHeadingWins(before: string, title: string, after: string)
    requires forall j :: !Occurs(before, Marker, j)
    requires '\n' !in title
    ensures ExtractTitle(before + Marker + title + "\n" + after) == title
  {
    var text := before + Marker + title + "\n" + after;
    var i := |before|;
    assert Marker[0] == '#' && Marker[1] == ' ';
    assert text[i] == '#' && text[i + 1] == ' ';
    forall j | 0 <= j < i ensures !Occurs(text, Marker, j) {
      if j + 2 <= i {
        assert !Occurs(before, Marker, j);
        assert text[j] == before[j] && text[j + 1] == before[j + 1];
      } else {
        assert text[j + 1] == '#';
      }
    }
    assert text[i + 2..i + 2 + |title|] == title;
    assert text[i + 2 + |title|] == '\n';
    assert TitleAt(text, i, title);
    MatchHeadingSpec(text, title);
  }

  // ---------------------------------------------------------------------------
  // Placeholder substitution: `str_replace($search, $replace, $subject)` (md.php:136)
  // ---------------------------------------------------------------------------

  /** The placeholder that the head fragment may contain. */
  const TitleToken: string := "{{title}}"

  /**
   * `str_replace(token, replacement, s)`: scans left to right, replaces each
   * non-overlapping occurrence of `token` and does not rescan what it inserted.
   * An empty `token` leaves `s` unchanged.
   */
  function ReplaceAll(s: string, token: string, replacement: string): (r: string)
    decreases |s|
  {
    if token == [] || |s| < |token| then s
    else if Occurs(s, token, 0) then replacement + ReplaceAll(s[|token|..], token, replacement)
    else [s[0]] + ReplaceAll(s[1..], token, replacement)
  }

  /** What precedes the first occurrence of the token holds no occurrence of it. */
  lemma PrefixTokenFree(s: string, token: string, i: nat)
    requires token != [] && IndexOf(s, token, 0) == Some(i)
    ensures forall j :: !Occurs(s[..i], token, j)
  {
    forall j ensures !Occurs(s[..i], token, j) {
      if 0 <= j && j + |token| <= i {
        assert !Occurs(s, token, j);
        var m :| 0 <= m < |token| && s[j + m] != token[m];
        assert s[..i][j + m] == s[j + m];
      }
    }
  }

  /**
   * `explode(token, s)`: the pieces between the leftmost non-overlapping
   * occurrences. There is at least one piece, and no piece holds the token.
   */
  function Explode(s: string, token: string): (parts: seq<string>)
    requires token != []
    ensures |parts| >= 1
    ensures forall k, j :: 0 <= k < |parts| ==> !Occurs(parts[k], token, j)
    decreases |s|
  {
    match IndexOf(s, token, 0)
    case None => [s]
    case Some(i) =>
      PrefixTokenFree(s, token, i);
      [s[..i]] + Explode(s[i + |token|..], token)
  }

  /** `implode(glue, parts)`. */
  function Implode(parts: seq<string>, glue: string): string
  {
    if parts == [] then ""
    else if |parts| == 1 then parts[0]
    else parts[0] + glue + Implode(parts[1..], glue)
  }

  /** Joining a piece in front of at least one more piece puts the glue between them. */
  lemma ImplodeCons(part: string, rest: seq<string>, glue: string)
    requires |rest| >= 1
    ensures Implode([part] + rest, glue) == part + glue + Implode(rest, glue)
  {
    assert ([part] + rest)[1..] == rest;
  }

  /** The first piece of the split ends where the token first occurs. */
  lemma ExplodeAt(s: string, token: string, i: nat)
    requires token != [] && IndexOf(s, token, 0) == Some(i)
    ensures Explode(s, token) == [s[..i]] + Explode(s[i + |token|..], token)
  {
  }

  /** An occurrence splits the text into what precedes it, the pattern and what follows. */
  lemma OccursSplits(s: string, pat: string, i: nat)
    requires Occurs(s, pat, i)
    ensures s == s[..i] + pat + s[i + |pat|..]
  {
    assert s[i..i + |pat|] == pat;
    assert s == s[..i] + s[i..i + |pat|] + s[i + |pat|..];
  }

  /** Splitting at the token and joining with the token gives back the text. */
  lemma {:induction false} ImplodeExplode(s: string, token: string)
    requires token != []
    ensures Implode(Explode(s, token), token) == s
    decreases |s|
  {
    match IndexOf(s, token, 0)
    case None =>
    case Some(i) =>
      var tail := s[i + |token|..];
      assert Implode(Explode(s, token), token) == s[..i] + token + Implode(Explode(tail, token), token) by {
        ExplodeAt(s, token, i);
        ImplodeCons(s[..i], Explode(tail, token), token);
      }
      assert Implode(Explode(tail, token), token) == tail by {
        ImplodeExplode(tail, token);
      }
      OccursSplits(s, token, i);
  }

  /** Where the token does not start, `str_replace` copies one character and moves on. */
  lemma CopiesOneCharacter(s: string, token: string, replacement: string)
    requires token != [] && s != []
    requires !Occurs(s, token, 0)
    ensures ReplaceAll(s, token, replacement) == [s[0]] + ReplaceAll(s[1..], token, replacement)
  {
    if |s| >= |token| {
      assert s[0..|token|] == s[..|token|];
    }
  }

  /** Where the token starts, `str_replace` emits the replacement and skips the token. */
  lemma ReplacesOneToken(s: string, token: string, replacement: string)
    requires token != [] && Occurs(s, token, 0)
    ensures ReplaceAll(s, token, replacement) == replacement + ReplaceAll(s[|token|..], token, replacement)
  {
    assert s[0..|token|] == s[..|token|];
  }

  /** Dropping the first character shifts every position without the token by one. */
  lemma NoTokenAfterFirst(s: string, token: string, k: nat)
    requires 1 <= k <= |s|
    requires forall j :: 0 <= j < k ==> !Occurs(s, token, j)
    ensures forall j :: 0 <= j < k - 1 ==> !Occurs(s[1..], token, j)
  {
    forall j | 0 <= j < k - 1 ensures !Occurs(s[1..], token, j) {
      if j + |token| <= |s| - 1 {
        assert !Occurs(s, token, j + 1);
        var m :| 0 <= m < |token| && s[j + 1 + m] != token[m];
        assert s[1..][j + m] == s[j + 1 + m];
      }
    }
  }

  /** One step of copying: a copied first character extends a copied prefix by one. */
  lemma CopiesOneMore(s: string, token: string, replacement: string, k: nat)
    requires token != [] && 1 <= k <= |s| && !Occurs(s, token, 0)
    requires ReplaceAll(s[1..], token, replacement) == s[1..][..k - 1] + ReplaceAll(s[1..][k - 1..], token, replacement)
    ensures ReplaceAll(s, token, replacement) == s[..k] + ReplaceAll(s[k..], token, replacement)
  {
    CopiesOneCharacter(s, token, replacement);
    assert s[1..][k - 1..] == s[k..];
    assert [s[0]] + s[1..][..k - 1] == s[..k];
  }

  /** Positions before the first occurrence are copied as they are. */
  lemma {:induction false} ReplaceAllCopiesPrefix(s: string, token: string, replacement: string, k: nat)
    requires token != [] && k <= |s|
    requires forall j :: 0 <= j < k ==> !Occurs(s, token, j)
    ensures ReplaceAll(s, token, replacement) == s[..k] + ReplaceAll(s[k..], token, replacement)
    decreases k
  {
    if k == 0 {
      assert s[..0] == [] && s[0..] == s;
    } else {
      NoTokenAfterFirst(s, token, k);
      ReplaceAllCopiesPrefix(s[1..], token, replacement, k - 1);
      CopiesOneMore(s, token, replacement, k);
    }
  }

  /**
   * `str_replace` is `explode` followed by `implode` with the replacement:
   * every leftmost non-overlapping occurrence is replaced and nothing else changes.
   */
  lemma {:induction false} ReplaceAllIsImplodeExplode(s: string, token: string, replacement: string)
    requires token != []
    ensures ReplaceAll(s, token, replacement) == Implode(Explode(s, token), replacement)
    decreases |s|
  {
    match IndexOf(s, token, 0)
    case None =>
      ReplaceAllCopiesPrefix(s, token, replacement, |s|);
      assert s[..|s|] == s && s[|s|..] == [];
    case Some(i) =>
      var tail := s[i + |token|..];
      ReplaceAllCopiesPrefix(s, token, replacement, i);
      ReplacesOneToken(s[i..], token, replacement);
      assert s[i..][|token|..] == tail;
      ReplaceAllIsImplodeExplode(tail, token, replacement);
      ExplodeAt(s, token, i);
      ImplodeCons(s[..i], Explode(tail, token), replacement);
  }

  /**
   * A text where the token occurs once, after a stretch where it does not
   * start, has that one occurrence replaced.
   */
  lemma ReplaceOne(before: string, token: string, after: string, replacement: string)
    requires token != []
    requires forall j :: 0 <= j < |before| ==> !Occurs(before + token + after, token, j)
    requires forall j :: !Occurs(after, token, j)
    ensures ReplaceAll(before + token + after, token, replacement) == before + replacement + after
  {
    var s := before + token + after;
    ReplaceAllCopiesPrefix(s, token, replacement, |before|);
    assert s[..|before|] == before;
    assert s[|before|..] == token + after;
    assert (token + after)[..|token|] == token && (token + after)[|token|..] == after;
    NoTokenUnchanged(after, token, replacement);
  }

  /** A text without the token is returned unchanged. */
  lemma NoTokenUnchanged(s: string, token: string, replacement: string)
    requires forall j :: !Occurs(s, token, j)
    ensures ReplaceAll(s, token, replacement) == s
  {
    if token != [] {
      ReplaceAllCopiesPrefix(s, token, replacement, |s|);
      assert s[..|s|] == s && s[|s|..] == [];
    }
  }

  /** Replacing the token by itself changes nothing. */
  lemma ReplaceByTokenIsIdentity(s: string, token: string)
    ensures ReplaceAll(s, token, token) == s
  {
    if token != [] {
      ReplaceAllIsImplodeExplode(s, token, token);
      ImplodeExplode(s, token);
    }
  }

  /**
   * The result is the text's token-free pieces joined by the replacement, and
   * the same pieces joined by the token give the text back.
   */
  lemma ReplaceAllSpec(s: string, token: string, replacement: string)
    requires token != []
    ensures var parts := Explode(s, token);
      && ReplaceAll(s, token, replacement) == Implode(parts, replacement)
      && Implode(parts, token) == s
      && forall k :: 0 <= k < |parts| ==> forall j :: !Occurs(parts[k], token, j)
  {
    ReplaceAllIsImplodeExplode(s, token, replacement);
    ImplodeExplode(s, token);
  }

  // ---------------------------------------------------------------------------
  // Default target name (md.php:122-128)
  // ---------------------------------------------------------------------------

  /** `SplFileInfo::getExtension()`: what follows the last dot, or "" without a dot. */
  function Extension(name: string): (ext: string)
    ensures '.' !in ext
    ensures '.' !in name ==> ext == ""
    ensures '.' in name ==> |ext| < |name| && name[|name| - |ext| - 1] == '.' && name[|name| - |ext|..] == ext
  {
    match LastIndexOf(name, '.')
    case None => ""
    case Some(i) =>
      var ext := name[i + 1..];
      assert forall k :: 0 <= k < |ext| ==> ext[k] == name[i + 1 + k];
      ext
  }

  /**
   * `SplFileInfo::getBasename($suffix)`: drops `suffix` from the end of `name`,
   * but only when `name` is strictly longer than `suffix`.
   */
  function StripSuffix(name: string, suffix: string): (r: string)
    ensures r == name || (|suffix| < |name| && name == r + suffix)
  {
    if |suffix| < |name| && name[|name| - |suffix|..] == suffix then
      assert name == name[..|name| - |suffix|] + name[|name| - |suffix|..];
      name[..|name| - |suffix|]
    else name
  }

  /** `"{$basename}.html"` with `$basename` the name minus `".{$extension}"`. */
  function DefaultTargetName(name: string): (r: string)
    ensures |r| >= 5 && r[|r| - 5..] == ".html" && r[..|r| - 5] <= name
  {
    var base := StripSuffix(name, "." + Extension(name));
    assert base <= name;
    base + ".html"
  }

  /** The extension of `stem.ext` is `ext` when `ext` has no dot. */
  lemma ExtensionAfterLastDot(stem: string, ext: string)
    requires '.' !in ext
    ensures Extension(stem + "." + ext) == ext
  {
    var name := stem + "." + ext;
    assert name[|stem|] == '.';
    assert LastIndexOf(name, '.').value == |stem|;
    assert name[|stem| + 1..] == ext;
  }

  /** A name with an extension and a non-empty stem becomes the stem plus ".html". */
  lemma DefaultNameReplacesExtension(stem: string, ext: string)
    requires stem != [] && '.' !in ext
    ensures DefaultTargetName(stem + "." + ext) == stem + ".html"
  {
    var name := stem + "." + ext;
    var suffix := "." + ext;
    ExtensionAfterLastDot(stem, ext);
    assert name == stem + suffix;
    assert name[|stem|..] == suffix && name[..|stem|] == stem;
  }

  /** A name without a dot just gains ".html". */
  lemma DefaultNameWithoutDot(name: string)
    requires '.' !in name
    ensures DefaultTargetName(name) == name + ".html"
  {
    assert |name| > 0 ==> name[|name| - 1..] == [name[|name| - 1]];
  }

  /** A name whose only dot is its first character (".htaccess") keeps it whole. */
  lemma DefaultNameOfDotFile(ext: string)
    requires '.' !in ext
    ensures DefaultTargetName("." + ext) == "." + ext + ".html"
  {
    var name := "." + ext;
    assert name[0] == '.';
    var i := LastIndexOf(name, '.').value;
    assert i == 0;
    assert name[1..] == ext;
  }

  // ---------------------------------------------------------------------------
  // Worked examples
  // ---------------------------------------------------------------------------

  /** Only the first heading counts; the second "# " line is ignored. */
  lemma FirstOfTwoHeadings()
    ensures ExtractTitle("# " + "Hello World" + "\n" + "Body text\n# Second Heading\n") == "Hello World"
  {
    FirstHeadingWins("", "Hello World", "Body text\n# Second Heading\n");
    assert "" + Marker == Marker;
  }

  /** The pattern is not anchored: a second-level heading gives its text as title. */
  lemma SubheadingMatches()
    ensures ExtractTitle("#" + "# " + "Notes" + "\n") == "Notes"
  {
    FirstHeadingWins("#", "Notes", "");
    assert "#" + Marker + "Notes" + "\n" + "" == "#" + Marker + "Notes" + "\n";
  }

  /** The pattern is not anchored: "# " in the middle of a line starts the title. */
  lemma MidLineMarkerMatches()
    ensures ExtractTitle("Written in C" + "# " + "today" + "\n") == "today"
  {
    var before := "Written in C";
    assert Marker[0] == '#' && '#' !in before;
    forall j | 0 <= j < |before| ensures !Occurs(before, Marker, j) {
      assert before[j] in before;
    }
    FirstHeadingWins(before, "today", "");
    assert before + Marker + "today" + "\n" + "" == before + Marker + "today" + "\n";
  }

  /** The placeholder in a typical head fragment. */
  lemma TitleInHead()
    ensures ReplaceAll("<head><title>" + TitleToken + "</title></head>", TitleToken, "Demo")
      == "<head><title>" + "Demo" + "</title></head>"
  {
    var before, after := "<head><title>", "</title></head>";
    var s := before + TitleToken + after;
    assert TitleToken[0] == '{' && '{' !in before && '{' !in after;
    forall j | 0 <= j < |before| ensures !Occurs(s, TitleToken, j) {
      assert s[j] == before[j] && before[j] in before;
    }
    forall j | 0 <= j < |after| ensures !Occurs(after, TitleToken, j) {
      assert after[j] in after;
    }
    ReplaceOne(before, TitleToken, after, "Demo");
  }

  /** "notes.md" becomes "notes.html". */
  lemma NotesToHtml()
    ensures DefaultTargetName("notes" + "." + "md") == "notes" + ".html"
  {
    assert '.' !in "md";
    DefaultNameReplacesExtension("notes", "md");
  }
}
