/** The two line filters of the script: the installed-extension listing
    (`GetInstalledExtensionsList`, vscode/scripts/install_extensions.py lines
    31-51) and the manifest reader (`list_extensions_file_context`, lines
    110-123). The external listing command and the file reads are inputs:
    their lines are given. */
module Listing {
  import opened Common
  import opened Text
  import opened Identity

  /** `[a-zA-Z0-9_.-]` */
  predicate IsIdChar(c: char) {
    'a' <= c <= 'z' || 'A' <= c <= 'Z' || '0' <= c <= '9' || c == '_' || c == '.' || c == '-'
  }

  /** `[0-9.]` */
  predicate IsVersionChar(c: char) {
    '0' <= c <= '9' || c == '.'
  }

  predicate AllIdChars(s: string) {
    forall i :: 0 <= i < |s| ==> IsIdChar(s[i])
  }

  predicate AllVersionChars(s: string) {
    forall i :: 0 <= i < |s| ==> IsVersionChar(s[i])
  }

  /** `re.match("^([a-zA-Z0-9_.-]+)@([0-9.]+)$", s)` on a stripped line (so
      the `$`-before-final-newline case of Python's `re` cannot arise): a
      non-empty run of identity characters, `@`, a non-empty run of digits
      and dots. */
  predicate MatchesInstalledPattern(s: string) {
    exists k :: 0 < k < |s| - 1 && s[k] == '@' && AllIdChars(s[..k]) && AllVersionChars(s[k + 1..])
  }

  /** Line 37's condition: `line.strip()` is not empty. */
  predicate StripsToText(line: string) {
    Strip(line) != ""
  }

  /** `extensions = [line.strip() for line in result if line.strip()]` */
  function NonEmptyStripped(lines: seq<string>): seq<string> {
    FilterMap(lines, StripsToText, Strip)
  }

  /** A raw output line that survives both stages of the listing filter. */
  predicate IsInstalledLine(line: string) {
    Strip(line) != "" && MatchesInstalledPattern(Strip(line))
  }

  /** What `GetInstalledExtensionsList` returns for the command output
      `lines`. */
  function InstalledLines(lines: seq<string>): seq<string> {
    FilterMap(lines, IsInstalledLine, Strip)
  }

  /** `GetInstalledExtensionsList()` with the output of `code
      --list-extensions --show-versions` given as `output`: strip, drop empty
      lines, then append each line that matches the pattern. */
  method GetInstalledExtensionsList(output: seq<string>) returns (valid: seq<string>)
    ensures valid == InstalledLines(output)
    ensures forall e :: e in valid ==> e != "" && IsStripped(e) && MatchesInstalledPattern(e)
  {
    var extensions := NonEmptyStripped(output);
    valid := [];
    for i := 0 to |extensions|
      invariant valid == Filter(extensions[..i], MatchesInstalledPattern)
    {
      FilterSnoc(extensions, i, MatchesInstalledPattern);
      if MatchesInstalledPattern(extensions[i]) {
        valid := valid + [extensions[i]];
      }
    }
    assert extensions[..|extensions|] == extensions;
    InstalledLinesInStages(output);
  }

  /** The two stages together keep exactly the installed lines. */
  lemma InstalledLinesInStages(output: seq<string>)
    ensures Filter(NonEmptyStripped(output), MatchesInstalledPattern) == InstalledLines(output)
    ensures forall e :: e in InstalledLines(output) ==> e != "" && IsStripped(e) && MatchesInstalledPattern(e)
  {
    FilterOfFilterMap(output, StripsToText, Strip, MatchesInstalledPattern, IsInstalledLine);
    InstalledLinesFacts(output);
  }

  // ---------------------------------------------------------------------
  // The pattern

  /** Building a line from the two runs the pattern describes matches it. */
  lemma PatternOfParts(id: string, ver: string)
    requires id != [] && AllIdChars(id) && ver != [] && AllVersionChars(ver)
    ensures MatchesInstalledPattern(id + "@" + ver)
  {
    var s := id + "@" + ver;
    assert s[..|id|] == id && s[|id| + 1..] == ver && s[|id|] == '@';
  }

  lemma IdCharsHaveNoAt(s: string)
    requires AllIdChars(s)
    ensures '@' !in s
  {
    forall i | 0 <= i < |s| ensures s[i] != '@' { assert IsIdChar(s[i]); }
  }

  lemma VersionCharsHaveNoAt(s: string)
    requires AllVersionChars(s)
    ensures '@' !in s
  {
    forall i | 0 <= i < |s| ensures s[i] != '@' { assert IsVersionChar(s[i]); }
  }

  /** A matching line holds exactly one `@`; the piece before it is a
      non-empty run of identity characters and the piece after it a
      non-empty run of digits and dots. */
  lemma PartsOfPattern(s: string)
    requires MatchesInstalledPattern(s)
    ensures |Split(s, '@')| == 2
    ensures Split(s, '@')[0] != [] && AllIdChars(Split(s, '@')[0])
    ensures Split(s, '@')[1] != [] && AllVersionChars(Split(s, '@')[1])
    ensures s == Split(s, '@')[0] + "@" + Split(s, '@')[1]
  {
    var k :| 0 < k < |s| - 1 && s[k] == '@' && AllIdChars(s[..k]) && AllVersionChars(s[k + 1..]);
    var id, ver := s[..k], s[k + 1..];
    assert s == id + ['@'] + ver;
    IdCharsHaveNoAt(id);
    VersionCharsHaveNoAt(ver);
    SplitAtFirst(id, '@', ver);
    SplitNone(ver, '@');
  }

  // ---------------------------------------------------------------------
  // The installed-line filter

  /** The result keeps the input order, and each kept line is a stripped,
      non-empty line of the output that matches the pattern; every such
      line is kept. */
  lemma InstalledLinesFacts(lines: seq<string>)
    ensures IsSubsequence(InstalledLines(lines), Map(lines, Strip))
    ensures forall e :: e in InstalledLines(lines) ==>
      e != "" && IsStripped(e) && MatchesInstalledPattern(e) && exists l :: l in lines && e == Strip(l)
    ensures forall l :: l in lines && IsInstalledLine(l) ==> Strip(l) in InstalledLines(lines)
  {
    FilterMapIsSubsequence(lines, IsInstalledLine, Strip);
    FilterMapMembers(lines, IsInstalledLine, Strip);
  }

  /** Every kept line has exactly one `@`, followed by a non-empty run of
      digits and dots. */
  lemma InstalledLineShape(lines: seq<string>, e: string)
    requires e in InstalledLines(lines)
    ensures |Split(e, '@')| == 2
    ensures Split(e, '@')[1] != [] && AllVersionChars(Split(e, '@')[1])
  {
    InstalledLinesFacts(lines);
    PartsOfPattern(e);
  }

  /** Filtering is line by line: the result for a concatenation is the
      concatenation of the results. */
  lemma InstalledLinesAppend(a: seq<string>, b: seq<string>)
    ensures InstalledLines(a + b) == InstalledLines(a) + InstalledLines(b)
  {
    FilterMapAppend(a, b, IsInstalledLine, Strip);
  }

  lemma InstalledLinesOne(line: string)
    ensures InstalledLines([line]) == if IsInstalledLine(line) then [Strip(line)] else []
  {
    assert [line][1..] == [];
  }

  lemma StripOfPlain(s: string)
    requires IsStripped(s)
    ensures Strip(s) == s
  {
    StripUnique([], s, []);
    assert [] + s + [] == s;
  }

  /** A stripped line made of an identity run, `@` and a version run is kept
      as it is. */
  lemma KeptAsIs(id: string, ver: string)
    requires id != [] && AllIdChars(id) && ver != [] && AllVersionChars(ver)
    ensures InstalledLines([id + "@" + ver]) == [id + "@" + ver]
  {
    var s := id + "@" + ver;
    assert !IsSpace(s[0]) by { assert s[0] == id[0] && IsIdChar(id[0]); }
    assert !IsSpace(s[|s| - 1]) by { assert s[|s| - 1] == ver[|ver| - 1] && IsVersionChar(ver[|ver| - 1]); }
    StripOfPlain(s);
    PatternOfParts(id, ver);
    InstalledLinesOne(s);
  }

  /** A line without `@` is dropped, whatever whitespace (such as the
      trailing newline `readlines()` keeps) surrounds it. */
  lemma DroppedWithoutAt(line: string)
    requires '@' !in line
    ensures InstalledLines([line]) == []
  {
    var i, j :| 0 <= i <= j <= |line| && Strip(line) == line[i..j];
    assert '@' !in Strip(line) by {
      forall k | 0 <= k < |Strip(line)| ensures Strip(line)[k] != '@' {
        assert Strip(line)[k] == line[i + k];
      }
    }
    InstalledLinesOne(line);
  }

  /** A kept line need not contain a `.` before its `@` (`ab@1` is one):
      such a line is listed, yet `ExtensionInfo` raises on it. */
  lemma InstalledLineWithoutDot(id: string, ver: string)
    requires id != [] && AllIdChars(id) && '.' !in id
    requires ver != [] && AllVersionChars(ver)
    ensures InstalledLines([id + "@" + ver]) == [id + "@" + ver]
    ensures !Parseable(id + "@" + ver)
  {
    KeptAsIs(id, ver);
    assert '@' !in id by {
      forall i | 0 <= i < |id| ensures id[i] != '@' { assert IsIdChar(id[i]); }
    }
    SplitAtFirst(id, '@', ver);
    assert id + "@" + ver == id + ['@'] + ver;
  }

  /** The round trip that the script's test asserts for every installed line
      (`str(ExtensionInfo(ext)) == ext`) holds when the line is lower-case
      and its identity part has exactly one `.`. */
  lemma InstalledRoundTrip(lines: seq<string>, e: string)
    requires e in InstalledLines(lines)
    requires IsLower(e) && |Split(IdPart(e), '.')| == 2
    ensures Parseable(e) && Render(Parse(e)) == e
  {
    assert MatchesInstalledPattern(e) by { InstalledLinesFacts(lines); }
    PartsOfPattern(e);
    var id, ver := Split(e, '@')[0], Split(e, '@')[1];
    var v, n := Split(id, '.')[0], Split(id, '.')[1];
    assert id == v + "." + n by {
      JoinSplit(id, '.');
      assert Split(id, '.')[1..] == [n];
    }
    assert '@' !in v && '@' !in n by {
      SplitPieceAvoids(id, '.', '@', 0);
      SplitPieceAvoids(id, '.', '@', 1);
    }
    LowerPieces(e, v, n, ver);
    RenderParseVersioned(v, n, ver);
  }

  lemma LowerPieces(e: string, v: string, n: string, ver: string)
    requires e == v + "." + n + "@" + ver && IsLower(e)
    ensures IsLower(v) && IsLower(n)
  {
    forall i | 0 <= i < |v| ensures !('A' <= v[i] <= 'Z') { assert v[i] == e[i]; }
    forall i | 0 <= i < |n| ensures !('A' <= n[i] <= 'Z') { assert n[i] == e[|v| + 1 + i]; }
  }

  /** The first piece of a split is a prefix of the string. */
  lemma FirstPieceIsPrefix(s: string, sep: char)
    ensures |Split(s, sep)[0]| <= |s| && s[..|Split(s, sep)[0]|] == Split(s, sep)[0]
  {
    var parts := Split(s, sep);
    JoinSplit(s, sep);
    if |parts| > 1 {
      assert s == parts[0] + ([sep] + Join(parts[1..], sep));
    }
  }

  /** It fails whenever the vendor piece has an upper-case letter, as in
      `EFanZh.graphviz-preview@1.7.2`, the example in the script's own
      comment: the regular expression admits upper case, `ExtensionInfo`
      lower-cases it. */
  lemma InstalledRoundTripFailsOnUpperCase(e: string)
    requires Parseable(e) && !IsLower(Split(IdPart(e), '.')[0])
    ensures Render(Parse(e)) != e
  {
    var v := Split(IdPart(e), '.')[0];
    FirstPieceIsPrefix(e, '@');
    FirstPieceIsPrefix(IdPart(e), '.');
    assert e[..|v|] == v;
    var i :| 0 <= i < |v| && 'A' <= v[i] <= 'Z';
    var r := Render(Parse(e));
    assert Parse(e).vendor == Lower(v);
    assert r[i] == Lower(v)[i];
    assert r[i] != e[i];
  }

  // ---------------------------------------------------------------------
  // The manifest filter

  /** Line 121's condition: the stripped line is not empty and the line as
      read does not start with `#`. */
  predicate IsManifestLine(line: string) {
    Strip(line) != "" && !StartsWith(line, "#")
  }

  /** `[line.strip() for line in lines if line.strip() and not line.startswith("#")]` */
  function ManifestEntries(lines: seq<string>): seq<string> {
    FilterMap(lines, IsManifestLine, Strip)
  }

  /** `list_extensions_file_context(file)`, with the file's lines given, or
      `None` when the file does not exist (then the result is empty). */
  function ListExtensionsFileContext(file: Option<seq<string>>): (entries: seq<string>)
    ensures file.None? ==> entries == []
    ensures forall e :: e in entries ==> e != "" && IsStripped(e)
  {
    match file
    case None => []
    case Some(lines) => ManifestEntriesFacts(lines); ManifestEntries(lines)
  }

  /** Every entry is stripped and non-empty, the input order is kept, and a
      line is represented exactly when it passes line 121's test. */
  lemma ManifestEntriesFacts(lines: seq<string>)
    ensures IsSubsequence(ManifestEntries(lines), Map(lines, Strip))
    ensures forall e :: e in ManifestEntries(lines) ==>
      e != "" && IsStripped(e) && exists l :: l in lines && IsManifestLine(l) && e == Strip(l)
    ensures forall l :: l in lines && IsManifestLine(l) ==> Strip(l) in ManifestEntries(lines)
  {
    FilterMapIsSubsequence(lines, IsManifestLine, Strip);
    FilterMapMembers(lines, IsManifestLine, Strip);
  }

  lemma ManifestEntriesOne(line: string)
    ensures ManifestEntries([line]) == if IsManifestLine(line) then [Strip(line)] else []
  {
    assert [line][1..] == [];
  }

  /** The entries of `before + [line] + after` are those of `before`, then
      the line's own, then those of `after`. */
  lemma ManifestEntriesAround(before: seq<string>, line: string, after: seq<string>)
    ensures ManifestEntries(before + [line] + after)
         == ManifestEntries(before) + ManifestEntries([line]) + ManifestEntries(after)
  {
    FilterMapAppend(before + [line], after, IsManifestLine, Strip);
    FilterMapAppend(before, [line], IsManifestLine, Strip);
  }

  /** A line whose first character is `#` contributes nothing, wherever it
      stands. */
  lemma CommentLineDropped(before: seq<string>, line: string, after: seq<string>)
    requires |line| > 0 && line[0] == '#'
    ensures ManifestEntries(before + [line] + after) == ManifestEntries(before) + ManifestEntries(after)
  {
    assert !IsManifestLine(line) by { assert line[..1] == "#"; }
    ManifestEntriesOne(line);
    ManifestEntriesAround(before, line, after);
  }

  /** An indented comment is not a comment: it is kept, stripped. */
  lemma IndentedCommentKept(before: seq<string>, indent: string, comment: string, after: seq<string>)
    requires indent != [] && AllSpace(indent) && comment != [] && comment[0] == '#' && IsStripped(comment)
    ensures ManifestEntries(before + [indent + comment] + after)
         == ManifestEntries(before) + [comment] + ManifestEntries(after)
  {
    var line := indent + comment;
    assert Strip(line) == comment by {
      StripUnique(indent, comment, []);
      assert indent + comment + [] == line;
    }
    assert !StartsWith(line, "#") by { assert line[..1][0] == indent[0]; }
    ManifestEntriesOne(line);
    ManifestEntriesAround(before, line, after);
  }

  /** A line that is blank after stripping contributes nothing. */
  lemma BlankLineDropped(before: seq<string>, line: string, after: seq<string>)
    requires AllSpace(line)
    ensures ManifestEntries(before + [line] + after) == ManifestEntries(before) + ManifestEntries(after)
  {
    StripEmpty(line);
    ManifestEntriesOne(line);
    ManifestEntriesAround(before, line, after);
  }

  /** Any other line contributes its stripped form, e.g. ` a.b@1.0 ` gives
      `a.b@1.0`. */
  lemma EntryLineKept(before: seq<string>, lead: string, entry: string, trail: string, after: seq<string>)
    requires AllSpace(lead) && AllSpace(trail) && IsStripped(entry) && entry != []
    requires lead == [] ==> entry[0] != '#'
    ensures ManifestEntries(before + [lead + entry + trail] + after)
         == ManifestEntries(before) + [entry] + ManifestEntries(after)
  {
    var line := lead + entry + trail;
    StripUnique(lead, entry, trail);
    assert !StartsWith(line, "#") by {
      if lead == [] { assert line[0] == entry[0]; } else { assert line[0] == lead[0]; }
    }
    ManifestEntriesOne(line);
    ManifestEntriesAround(before, line, after);
  }
}
