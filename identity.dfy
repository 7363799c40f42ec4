/** `ExtensionInfo`: an extension identity `vendor.name[@version]` parsed
    from text, its two-level equality and its rendering
    (vscode/scripts/install_extensions.py, lines 10-28). */
module Identity {
  import opened Common
  import opened Text

  /** `version` is `None` when the text has no `@`; it may be `Some("")`. */
  datatype ExtensionInfo = ExtensionInfo(vendor: string, name: string, version: Option<string>)

  /** `name.split("@")[0]`: the text before the first `@`. */
  function IdPart(s: string): string {
    Split(s, '@')[0]
  }

  /** The constructor raises (`split(".")[1]` is out of range) unless a `.`
      occurs before the first `@`. */
  predicate Parseable(s: string) {
    '.' in IdPart(s)
  }

  /** `ExtensionInfo(s)`: the version is the piece between the first and the
      second `@`; the vendor is the piece before the first `.` of the text
      before `@`, the name the piece between its first and second `.`; vendor
      and name are lower-cased, the version is kept as written. */
  function Parse(s: string): (r: ExtensionInfo)
    requires Parseable(s)
    ensures IsLower(r.vendor) && IsLower(r.name)
    ensures '.' !in r.vendor && '@' !in r.vendor && '.' !in r.name && '@' !in r.name
    ensures r.version.Some? <==> '@' in s
    ensures r.version.Some? ==> '@' !in r.version.value
  {
    var version := if '@' in s then Some(Split(s, '@')[1]) else None;
    var fields := Split(IdPart(s), '.');
    assert '@' !in fields[0] && '@' !in fields[1] by {
      SplitPieceAvoids(IdPart(s), '.', '@', 0);
      SplitPieceAvoids(IdPart(s), '.', '@', 1);
    }
    LowerAvoids(fields[0], '.');
    LowerAvoids(fields[0], '@');
    LowerAvoids(fields[1], '.');
    LowerAvoids(fields[1], '@');
    ExtensionInfo(Lower(fields[0]), Lower(fields[1]), version)
  }

  /** `equals(other, is_compare_version)`: vendor and name always, the
      version only when asked to. */
  predicate Equals(a: ExtensionInfo, b: ExtensionInfo, compareVersion: bool) {
    a.vendor == b.vendor && a.name == b.name && (compareVersion ==> a.version == b.version)
  }

  /** `get_without_version()` */
  function WithoutVersion(a: ExtensionInfo): string {
    a.vendor + "." + a.name
  }

  /** `__repr__`: `vendor.name@version` when the version is present and not
      empty (Python truthiness), otherwise `vendor.name`. */
  function Render(a: ExtensionInfo): string {
    if a.version.Some? && a.version.value != "" then WithoutVersion(a) + "@" + a.version.value
    else WithoutVersion(a)
  }

  /** What `Parse` can produce and `Render` writes back unchanged. */
  predicate WellFormed(a: ExtensionInfo) {
    && IsLower(a.vendor) && IsLower(a.name)
    && '.' !in a.vendor && '@' !in a.vendor && '.' !in a.name && '@' !in a.name
    && (a.version.Some? ==> a.version.value != "" && '@' !in a.version.value)
  }

  // ---------------------------------------------------------------------
  // Helpers about the string pieces

  lemma LowerAvoids(s: string, c: char)
    requires c !in s && !('A' <= c <= 'Z') && !('a' <= c <= 'z')
    ensures c !in Lower(s)
  {
  }

  lemma {:induction false} SplitPieceAvoids(s: string, sep: char, c: char, k: nat)
    requires c !in s && k < |Split(s, sep)|
    ensures c !in Split(s, sep)[k]
    decreases |s|
  {
    if s != [] {
      var rest := Split(s[1..], sep);
      assert c !in s[1..];
      if s[0] == sep {
        if k > 0 {
          SplitPieceAvoids(s[1..], sep, c, k - 1);
        }
      } else if k == 0 {
        SplitPieceAvoids(s[1..], sep, c, 0);
        assert Split(s, sep)[0] == [s[0]] + rest[0];
      } else {
        SplitPieceAvoids(s[1..], sep, c, k);
      }
    }
  }

  /** The first piece of `a + b` is `a` when `a` has no separator and `b` is
      empty or starts with one. */
  lemma FirstPiece(a: string, sep: char, b: string)
    requires sep !in a && (b == [] || b[0] == sep)
    ensures Split(a + b, sep)[0] == a
  {
    if b == [] {
      assert a + b == a;
      SplitNone(a, sep);
    } else {
      assert a + b == a + [sep] + b[1..];
      SplitAtFirst(a, sep, b[1..]);
    }
  }

  // ---------------------------------------------------------------------
  // What Parse reads out of a string of known shape

  /** `vendor.name` followed by further `.` pieces and no `@`: everything
      after the second `.` is dropped, and there is no version. */
  lemma ParseWithoutVersion(v: string, n: string, more: string)
    requires '.' !in v && '.' !in n
    requires '@' !in v && '@' !in n && '@' !in more
    requires more == [] || more[0] == '.'
    ensures Parseable(v + "." + n + more)
    ensures Parse(v + "." + n + more) == ExtensionInfo(Lower(v), Lower(n), None)
  {
    var s := v + "." + n + more;
    assert '@' !in s;
    SplitNone(s, '@');
    assert IdPart(s) == s;
    assert s == v + ['.'] + (n + more);
    SplitAtFirst(v, '.', n + more);
    FirstPiece(n, '.', more);
  }

  /** `vendor.name...@version...`: the version is the piece up to the next
      `@`, whatever follows it is dropped. */
  lemma ParseWithVersion(v: string, n: string, more: string, ver: string, rest: string)
    requires '.' !in v && '.' !in n
    requires '@' !in v && '@' !in n && '@' !in more && '@' !in ver
    requires more == [] || more[0] == '.'
    requires rest == [] || rest[0] == '@'
    ensures Parseable(v + "." + n + more + "@" + ver + rest)
    ensures Parse(v + "." + n + more + "@" + ver + rest) == ExtensionInfo(Lower(v), Lower(n), Some(ver))
  {
    var id := v + "." + n + more;
    var s := id + "@" + ver + rest;
    assert s == id + ['@'] + (ver + rest);
    assert '@' !in id;
    SplitAtFirst(id, '@', ver + rest);
    FirstPiece(ver, '@', rest);
    assert IdPart(s) == id;
    assert id == v + ['.'] + (n + more);
    SplitAtFirst(v, '.', n + more);
    FirstPiece(n, '.', more);
  }

  // ---------------------------------------------------------------------
  // Round trips

  /** Rendering a well-formed identity and parsing the text gives the
      identity back. */
  lemma ParseRender(a: ExtensionInfo)
    requires WellFormed(a)
    ensures Parseable(Render(a)) && Parse(Render(a)) == a
  {
    if a.version.Some? {
      ParseWithVersion(a.vendor, a.name, "", a.version.value, "");
      assert Render(a) == a.vendor + "." + a.name + "" + "@" + a.version.value + "";
    } else {
      ParseWithoutVersion(a.vendor, a.name, "");
      assert Render(a) == a.vendor + "." + a.name + "";
    }
  }

  /** `str(ExtensionInfo("v.n@ver")) == "v.n@ver"` for a lower-case vendor
      and name without `.` or `@` and a non-empty version without `@`. */
  lemma RenderParseVersioned(v: string, n: string, ver: string)
    requires IsLower(v) && IsLower(n) && '.' !in v && '.' !in n && '@' !in v && '@' !in n
    requires ver != [] && '@' !in ver
    ensures Parseable(v + "." + n + "@" + ver)
    ensures Render(Parse(v + "." + n + "@" + ver)) == v + "." + n + "@" + ver
  {
    ParseWithVersion(v, n, "", ver, "");
    assert v + "." + n + "" + "@" + ver + "" == v + "." + n + "@" + ver;
  }

  /** `str(ExtensionInfo("v.n")) == "v.n"` under the same conditions. */
  lemma RenderParseUnversioned(v: string, n: string)
    requires IsLower(v) && IsLower(n) && '.' !in v && '.' !in n && '@' !in v && '@' !in n
    ensures Parseable(v + "." + n)
    ensures Render(Parse(v + "." + n)) == v + "." + n
  {
    ParseWithoutVersion(v, n, "");
    assert v + "." + n + "" == v + "." + n;
  }

  /** An empty version (`"v.n@"`) is kept as `Some("")` but rendered as
      `"v.n"`. */
  lemma RenderParseEmptyVersion(v: string, n: string)
    requires IsLower(v) && IsLower(n) && '.' !in v && '.' !in n && '@' !in v && '@' !in n
    ensures Parseable(v + "." + n + "@")
    ensures Parse(v + "." + n + "@").version == Some("")
    ensures Render(Parse(v + "." + n + "@")) == v + "." + n
  {
    ParseWithVersion(v, n, "", "", "");
    assert v + "." + n + "" + "@" + "" + "" == v + "." + n + "@";
  }

  /** `a.b.c` loses its third piece: it parses like `a.b`. */
  lemma ParseDropsThirdPiece()
    ensures Parseable("a.b.c") && Parse("a.b.c") == ExtensionInfo("a", "b", None)
    ensures Render(Parse("a.b.c")) == "a.b"
  {
    ParseWithoutVersion("a", "b", ".c");
    assert "a" + "." + "b" + ".c" == "a.b.c";
  }

  // ---------------------------------------------------------------------
  // Equality

  /** `equals` is reflexive and symmetric for either flag, and equality with
      the version implies equality without it. */
  lemma EqualsIsEquivalence(a: ExtensionInfo, b: ExtensionInfo, c: ExtensionInfo, compareVersion: bool)
    ensures Equals(a, a, compareVersion)
    ensures Equals(a, b, compareVersion) == Equals(b, a, compareVersion)
    ensures Equals(a, b, compareVersion) && Equals(b, c, compareVersion) ==> Equals(a, c, compareVersion)
    ensures Equals(a, b, true) ==> Equals(a, b, false)
  {
  }

  /** Without the version, two parsed identities are equal exactly when
      `get_without_version()` gives the same text. */
  lemma {:induction false} NameEqualityIsTextEquality(a: ExtensionInfo, b: ExtensionInfo)
    requires '.' !in a.vendor && '.' !in a.name && '.' !in b.vendor && '.' !in b.name
    ensures Equals(a, b, false) <==> WithoutVersion(a) == WithoutVersion(b)
  {
    if WithoutVersion(a) == WithoutVersion(b) {
      assert WithoutVersion(a) == Join([a.vendor, a.name], '.');
      assert WithoutVersion(b) == Join([b.vendor, b.name], '.');
      SplitJoin([a.vendor, a.name], '.');
      SplitJoin([b.vendor, b.name], '.');
    }
  }

  /** Equal renderings do not make equal identities: `v.n@` and `v.n` both
      render as `v.n`, yet `equals` with the version tells them apart. */
  lemma EmptyVersionIsNotAbsentVersion(v: string, n: string)
    requires IsLower(v) && IsLower(n) && '.' !in v && '.' !in n && '@' !in v && '@' !in n
    ensures Parseable(v + "." + n + "@") && Parseable(v + "." + n)
    ensures Render(Parse(v + "." + n + "@")) == Render(Parse(v + "." + n))
    ensures !Equals(Parse(v + "." + n + "@"), Parse(v + "." + n), true)
  {
    RenderParseEmptyVersion(v, n);
    RenderParseUnversioned(v, n);
    ParseWithoutVersion(v, n, "");
    assert v + "." + n + "" == v + "." + n;
  }
}
