/** `ExtensionInstaller` and `GroupExtensionsInstallDetail` and the two
    install handlers (vscode/scripts/install_extensions.py lines 54-138 and
    161-220). Running `code --install-extension` is modelled by appending
    the command line to the installer's `issued` trace. */
module Installer {
  import opened Common
  import opened Text
  import opened Identity
  import opened Listing
  import opened Settings

  predicate AllParseable(exts: seq<string>) {
    forall e :: e in exts ==> Parseable(e)
  }

  lemma TailParseable(exts: seq<string>)
    requires AllParseable(exts) && exts != []
    ensures AllParseable(exts[1..])
  {
    assert forall e :: e in exts[1..] ==> e in exts;
  }

  /** `[ExtensionInfo(ext) for ext in exts]` */
  function ParseAll(exts: seq<string>): (r: seq<ExtensionInfo>)
    requires AllParseable(exts)
    ensures |r| == |exts|
    ensures forall i :: 0 <= i < |exts| ==> r[i] == Parse(exts[i])
  {
    seq(|exts|, i requires 0 <= i < |exts| => Parse(exts[i]))
  }

  // ---------------------------------------------------------------------
  // Lookup in the installed list (lines 63-69)

  /** `[ext for ext in installed if ext.equals(extension, is_compare_version)]` */
  function Matching(installed: seq<ExtensionInfo>, extension: ExtensionInfo, compareVersion: bool): seq<ExtensionInfo> {
    Filter(installed, x => Equals(x, extension, compareVersion))
  }

  /** `is_installed`: the list of matches is not empty. */
  predicate IsInstalledIn(installed: seq<ExtensionInfo>, extension: ExtensionInfo, compareVersion: bool) {
    |Matching(installed, extension, compareVersion)| > 0
  }

  /** `get_installed_extension`: the first match, or `None`. */
  function FirstMatch(installed: seq<ExtensionInfo>, extension: ExtensionInfo, compareVersion: bool): Option<ExtensionInfo> {
    var matches := Matching(installed, extension, compareVersion);
    if |matches| > 0 then Some(matches[0]) else None
  }

  /** `is_installed` holds exactly when some installed entry `equals` the
      extension. */
  lemma IsInstalledMeaning(installed: seq<ExtensionInfo>, extension: ExtensionInfo, compareVersion: bool)
    ensures IsInstalledIn(installed, extension, compareVersion)
        <==> exists i :: 0 <= i < |installed| && Equals(installed[i], extension, compareVersion)
  {
    var p := x => Equals(x, extension, compareVersion);
    if exists i :: 0 <= i < |installed| && Equals(installed[i], extension, compareVersion) {
      var i :| 0 <= i < |installed| && Equals(installed[i], extension, compareVersion);
      assert p(installed[i]) && installed[i] in Filter(installed, p);
    }
    if IsInstalledIn(installed, extension, compareVersion) {
      var x := Filter(installed, p)[0];
      assert x in Filter(installed, p);
      var i :| 0 <= i < |installed| && installed[i] == x;
      assert Equals(installed[i], extension, compareVersion);
    }
  }

  /** Installed with the version implies installed without it. */
  lemma InstalledImpliesNameInstalled(installed: seq<ExtensionInfo>, extension: ExtensionInfo)
    requires IsInstalledIn(installed, extension, true)
    ensures IsInstalledIn(installed, extension, false)
  {
    IsInstalledMeaning(installed, extension, true);
    IsInstalledMeaning(installed, extension, false);
  }

  /** `get_installed_extension` returns an entry exactly when
      `is_installed` holds, and then it is the first installed entry that
      `equals` the extension. */
  lemma {:induction false} FirstMatchIsFirst(installed: seq<ExtensionInfo>, extension: ExtensionInfo, compareVersion: bool)
    ensures FirstMatch(installed, extension, compareVersion).Some? <==> IsInstalledIn(installed, extension, compareVersion)
    ensures FirstMatch(installed, extension, compareVersion).Some? ==>
      exists i :: 0 <= i < |installed| && installed[i] == FirstMatch(installed, extension, compareVersion).value
        && Equals(installed[i], extension, compareVersion)
        && forall j :: 0 <= j < i ==> !Equals(installed[j], extension, compareVersion)
    decreases |installed|
  {
    if installed != [] && !Equals(installed[0], extension, compareVersion) {
      FirstMatchIsFirst(installed[1..], extension, compareVersion);
      assert Matching(installed, extension, compareVersion) == Matching(installed[1..], extension, compareVersion);
      if FirstMatch(installed, extension, compareVersion).Some? {
        var i :| 0 <= i < |installed[1..]| && installed[1..][i] == FirstMatch(installed, extension, compareVersion).value
          && Equals(installed[1..][i], extension, compareVersion)
          && forall j :: 0 <= j < i ==> !Equals(installed[1..][j], extension, compareVersion);
        assert forall j :: 0 <= j < i + 1 ==> !Equals(installed[j], extension, compareVersion) by {
          forall j | 0 <= j < i + 1 ensures !Equals(installed[j], extension, compareVersion) {
            if j > 0 { assert installed[j] == installed[1..][j - 1]; }
          }
        }
      }
    } else if installed != [] {
      assert Matching(installed, extension, compareVersion)[0] == installed[0];
    }
  }

  // ---------------------------------------------------------------------
  // Install commands

  /** A `code --install-extension <target>` invocation. */
  datatype Command = InstallCmd(target: string)

  /** The text of the command line. */
  function CommandLine(c: Command): string {
    "code --install-extension " + c.target
  }

  /** The command `install_extension` runs: `str(extension)` is the
      target. */
  function InstallCommand(extension: ExtensionInfo): Command {
    InstallCmd(Render(extension))
  }

  /** What one `install_extension` call issues: nothing when the extension
      is installed with this very version, else its command. */
  function InstallStep(installed: seq<ExtensionInfo>, extension: ExtensionInfo): seq<Command> {
    if IsInstalledIn(installed, extension, true) then [] else [InstallCommand(extension)]
  }

  /** `[InstallCommand(x) for x in exts]` */
  function Commands(exts: seq<ExtensionInfo>): seq<Command> {
    Map(exts, InstallCommand)
  }

  // ---------------------------------------------------------------------
  // The installer object

  class ExtensionInstaller {
    /** `installed_extensions`: parsed from the listing, never updated. */
    var installedExtensions: seq<ExtensionInfo>
    /** `extensions_file_context_dict`: group name (the manifest file's stem)
        to its entries; the file path half of each pair is not modelled. */
    var extensionsFileContext: map<string, seq<string>>
    /** The install commands run so far, in order. */
    var issued: seq<Command>

    /** `ExtensionInstaller()`, given the listing command's output and, per
        group, the manifest file's lines (`None` for a missing file). It
        raises unless every listed line parses. */
    constructor (listOutput: seq<string>, manifestFiles: map<string, Option<seq<string>>>)
      requires AllParseable(InstalledLines(listOutput))
      ensures installedExtensions == ParseAll(InstalledLines(listOutput))
      ensures extensionsFileContext == map g | g in manifestFiles :: ListExtensionsFileContext(manifestFiles[g])
      ensures issued == []
    {
      var lines := GetInstalledExtensionsList(listOutput);
      installedExtensions := ParseAll(lines);
      extensionsFileContext := map g | g in manifestFiles :: ListExtensionsFileContext(manifestFiles[g]);
      issued := [];
    }

    /** `is_installed(extension, is_compare_version)` */
    predicate IsInstalled(extension: ExtensionInfo, compareVersion: bool)
      reads this
      ensures IsInstalled(extension, compareVersion)
          <==> exists i :: 0 <= i < |installedExtensions| && Equals(installedExtensions[i], extension, compareVersion)
    {
      IsInstalledMeaning(installedExtensions, extension, compareVersion);
      IsInstalledIn(installedExtensions, extension, compareVersion)
    }

    /** `get_installed_extension(extension, is_compare_version)` */
    function GetInstalledExtension(extension: ExtensionInfo, compareVersion: bool): (r: Option<ExtensionInfo>)
      reads this
      ensures r.Some? <==> IsInstalled(extension, compareVersion)
      ensures r.Some? ==> r.value in installedExtensions && Equals(r.value, extension, compareVersion)
    {
      FirstMatchIsFirst(installedExtensions, extension, compareVersion);
      FirstMatch(installedExtensions, extension, compareVersion)
    }

    /** `install_extension(extension)`: skips an extension installed with
        this very version, otherwise runs the install command. The
        installed list is not updated. */
    method InstallExtension(extension: ExtensionInfo)
      modifies this`issued
      ensures issued == old(issued) + InstallStep(installedExtensions, extension)
      ensures !IsInstalled(extension, true) ==> issued == old(issued) + [InstallCommand(extension)]
      ensures IsInstalled(extension, true) ==> issued == old(issued)
    {
      if IsInstalled(extension, true) {
        return;
      }
      issued := issued + [InstallCommand(extension)];
    }
  }

  /** Every listed extension counts as installed with its own version once
      the installer is built from that listing. */
  lemma ListedIsInstalled(listOutput: seq<string>, e: string)
    requires AllParseable(InstalledLines(listOutput)) && e in InstalledLines(listOutput)
    ensures IsInstalledIn(ParseAll(InstalledLines(listOutput)), Parse(e), true)
  {
    var lines := InstalledLines(listOutput);
    var i :| 0 <= i < |lines| && lines[i] == e;
    IsInstalledMeaning(ParseAll(lines), Parse(e), true);
    assert Equals(ParseAll(lines)[i], Parse(e), true);
  }

  // ---------------------------------------------------------------------
  // GroupExtensionsInstallDetail (lines 127-138)

  /** Line 132: the entries installed with their exact version. */
  function InstalledCompatible(installed: seq<ExtensionInfo>, exts: seq<string>): (r: seq<string>)
    requires AllParseable(exts)
    ensures forall e :: e in r ==> e in exts
  {
    if exts == [] then []
    else
      (if IsInstalledIn(installed, Parse(exts[0]), true) then [exts[0]] else [])
      + InstalledCompatible(installed, exts[1..])
  }

  /** Line 135 as written: the entries installed under some version whose
      raw text is not in `installExts`, parsed. */
  function VersionIncompatible(installed: seq<ExtensionInfo>, exts: seq<string>, installExts: seq<string>): seq<ExtensionInfo>
    requires AllParseable(exts)
  {
    if exts == [] then []
    else
      (if IsInstalledIn(installed, Parse(exts[0]), false) && exts[0] !in installExts then [Parse(exts[0])] else [])
      + VersionIncompatible(installed, exts[1..], installExts)
  }

  /** Line 138: the entries not installed under any version. */
  function NotInstalled(installed: seq<ExtensionInfo>, exts: seq<string>): (r: seq<string>)
    requires AllParseable(exts)
    ensures forall e :: e in r ==> e in exts
  {
    if exts == [] then []
    else
      (if !IsInstalledIn(installed, Parse(exts[0]), false) then [exts[0]] else [])
      + NotInstalled(installed, exts[1..])
  }

  datatype GroupDetail = GroupDetail(
    installExts: seq<string>,
    installExtsVersionNotCompatible: seq<ExtensionInfo>,
    notInstallExts: seq<string>)

  /** Where a manifest entry stands against the installed list. */
  datatype Status = Compatible | Incompatible | Absent

  function StatusOf(installed: seq<ExtensionInfo>, extension: ExtensionInfo): Status {
    if IsInstalledIn(installed, extension, true) then Compatible
    else if IsInstalledIn(installed, extension, false) then Incompatible
    else Absent
  }

  /** `GroupExtensionsInstallDetail(installer, group)`, reading the group's
      entries with the `group` parameter. It raises for a group without a
      manifest file and for an entry that does not parse. The three lists
      split the manifest: their lengths add up to its length. */
  function GroupExtensionsInstallDetail(installed: seq<ExtensionInfo>, context: map<string, seq<string>>, group: string): (d: GroupDetail)
    requires group in context && AllParseable(context[group])
    ensures |d.installExts| + |d.installExtsVersionNotCompatible| + |d.notInstallExts| == |context[group]|
  {
    var exts := context[group];
    var compatible := InstalledCompatible(installed, exts);
    PartitionSizes(installed, exts);
    GroupDetail(compatible, VersionIncompatible(installed, exts, compatible), NotInstalled(installed, exts))
  }

  // ---------------------------------------------------------------------
  // The partition

  /** Line 135's raw-text test `ext not in install_exts` is the same as
      testing the parsed entry for an exact installed match: an entry is in
      `install_exts` exactly when it is installed with its version. */
  lemma {:induction false} CompatibleMembership(installed: seq<ExtensionInfo>, exts: seq<string>, e: string)
    requires AllParseable(exts) && e in exts
    ensures e in InstalledCompatible(installed, exts) <==> IsInstalledIn(installed, Parse(e), true)
    decreases |exts|
  {
    if exts[0] != e {
      CompatibleMembership(installed, exts[1..], e);
    } else if e in exts[1..] {
      CompatibleMembership(installed, exts[1..], e);
    } else {
      CompatibleAbsent(installed, exts[1..], e);
    }
  }

  lemma {:induction false} CompatibleAbsent(installed: seq<ExtensionInfo>, exts: seq<string>, e: string)
    requires AllParseable(exts) && e !in exts
    ensures e !in InstalledCompatible(installed, exts)
    decreases |exts|
  {
    if exts != [] {
      CompatibleAbsent(installed, exts[1..], e);
    }
  }

  /** The identity-based form of line 135: entries installed under another
      version only. */
  function IncompatibleByStatus(installed: seq<ExtensionInfo>, exts: seq<string>): seq<ExtensionInfo>
    requires AllParseable(exts)
  {
    if exts == [] then []
    else
      (if StatusOf(installed, Parse(exts[0])) == Incompatible then [Parse(exts[0])] else [])
      + IncompatibleByStatus(installed, exts[1..])
  }

  /** Whenever `installExts` holds exactly the exactly-installed entries,
      line 135 as written computes the identity-based list. */
  lemma {:induction false} VersionIncompatibleIsByStatus(installed: seq<ExtensionInfo>, exts: seq<string>, installExts: seq<string>)
    requires AllParseable(exts)
    requires forall e :: e in exts ==> (e in installExts <==> IsInstalledIn(installed, Parse(e), true))
    ensures VersionIncompatible(installed, exts, installExts) == IncompatibleByStatus(installed, exts)
    decreases |exts|
  {
    if exts != [] {
      VersionIncompatibleIsByStatus(installed, exts[1..], installExts);
    }
  }

  /** In particular for the list the source passes. */
  lemma DetailIncompatibleIsByStatus(installed: seq<ExtensionInfo>, exts: seq<string>)
    requires AllParseable(exts)
    ensures VersionIncompatible(installed, exts, InstalledCompatible(installed, exts)) == IncompatibleByStatus(installed, exts)
  {
    forall e | e in exts
      ensures e in InstalledCompatible(installed, exts) <==> IsInstalledIn(installed, Parse(e), true)
    {
      CompatibleMembership(installed, exts, e);
    }
    VersionIncompatibleIsByStatus(installed, exts, InstalledCompatible(installed, exts));
  }

  /** Every entry lands in exactly one list: the three lengths add up to the
      manifest's. */
  lemma {:induction false} PartitionSizes(installed: seq<ExtensionInfo>, exts: seq<string>)
    requires AllParseable(exts)
    ensures |InstalledCompatible(installed, exts)|
          + |VersionIncompatible(installed, exts, InstalledCompatible(installed, exts))|
          + |NotInstalled(installed, exts)| == |exts|
  {
    DetailIncompatibleIsByStatus(installed, exts);
    StatusSizes(installed, exts);
  }

  lemma {:induction false} StatusSizes(installed: seq<ExtensionInfo>, exts: seq<string>)
    requires AllParseable(exts)
    ensures |InstalledCompatible(installed, exts)| + |IncompatibleByStatus(installed, exts)|
          + |NotInstalled(installed, exts)| == |exts|
    decreases |exts|
  {
    if exts != [] {
      StatusSizes(installed, exts[1..]);
      var x := Parse(exts[0]);
      if IsInstalledIn(installed, x, true) {
        InstalledImpliesNameInstalled(installed, x);
      }
    }
  }

  /** Each manifest entry is in exactly the list its status names:
      `install_exts` when installed with its version, the incompatible
      list when installed under another version only, `not_install_exts`
      when not installed at all. */
  lemma PartitionMembership(installed: seq<ExtensionInfo>, exts: seq<string>, e: string)
    requires AllParseable(exts) && e in exts
    ensures e in InstalledCompatible(installed, exts) <==> StatusOf(installed, Parse(e)) == Compatible
    ensures Parse(e) in VersionIncompatible(installed, exts, InstalledCompatible(installed, exts))
        <==> StatusOf(installed, Parse(e)) == Incompatible
    ensures e in NotInstalled(installed, exts) <==> StatusOf(installed, Parse(e)) == Absent
  {
    CompatibleMembership(installed, exts, e);
    DetailIncompatibleIsByStatus(installed, exts);
    IncompatibleMembership(installed, exts, Parse(e));
    NotInstalledMembership(installed, exts, e);
    if IsInstalledIn(installed, Parse(e), true) {
      InstalledImpliesNameInstalled(installed, Parse(e));
    }
  }

  lemma {:induction false} IncompatibleMembership(installed: seq<ExtensionInfo>, exts: seq<string>, x: ExtensionInfo)
    requires AllParseable(exts)
    ensures x in IncompatibleByStatus(installed, exts) ==> StatusOf(installed, x) == Incompatible
    ensures x in IncompatibleByStatus(installed, exts) ==> exists e :: e in exts && Parse(e) == x
    ensures (exists e :: e in exts && Parse(e) == x) && StatusOf(installed, x) == Incompatible
        ==> x in IncompatibleByStatus(installed, exts)
    decreases |exts|
  {
    if exts != [] {
      IncompatibleMembership(installed, exts[1..], x);
      if x in IncompatibleByStatus(installed, exts) && x != Parse(exts[0]) {
        var e :| e in exts[1..] && Parse(e) == x;
        assert e in exts;
      }
      if (exists e :: e in exts && Parse(e) == x) && StatusOf(installed, x) == Incompatible && Parse(exts[0]) != x {
        var e :| e in exts && Parse(e) == x;
        assert e in exts[1..];
      }
    }
  }

  lemma {:induction false} NotInstalledMembership(installed: seq<ExtensionInfo>, exts: seq<string>, e: string)
    requires AllParseable(exts) && e in exts
    ensures e in NotInstalled(installed, exts) <==> !IsInstalledIn(installed, Parse(e), false)
    decreases |exts|
  {
    if exts[0] != e || e in exts[1..] {
      NotInstalledMembership(installed, exts[1..], e);
    } else {
      NotInstalledAbsent(installed, exts[1..], e);
    }
  }

  lemma {:induction false} NotInstalledAbsent(installed: seq<ExtensionInfo>, exts: seq<string>, e: string)
    requires AllParseable(exts) && e !in exts
    ensures e !in NotInstalled(installed, exts)
    decreases |exts|
  {
    if exts != [] {
      NotInstalledAbsent(installed, exts[1..], e);
    }
  }

  /** `install_exts` keeps the manifest order. */
  lemma {:induction false} CompatibleInOrder(installed: seq<ExtensionInfo>, exts: seq<string>)
    requires AllParseable(exts)
    ensures IsSubsequence(InstalledCompatible(installed, exts), exts)
    decreases |exts|
  {
    if exts != [] {
      CompatibleInOrder(installed, exts[1..]);
      var rest := InstalledCompatible(installed, exts[1..]);
      if IsInstalledIn(installed, Parse(exts[0]), true) {
        assert ([exts[0]] + rest)[1..] == rest;
      } else {
        assert InstalledCompatible(installed, exts) == rest;
        SkipHead(rest, exts);
      }
    }
  }

  /** `not_install_exts` keeps the manifest order. */
  lemma {:induction false} NotInstalledInOrder(installed: seq<ExtensionInfo>, exts: seq<string>)
    requires AllParseable(exts)
    ensures IsSubsequence(NotInstalled(installed, exts), exts)
    decreases |exts|
  {
    if exts != [] {
      NotInstalledInOrder(installed, exts[1..]);
      var rest := NotInstalled(installed, exts[1..]);
      if !IsInstalledIn(installed, Parse(exts[0]), false) {
        assert ([exts[0]] + rest)[1..] == rest;
      } else {
        assert NotInstalled(installed, exts) == rest;
        SkipHead(rest, exts);
      }
    }
  }

  /** The incompatible list keeps the manifest order. */
  lemma {:induction false} IncompatibleInOrder(installed: seq<ExtensionInfo>, exts: seq<string>, installExts: seq<string>)
    requires AllParseable(exts)
    ensures IsSubsequence(VersionIncompatible(installed, exts, installExts), ParseAll(exts))
    decreases |exts|
  {
    if exts != [] {
      IncompatibleInOrder(installed, exts[1..], installExts);
      assert ParseAll(exts)[1..] == ParseAll(exts[1..]);
      var rest := VersionIncompatible(installed, exts[1..], installExts);
      if IsInstalledIn(installed, Parse(exts[0]), false) && exts[0] !in installExts {
        assert ([Parse(exts[0])] + rest)[1..] == rest;
      } else {
        assert VersionIncompatible(installed, exts, installExts) == rest;
        SkipHead(rest, ParseAll(exts));
      }
    }
  }

  // ---------------------------------------------------------------------
  // handle_install_target_group (lines 161-207)

  /** Line 166's selection: `*` selects everything, anything else the
      entries whose raw text equals it. */
  predicate Selects(pattern: string, ext: string) {
    pattern == "*" || ext == pattern
  }

  /** Lines 165-167: `install_extension` on each selected entry, in order. */
  function PatternTrace(installed: seq<ExtensionInfo>, exts: seq<string>, pattern: string): seq<Command>
    requires AllParseable(exts)
    decreases |exts|
  {
    if exts == [] then []
    else
      var last := exts[|exts| - 1];
      PatternTrace(installed, exts[..|exts| - 1], pattern)
        + (if Selects(pattern, last) then InstallStep(installed, Parse(last)) else [])
  }

  /** Lines 171-172: `install_extension` on each entry, in order. */
  function ReinstallTrace(installed: seq<ExtensionInfo>, exts: seq<ExtensionInfo>): seq<Command>
    decreases |exts|
  {
    if exts == [] then []
    else ReinstallTrace(installed, exts[..|exts| - 1]) + InstallStep(installed, exts[|exts| - 1])
  }

  /** The commands `handle_install_target_group` runs. */
  function GroupInstallTrace(installed: seq<ExtensionInfo>, context: map<string, seq<string>>, group: string, pattern: string, force: bool): seq<Command>
    requires group in context && AllParseable(context[group])
  {
    var d := GroupExtensionsInstallDetail(installed, context, group);
    var selected := PatternTrace(installed, d.notInstallExts, pattern);
    if force then selected + ReinstallTrace(installed, d.installExtsVersionNotCompatible) else selected
  }

  /** What line 176 writes: the merge, when the group has non-empty
      settings and a work directory is given; `existing` is the current
      `settings.json` (`None` when the file does not exist yet). */
  function SettingsWrite<V>(groupSettings: Option<map<string, V>>, workDir: Option<string>, existing: Option<map<string, V>>, force: bool): Option<map<string, V>> {
    if groupSettings.Some? && groupSettings.value != map[] && workDir.Some? && workDir.value != "" then
      Some(Merged(existing.GetOr(map[]), groupSettings.value, force))
    else None
  }

  /** One more loop iteration over the not-installed entries. */
  lemma PatternTraceSnoc(installed: seq<ExtensionInfo>, s: seq<string>, i: nat, pattern: string)
    requires AllParseable(s) && i < |s|
    ensures AllParseable(s[..i]) && AllParseable(s[..i + 1])
    ensures PatternTrace(installed, s[..i + 1], pattern)
         == PatternTrace(installed, s[..i], pattern) + (if Selects(pattern, s[i]) then InstallStep(installed, Parse(s[i])) else [])
  {
    assert s[..i + 1][..i] == s[..i];
  }

  /** One more loop iteration over the version-incompatible entries. */
  lemma ReinstallTraceSnoc(installed: seq<ExtensionInfo>, s: seq<ExtensionInfo>, i: nat)
    requires i < |s|
    ensures ReinstallTrace(installed, s[..i + 1]) == ReinstallTrace(installed, s[..i]) + InstallStep(installed, s[i])
  {
    assert s[..i + 1][..i] == s[..i];
  }

  /** Lines 165-167: install each not-installed entry the pattern selects. */
  method InstallSelected(installer: ExtensionInstaller, todo: seq<string>, pattern: string)
    requires AllParseable(todo)
    modifies installer`issued
    ensures installer.issued == old(installer.issued) + PatternTrace(installer.installedExtensions, todo, pattern)
  {
    for i := 0 to |todo|
      invariant installer.issued == old(installer.issued) + PatternTrace(installer.installedExtensions, todo[..i], pattern)
    {
      PatternTraceSnoc(installer.installedExtensions, todo, i, pattern);
      var ext := todo[i];
      if pattern == "*" || ext == pattern {
        installer.InstallExtension(Parse(ext));
      }
    }
    assert todo[..|todo|] == todo;
  }

  /** Lines 171-172: install each version-incompatible entry. */
  method ReinstallAll(installer: ExtensionInstaller, again: seq<ExtensionInfo>)
    modifies installer`issued
    ensures installer.issued == old(installer.issued) + ReinstallTrace(installer.installedExtensions, again)
  {
    for i := 0 to |again|
      invariant installer.issued == old(installer.issued) + ReinstallTrace(installer.installedExtensions, again[..i])
    {
      ReinstallTraceSnoc(installer.installedExtensions, again, i);
      installer.InstallExtension(again[i]);
    }
    assert again[..|again|] == again;
  }

  /** `handle_install_target_group`, with the group's settings file and the
      existing `settings.json` given as already-decoded values, and the
      written settings returned (`None` when nothing is written). */
  method HandleInstallTargetGroup<V>(installer: ExtensionInstaller, pattern: string, group: string,
                                     workDir: Option<string>, groupSettings: Option<map<string, V>>,
                                     existing: Option<map<string, V>>, force: bool)
    returns (written: Option<map<string, V>>)
    requires group in installer.extensionsFileContext && AllParseable(installer.extensionsFileContext[group])
    modifies installer`issued
    ensures installer.issued == old(installer.issued)
      + GroupInstallTrace(installer.installedExtensions, installer.extensionsFileContext, group, pattern, force)
    ensures written == SettingsWrite(groupSettings, workDir, existing, force)
  {
    var detail := GroupExtensionsInstallDetail(installer.installedExtensions, installer.extensionsFileContext, group);
    GroupTraceOfDetail(installer.installedExtensions, installer.extensionsFileContext, group, pattern, force, detail);
    InstallSelected(installer, detail.notInstallExts, pattern);
    if force {
      ReinstallAll(installer, detail.installExtsVersionNotCompatible);
      AppendAssociative(old(installer.issued), PatternTrace(installer.installedExtensions, detail.notInstallExts, pattern),
                        ReinstallTrace(installer.installedExtensions, detail.installExtsVersionNotCompatible));
    }
    if groupSettings.Some? && groupSettings.value != map[] && workDir.Some? && workDir.value != "" {
      var merged := MergeSettings(existing.GetOr(map[]), groupSettings.value, force);
      written := Some(merged);
    } else {
      written := None;
    }
  }

  lemma GroupTraceOfDetail(installed: seq<ExtensionInfo>, context: map<string, seq<string>>, group: string, pattern: string, force: bool, d: GroupDetail)
    requires group in context && AllParseable(context[group])
    requires d == GroupExtensionsInstallDetail(installed, context, group)
    ensures AllParseable(d.notInstallExts)
    ensures GroupInstallTrace(installed, context, group, pattern, force)
         == if force then PatternTrace(installed, d.notInstallExts, pattern) + ReinstallTrace(installed, d.installExtsVersionNotCompatible)
            else PatternTrace(installed, d.notInstallExts, pattern)
  {
  }

  // ---------------------------------------------------------------------
  // What the group trace amounts to

  /** The entries `*` or the pattern selects, in order. */
  function Selected(exts: seq<string>, pattern: string): seq<string> {
    Filter(exts, e => Selects(pattern, e))
  }

  /** Over entries none of which is installed with its version, the first
      loop issues one command per selected entry, in order. */
  lemma {:induction false} PatternTraceOfAbsent(installed: seq<ExtensionInfo>, exts: seq<string>, pattern: string)
    requires AllParseable(exts)
    requires forall e :: e in exts ==> !IsInstalledIn(installed, Parse(e), true)
    ensures AllParseable(Selected(exts, pattern))
    ensures PatternTrace(installed, exts, pattern) == Commands(ParseAll(Selected(exts, pattern)))
    decreases |exts|
  {
    if exts != [] {
      var init, last := exts[..|exts| - 1], exts[|exts| - 1];
      AbsentInit(installed, exts);
      PatternTraceOfAbsent(installed, init, pattern);
      SelectedSnoc(init, last, pattern);
      if Selects(pattern, last) {
        SelectedStep(installed, Selected(init, pattern), last);
      }
    }
  }

  lemma AbsentInit(installed: seq<ExtensionInfo>, exts: seq<string>)
    requires exts != [] && AllParseable(exts)
    requires forall e :: e in exts ==> !IsInstalledIn(installed, Parse(e), true)
    ensures exts == exts[..|exts| - 1] + [exts[|exts| - 1]]
    ensures AllParseable(exts[..|exts| - 1]) && Parseable(exts[|exts| - 1])
    ensures forall e :: e in exts[..|exts| - 1] ==> !IsInstalledIn(installed, Parse(e), true)
    ensures !IsInstalledIn(installed, Parse(exts[|exts| - 1]), true)
  {
    assert exts[|exts| - 1] in exts;
    assert forall e :: e in exts[..|exts| - 1] ==> e in exts;
  }

  /** One more selected entry that is not installed with its version adds
      its command. */
  lemma SelectedStep(installed: seq<ExtensionInfo>, sel: seq<string>, last: string)
    requires AllParseable(sel) && Parseable(last) && !IsInstalledIn(installed, Parse(last), true)
    ensures AllParseable(sel + [last])
    ensures Commands(ParseAll(sel)) + InstallStep(installed, Parse(last)) == Commands(ParseAll(sel + [last]))
  {
    ParseAllSnoc(sel, last);
    CommandsSnoc(ParseAll(sel), Parse(last));
  }

  lemma SelectedSnoc(init: seq<string>, last: string, pattern: string)
    ensures Selected(init + [last], pattern) == Selected(init, pattern) + (if Selects(pattern, last) then [last] else [])
  {
    FilterAppend(init, [last], e => Selects(pattern, e));
    assert [last][1..] == [];
  }

  lemma ParseAllSnoc(init: seq<string>, last: string)
    requires AllParseable(init) && Parseable(last)
    ensures AllParseable(init + [last])
    ensures ParseAll(init + [last]) == ParseAll(init) + [Parse(last)]
  {
    assert forall e :: e in init + [last] ==> e in init || e == last;
  }

  /** Over identities none of which is installed with its version, the
      second loop issues one command per identity, in order. */
  lemma {:induction false} ReinstallTraceOfMissing(installed: seq<ExtensionInfo>, exts: seq<ExtensionInfo>)
    requires forall x :: x in exts ==> !IsInstalledIn(installed, x, true)
    ensures ReinstallTrace(installed, exts) == Commands(exts)
    decreases |exts|
  {
    if exts != [] {
      var init, last := exts[..|exts| - 1], exts[|exts| - 1];
      assert last in exts;
      assert InstallStep(installed, last) == [InstallCommand(last)];
      assert forall x :: x in init ==> x in exts;
      ReinstallTraceOfMissing(installed, init);
      CommandsSnoc(init, last);
      assert init + [last] == exts;
    }
  }

  lemma CommandsSnoc(init: seq<ExtensionInfo>, last: ExtensionInfo)
    ensures Commands(init + [last]) == Commands(init) + [InstallCommand(last)]
  {
  }

  /** The group install issues exactly one command per selected
      not-installed entry, in manifest order, followed under `force` by one
      per version-incompatible entry whatever the pattern: the check inside
      `install_extension` never suppresses any of them. */
  lemma GroupInstallTraceExact(installed: seq<ExtensionInfo>, context: map<string, seq<string>>, group: string, pattern: string, force: bool)
    requires group in context && AllParseable(context[group])
    ensures AllParseable(Selected(NotInstalled(installed, context[group]), pattern))
    ensures GroupInstallTrace(installed, context, group, pattern, force)
         == if force then Commands(ParseAll(Selected(NotInstalled(installed, context[group]), pattern)))
                          + Commands(IncompatibleByStatus(installed, context[group]))
            else Commands(ParseAll(Selected(NotInstalled(installed, context[group]), pattern)))
  {
    var exts := context[group];
    AbsentAreNotInstalled(installed, exts);
    PatternTraceOfAbsent(installed, NotInstalled(installed, exts), pattern);
    DetailIncompatibleIsByStatus(installed, exts);
    IncompatibleAreNotInstalled(installed, exts);
    ReinstallTraceOfMissing(installed, IncompatibleByStatus(installed, exts));
  }

  lemma AbsentAreNotInstalled(installed: seq<ExtensionInfo>, exts: seq<string>)
    requires AllParseable(exts)
    ensures AllParseable(NotInstalled(installed, exts))
    ensures forall e :: e in NotInstalled(installed, exts) ==> !IsInstalledIn(installed, Parse(e), true)
  {
    forall e | e in NotInstalled(installed, exts) ensures !IsInstalledIn(installed, Parse(e), true) {
      NotInstalledMembership(installed, exts, e);
      if IsInstalledIn(installed, Parse(e), true) {
        InstalledImpliesNameInstalled(installed, Parse(e));
      }
    }
  }

  lemma IncompatibleAreNotInstalled(installed: seq<ExtensionInfo>, exts: seq<string>)
    requires AllParseable(exts)
    ensures forall x :: x in IncompatibleByStatus(installed, exts) ==> !IsInstalledIn(installed, x, true)
  {
    forall x | x in IncompatibleByStatus(installed, exts) ensures !IsInstalledIn(installed, x, true) {
      IncompatibleMembership(installed, exts, x);
    }
  }

  /** `installed_extensions` is never updated, so an entry listed twice is
      installed twice. */
  lemma DuplicateEntryInstalledTwice(installed: seq<ExtensionInfo>, group: string, e: string)
    requires Parseable(e) && !IsInstalledIn(installed, Parse(e), false)
    ensures GroupInstallTrace(installed, map[group := [e, e]], group, "*", false)
         == [InstallCommand(Parse(e)), InstallCommand(Parse(e))]
  {
    var context := map[group := [e, e]];
    assert NotInstalled(installed, [e, e]) == [e, e] by {
      assert [e, e][1..] == [e] && [e][1..] == [];
      assert NotInstalled(installed, [e]) == [e];
    }
    GroupInstallTraceExact(installed, context, group, "*", false);
    assert Selected([e, e], "*") == [e, e] by {
      SelectAll([e, e]);
    }
  }

  /** With nothing installed, a `*` install issues one command per manifest
      entry, in order: for the manifest `["v.ext@1.0"]`, exactly the one
      command for `v.ext@1.0`. */
  lemma NothingInstalledInstallsAll(context: map<string, seq<string>>, group: string, force: bool)
    requires group in context && AllParseable(context[group])
    ensures GroupInstallTrace([], context, group, "*", force) == Commands(ParseAll(context[group]))
  {
    var exts := context[group];
    NothingInstalledMeansAbsent(exts);
    GroupInstallTraceExact([], context, group, "*", force);
    SelectAll(exts);
    NothingIncompatible(exts);
  }

  lemma {:induction false} NothingInstalledMeansAbsent(exts: seq<string>)
    requires AllParseable(exts)
    ensures NotInstalled([], exts) == exts
    decreases |exts|
  {
    if exts != [] {
      NothingInstalledMeansAbsent(exts[1..]);
      assert [exts[0]] + exts[1..] == exts;
    }
  }

  lemma {:induction false} NothingIncompatible(exts: seq<string>)
    requires AllParseable(exts)
    ensures IncompatibleByStatus([], exts) == []
    decreases |exts|
  {
    if exts != [] {
      NothingIncompatible(exts[1..]);
    }
  }

  lemma {:induction false} SelectAll(exts: seq<string>)
    ensures Selected(exts, "*") == exts
    decreases |exts|
  {
    if exts != [] {
      SelectAll(exts[1..]);
      assert [exts[0]] + exts[1..] == exts;
    }
  }

  /** A one-entry manifest `vendor.name@version`, nothing installed,
      pattern `*`: exactly one command, for that very text. */
  lemma SingleEntryEndToEnd(group: string, v: string, n: string, ver: string)
    requires IsLower(v) && IsLower(n) && '.' !in v && '.' !in n && '@' !in v && '@' !in n
    requires ver != [] && '@' !in ver
    ensures Parseable(v + "." + n + "@" + ver)
    ensures GroupInstallTrace([], map[group := [v + "." + n + "@" + ver]], group, "*", false)
         == [InstallCmd(v + "." + n + "@" + ver)]
  {
    var e := v + "." + n + "@" + ver;
    RenderParseVersioned(v, n, ver);
    NothingInstalledInstallsAll(map[group := [e]], group, false);
    assert Commands(ParseAll([e])) == [InstallCommand(Parse(e))];
  }

  /** The command line that the same one-entry install runs. */
  lemma SingleEntryCommandLine(group: string, v: string, n: string, ver: string)
    requires IsLower(v) && IsLower(n) && '.' !in v && '.' !in n && '@' !in v && '@' !in n
    requires ver != [] && '@' !in ver
    ensures Parseable(v + "." + n + "@" + ver)
    ensures Map(GroupInstallTrace([], map[group := [v + "." + n + "@" + ver]], group, "*", false), CommandLine)
         == ["code --install-extension " + (v + "." + n + "@" + ver)]
  {
    var e := v + "." + n + "@" + ver;
    SingleEntryEndToEnd(group, v, n, ver);
    assert Map([InstallCmd(e)], CommandLine) == [CommandLine(InstallCmd(e))];
  }

  // ---------------------------------------------------------------------
  // handle_install_specific_extension (lines 210-220)

  /** The commands `handle_install_specific_extension` runs, as written:
      `install_extension` is called when the extension is not installed,
      and again under `force` when it is, where its own check skips it. */
  function SpecificInstallTrace(installed: seq<ExtensionInfo>, extension: string, force: bool): seq<Command>
    requires Parseable(extension)
  {
    var info := Parse(extension);
    if !IsInstalledIn(installed, info, true) then InstallStep(installed, info)
    else if force then InstallStep(installed, info)
    else []
  }

  /** `handle_install_specific_extension(installer, extension, force)`; it
      raises when the extension does not parse. */
  method HandleInstallSpecificExtension(installer: ExtensionInstaller, extension: string, force: bool)
    requires Parseable(extension)
    modifies installer`issued
    ensures installer.issued == old(installer.issued) + SpecificInstallTrace(installer.installedExtensions, extension, force)
  {
    var info := Parse(extension);
    if !installer.IsInstalled(info, true) {
      installer.InstallExtension(info);
    } else {
      if force {
        installer.InstallExtension(info);
      }
    }
  }

  /** As written, `force` changes nothing: the extension is installed
      exactly when it is not installed with this very version. */
  lemma SpecificInstallIgnoresForce(installed: seq<ExtensionInfo>, extension: string)
    requires Parseable(extension)
    ensures SpecificInstallTrace(installed, extension, true) == SpecificInstallTrace(installed, extension, false)
    ensures SpecificInstallTrace(installed, extension, true)
         == if IsInstalledIn(installed, Parse(extension), true) then [] else [InstallCommand(Parse(extension))]
  {
  }

  /** The single-extension install the messages at line 219 and the
      `--force` help text describe: with `force`, reinstall even an
      installed extension. */
  function IntendedSpecificInstallTrace(installed: seq<ExtensionInfo>, extension: string, force: bool): seq<Command>
    requires Parseable(extension)
  {
    if force || !IsInstalledIn(installed, Parse(extension), true) then [InstallCommand(Parse(extension))] else []
  }

  /** The intended version reinstalls under `force`, agrees with the code
      without it, and differs from the code exactly on an installed
      extension with `force`. */
  lemma IntendedSpecificInstallHonoursForce(installed: seq<ExtensionInfo>, extension: string)
    requires Parseable(extension)
    ensures IntendedSpecificInstallTrace(installed, extension, true) == [InstallCommand(Parse(extension))]
    ensures IntendedSpecificInstallTrace(installed, extension, false) == SpecificInstallTrace(installed, extension, false)
    ensures IsInstalledIn(installed, Parse(extension), true)
        ==> SpecificInstallTrace(installed, extension, true) == [] != IntendedSpecificInstallTrace(installed, extension, true)
  {
  }
}
