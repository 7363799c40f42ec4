# install_extensions: a verified model

This project models `vscode/scripts/install_extensions.py`, a script that
reconciles the editor extensions installed on a machine with per-group
manifest files (`extensions/<group>.txt`). It installs what a group is
missing, and it merges the group's recommended settings into a workspace
`.vscode/settings.json`.

The model has one module per concern:

- `Common`: `Option`, order-preserving `Filter`/`FilterMap`, subsequence.
- `Text`: Python's `str.strip`, `str.split` on one character, `str.lower`
  and `str.startswith`.
- `Identity`: `ExtensionInfo`. It parses `vendor.name[@version]` and
  provides two-level `equals`, `get_without_version` and `__repr__`.
- `Listing`: two line filters. The installed-line filter of
  `GetInstalledExtensionsList` is a method with its loop. The manifest
  reader is `list_extensions_file_context`.
- `Settings`: the settings-merge loop, a method over maps, and the
  function that specifies it.
- `Installer`: the `ExtensionInstaller` class (its installed list, its
  group-to-entries dictionary and the trace of install commands issued so
  far). It also covers the three-way partition `GroupExtensionsInstallDetail`
  and the handlers `handle_install_target_group` and
  `handle_install_specific_extension`.
- `Cli`: which handler `main` selects, and the "installed but not in
  recommendations" report.

Running `code --install-extension X` is modelled as appending
`InstallCmd(X)` to the installer's `issued` field. `CommandLine` gives the
command text. The output of `code --list-extensions --show-versions` and the
lines of each manifest file are inputs. JSON settings values are a type
parameter, because the merge only moves them around.

## Model

| member | source | states |
|---|---|---|
| Identity.Parse | vscode/scripts/install_extensions.py:10-19 | vendor and name are lower-case and hold no `.` or `@`; a version exists exactly when the text has an `@`; the version holds no `@` |
| Identity.ParseWithoutVersion | vscode/scripts/install_extensions.py:11-19 | `v.n` followed by more `.` pieces parses to lower-cased `v`, `n` and no version; the extra pieces are dropped |
| Identity.ParseWithVersion | vscode/scripts/install_extensions.py:11-19 | in `v.n...@ver@...` the version is the piece between the first and second `@`, kept as written |
| Identity.ParseDropsThirdPiece | vscode/scripts/install_extensions.py:15 | `a.b.c` parses like `a.b` and renders as `a.b` |
| Identity.ParseRender | vscode/scripts/install_extensions.py:10-28 | parsing the rendering of a well-formed identity gives it back |
| Identity.RenderParseVersioned | vscode/scripts/install_extensions.py:10-28 | `str(ExtensionInfo("v.n@ver")) == "v.n@ver"` for lower-case `v`, `n` without `.`/`@` and a non-empty version without `@` |
| Identity.RenderParseUnversioned | vscode/scripts/install_extensions.py:10-28 | `str(ExtensionInfo("v.n")) == "v.n"` under the same conditions |
| Identity.RenderParseEmptyVersion | vscode/scripts/install_extensions.py:10-28 | `v.n@` keeps the empty version `Some("")` but renders as `v.n` |
| Identity.EmptyVersionIsNotAbsentVersion | vscode/scripts/install_extensions.py:24-28 | `v.n@` and `v.n` render alike, yet `equals` with the version tells them apart |
| Identity.Equals | vscode/scripts/install_extensions.py:24-25 | `equals`: vendor and name always, the version only when asked; its properties are stated by `Identity.EqualsIsEquivalence` and `Identity.NameEqualityIsTextEquality` |
| Identity.WithoutVersion | vscode/scripts/install_extensions.py:21-22 | `get_without_version()`: `vendor.name`; `Identity.NameEqualityIsTextEquality` states that it identifies an extension up to version |
| Identity.Render | vscode/scripts/install_extensions.py:27-28 | `__repr__`: `vendor.name@version` for a truthy version, else `vendor.name`; stated by `Identity.ParseRender` and the three `RenderParse*` lemmas |
| Identity.EqualsIsEquivalence | vscode/scripts/install_extensions.py:24-25 | `equals` is reflexive, symmetric and transitive for either flag; equality with the version implies equality without it |
| Identity.NameEqualityIsTextEquality | vscode/scripts/install_extensions.py:21-25 | without the version, two identities are equal exactly when `get_without_version()` gives the same text |
| Text.Strip | vscode/scripts/install_extensions.py:37 | `strip` gives a slice of the text with only whitespace cut from each end, and neither end of the result is whitespace |
| Text.StripUnique | vscode/scripts/install_extensions.py:37 | whitespace, then text with non-space ends, then whitespace strips to exactly that text |
| Text.StripEmpty | vscode/scripts/install_extensions.py:37 | a line strips to nothing exactly when it is all whitespace |
| Text.StripIdempotent | vscode/scripts/install_extensions.py:37 | stripping twice is stripping once |
| Text.Split | vscode/scripts/install_extensions.py:12-15 | `split(sep)` gives at least one piece, no piece holds `sep`, and there is one piece exactly when `sep` does not occur |
| Text.SplitAtFirst | vscode/scripts/install_extensions.py:12-15 | splitting at the first separator gives the text before it, then the pieces of the rest |
| Text.Lower | vscode/scripts/install_extensions.py:18-19 | `lower` keeps the length, maps each upper-case ASCII letter to its lower-case letter, changes nothing else, and leaves lower-case text unchanged |
| Text.JoinSplit | vscode/scripts/install_extensions.py:12-15 | joining the pieces of `split(sep)` with `sep` gives the text back |
| Text.SplitJoin | vscode/scripts/install_extensions.py:12-15 | splitting a join of separator-free pieces gives the pieces back |
| Listing.NonEmptyStripped | vscode/scripts/install_extensions.py:37 | line 37's comprehension; `Listing.InstalledLinesInStages` states that filtering it by the pattern gives `InstalledLines` |
| Listing.GetInstalledExtensionsList | vscode/scripts/install_extensions.py:31-51 | the loop returns the stripped, non-empty lines matching `^[a-zA-Z0-9_.-]+@[0-9.]+$`, i.e. `InstalledLines(output)` |
| Listing.InstalledLinesFacts | vscode/scripts/install_extensions.py:37-46 | the result is a subsequence of the stripped input; each kept line is stripped, non-empty, matches the pattern and comes from some line; every such line is kept |
| Listing.MatchesInstalledPattern | vscode/scripts/install_extensions.py:39-45 | the regular expression as a character-class predicate; `Listing.PartsOfPattern` and `Listing.PatternOfParts` state that it holds exactly for identity run, `@`, version run |
| Listing.PatternOfParts | vscode/scripts/install_extensions.py:39 | an identity run, `@` and a version run always match the pattern |
| Listing.PartsOfPattern | vscode/scripts/install_extensions.py:39 | a matching line has exactly one `@`; before it is a non-empty identity run, after it a non-empty run of digits and dots |
| Listing.InstalledLineShape | vscode/scripts/install_extensions.py:37-51 | every kept line has exactly one `@`, followed by a non-empty run of digits and dots |
| Listing.InstalledLinesAppend | vscode/scripts/install_extensions.py:43-46 | the filter works line by line: the result for `a + b` is the result for `a` then for `b` |
| Listing.KeptAsIs | vscode/scripts/install_extensions.py:37-46 | `id@ver` made of the two character runs is kept unchanged |
| Listing.DroppedWithoutAt | vscode/scripts/install_extensions.py:37-48 | a raw output line without `@` is dropped, whatever whitespace surrounds it |
| Listing.InstalledLineWithoutDot | vscode/scripts/install_extensions.py:39 | a kept line need not have a `.` before `@` (e.g. `ab@1`), and `ExtensionInfo` cannot parse such a line |
| Listing.InstalledRoundTrip | vscode/scripts/install_extensions.py:10-51 | a kept line that is lower-case and whose identity has exactly one `.` survives `str(ExtensionInfo(ext)) == ext` |
| Listing.InstalledRoundTripFailsOnUpperCase | vscode/scripts/install_extensions.py:18-19 | the round trip fails whenever the vendor has an upper-case letter, which the pattern admits |
| Listing.ListExtensionsFileContext | vscode/scripts/install_extensions.py:110-123 | a missing file gives no entries; every entry is stripped and non-empty |
| Listing.IsManifestLine | vscode/scripts/install_extensions.py:121 | line 121's test: the stripped line is not empty and the raw line does not start with `#`; stated per line by `Listing.CommentLineDropped`, `Listing.IndentedCommentKept`, `Listing.BlankLineDropped` and `Listing.EntryLineKept` |
| Listing.ManifestEntries | vscode/scripts/install_extensions.py:121 | line 121's comprehension; stated by `Listing.ManifestEntriesFacts` and the four per-line lemmas below |
| Listing.ManifestEntriesFacts | vscode/scripts/install_extensions.py:121 | entries keep the file order; each comes from a line passing line 121's test; every such line is represented |
| Listing.CommentLineDropped | vscode/scripts/install_extensions.py:121 | a line whose first character is `#` contributes nothing, wherever it stands |
| Listing.IndentedCommentKept | vscode/scripts/install_extensions.py:121 | an indented `#...` line is kept, stripped |
| Listing.BlankLineDropped | vscode/scripts/install_extensions.py:121 | a blank line contributes nothing |
| Listing.EntryLineKept | vscode/scripts/install_extensions.py:121 | any other line contributes its stripped form in place |
| Installer.ParseAll | vscode/scripts/install_extensions.py:57 | one parsed identity per listed line, index by index |
| Installer.Matching | vscode/scripts/install_extensions.py:64 | the comprehension of installed entries that `equals` the extension; stated by `Installer.IsInstalledMeaning` and `Installer.FirstMatchIsFirst` |
| Installer.IsInstalledIn | vscode/scripts/install_extensions.py:63-65 | `len(ret) > 0`; `Installer.IsInstalledMeaning` states it holds exactly when some installed entry `equals` the extension |
| Installer.FirstMatch | vscode/scripts/install_extensions.py:67-69 | `ret[0]` or `None`; `Installer.FirstMatchIsFirst` states it is the first installed entry that `equals` the extension |
| Installer.IsInstalledMeaning | vscode/scripts/install_extensions.py:63-65 | `is_installed` holds exactly when some installed entry `equals` the extension |
| Installer.InstalledImpliesNameInstalled | vscode/scripts/install_extensions.py:63-65 | installed with the version implies installed without it |
| Installer.FirstMatchIsFirst | vscode/scripts/install_extensions.py:67-69 | `get_installed_extension` returns an entry exactly when `is_installed` holds, and then the first installed entry that `equals` the extension |
| Installer.ExtensionInstaller.constructor | vscode/scripts/install_extensions.py:54-60 | the installed list is the parsed listing, the dictionary maps each group to its manifest entries, nothing is issued yet |
| Installer.ListedIsInstalled | vscode/scripts/install_extensions.py:57-65 | every listed extension is installed with its own version in the installer built from that listing |
| Installer.ExtensionInstaller.IsInstalled | vscode/scripts/install_extensions.py:63-65 | holds exactly when some entry of the installed list `equals` the extension |
| Installer.ExtensionInstaller.GetInstalledExtension | vscode/scripts/install_extensions.py:67-69 | returns an entry exactly when `is_installed` holds, and then an installed entry that `equals` the extension (the first one, by `Installer.FirstMatchIsFirst`) |
| Installer.InstallCommand | vscode/scripts/install_extensions.py:95 | the command for `str(extension)`; `Installer.SingleEntryEndToEnd` states its text for `v.n@ver` |
| Installer.CommandLine | vscode/scripts/install_extensions.py:95 | the text `code --install-extension <target>`; stated by `Installer.SingleEntryCommandLine` |
| Installer.SingleEntryCommandLine | vscode/scripts/install_extensions.py:95-97 | the one-entry install of `v.n@ver` runs exactly the command line `code --install-extension v.n@ver` |
| Installer.InstallStep | vscode/scripts/install_extensions.py:90-98 | the commands one `install_extension` call issues; stated by `Installer.ExtensionInstaller.InstallExtension` |
| Installer.ExtensionInstaller.InstallExtension | vscode/scripts/install_extensions.py:90-98 | an extension installed with this very version issues nothing; otherwise its one command is appended; the installed list is not changed |
| Installer.InstalledCompatible | vscode/scripts/install_extensions.py:132 | `install_exts` draws only from the manifest |
| Installer.NotInstalled | vscode/scripts/install_extensions.py:138 | `not_install_exts` draws only from the manifest |
| Installer.GroupExtensionsInstallDetail | vscode/scripts/install_extensions.py:127-138 | the three list lengths add up to the manifest's length |
| Installer.CompatibleMembership | vscode/scripts/install_extensions.py:132-135 | an entry is in `install_exts` exactly when installed with its version, so line 135's raw-text test is the identity test |
| Installer.VersionIncompatible | vscode/scripts/install_extensions.py:135 | line 135 as written, with its raw-text `ext not in install_exts` test; stated by `Installer.VersionIncompatibleIsByStatus`, `Installer.PartitionMembership` and `Installer.IncompatibleInOrder` |
| Installer.VersionIncompatibleIsByStatus | vscode/scripts/install_extensions.py:135 | line 135 as written equals the list of entries installed under another version only |
| Installer.DetailIncompatibleIsByStatus | vscode/scripts/install_extensions.py:132-135 | the same for the `install_exts` the source passes |
| Installer.PartitionSizes | vscode/scripts/install_extensions.py:131-138 | the three lengths add up to the manifest length |
| Installer.PartitionMembership | vscode/scripts/install_extensions.py:131-138 | each entry is in exactly the list its status (exact, other version, absent) names |
| Installer.IncompatibleMembership | vscode/scripts/install_extensions.py:135 | an identity is in the incompatible list exactly when it is the parse of some manifest entry and is installed under another version only |
| Installer.NotInstalledMembership | vscode/scripts/install_extensions.py:138 | an entry is in `not_install_exts` exactly when no version of it is installed |
| Installer.CompatibleInOrder | vscode/scripts/install_extensions.py:132 | `install_exts` keeps manifest order |
| Installer.IncompatibleInOrder | vscode/scripts/install_extensions.py:135 | the incompatible list keeps manifest order |
| Installer.NotInstalledInOrder | vscode/scripts/install_extensions.py:138 | `not_install_exts` keeps manifest order |
| Installer.Selects | vscode/scripts/install_extensions.py:166 | `install_pattern == "*" or ext == install_pattern`; `Installer.GroupInstallTraceExact` states which entries it selects through `Installer.Selected` |
| Installer.PatternTrace | vscode/scripts/install_extensions.py:165-167 | the commands of the first loop; `Installer.InstallSelected` issues them and `Installer.PatternTraceOfAbsent` gives their closed form |
| Installer.PatternTraceOfAbsent | vscode/scripts/install_extensions.py:165-167 | over entries not installed with their version, the first loop issues one command per selected entry, in order |
| Installer.ReinstallTrace | vscode/scripts/install_extensions.py:171-172 | the commands of the second loop; `Installer.ReinstallAll` issues them and `Installer.ReinstallTraceOfMissing` gives their closed form |
| Installer.ReinstallTraceOfMissing | vscode/scripts/install_extensions.py:171-172 | over entries not installed with their version, the second loop issues one command per entry, in order |
| Installer.GroupInstallTrace | vscode/scripts/install_extensions.py:161-172 | the commands `handle_install_target_group` issues; stated in closed form by `Installer.GroupInstallTraceExact` |
| Installer.SettingsWrite | vscode/scripts/install_extensions.py:174-206 | what is written to `settings.json`: `Settings.Merged` of the existing file and the group's settings when both the settings and the work directory are truthy, else nothing; `Installer.HandleInstallTargetGroup` returns it |
| Installer.InstallSelected | vscode/scripts/install_extensions.py:165-167 | the loop issues `install_extension` for each selected not-installed entry, in order |
| Installer.ReinstallAll | vscode/scripts/install_extensions.py:171-172 | the loop issues `install_extension` for each version-incompatible entry, in order |
| Installer.HandleInstallTargetGroup | vscode/scripts/install_extensions.py:161-207 | the issued commands grow by the group trace; the written settings are the merge exactly when the group has settings and a work directory is given |
| Installer.GroupInstallTraceExact | vscode/scripts/install_extensions.py:161-172 | the trace is one command per not-installed entry the pattern selects, in manifest order, then, under force, one per version-incompatible entry whatever the pattern |
| Installer.DuplicateEntryInstalledTwice | vscode/scripts/install_extensions.py:161-167 | a missing entry listed twice is installed twice, because the installed list is never updated |
| Installer.NothingInstalledInstallsAll | vscode/scripts/install_extensions.py:161-172 | with nothing installed, `*` installs every manifest entry in order |
| Installer.SingleEntryEndToEnd | vscode/scripts/install_extensions.py:161-167 | a one-entry manifest `v.n@ver` with nothing installed issues exactly one command, for the text `v.n@ver` |
| Installer.SpecificInstallTrace | vscode/scripts/install_extensions.py:210-220 | the commands `handle_install_specific_extension` issues; stated by `Installer.SpecificInstallIgnoresForce` |
| Installer.HandleInstallSpecificExtension | vscode/scripts/install_extensions.py:210-220 | the issued commands grow by the as-written single-install trace |
| Installer.SpecificInstallIgnoresForce | vscode/scripts/install_extensions.py:210-219 | as written, force changes nothing: the command is issued exactly when the extension is not installed with this version |
| Installer.IntendedSpecificInstallHonoursForce | vscode/scripts/install_extensions.py:213-219 | the intended single install reinstalls under force and agrees with the code without it |
| Settings.Merged | vscode/scripts/install_extensions.py:191-202 | keys are the union; keys only in the file keep their value, new keys take the incoming value, shared keys take the incoming value only under force |
| Settings.Restrict | vscode/scripts/install_extensions.py:192 | the part of the incoming settings already handled by the loop |
| Settings.MergeSettings | vscode/scripts/install_extensions.py:191-202 | the in-place loop over `settings.items()` produces `Merged(existing, incoming, force)` |
| Settings.MergeTwiceIsOnce | vscode/scripts/install_extensions.py:191-202 | merging the same settings twice gives the result of merging once |
| Settings.MergeWithoutForceOnlyAdds | vscode/scripts/install_extensions.py:193-199 | without force every existing key keeps its value, and the merge only adds the incoming keys that are new |
| Settings.MergeExamples | vscode/scripts/install_extensions.py:191-202 | concrete merges with and without force |
| Cli.ResolveWorkDir | vscode/scripts/install_extensions.py:236-246 | `.` (after stripping) resolves to the current directory, an empty or absent one to none, any other existing one to itself, and a missing one stops `main` |
| Cli.ForwardedForce | vscode/scripts/install_extensions.py:272-274 | the force value `main` forwards is false whatever the flag |
| Cli.Route | vscode/scripts/install_extensions.py:248-276 | the handler chosen from the parsed arguments and the force value given; stated by `Cli.DispatchCases` and `Cli.DispatchDiffersOnlyInForce` |
| Cli.Dispatch | vscode/scripts/install_extensions.py:223-277 | no arguments print help; force is never passed on; listing excludes installing |
| Cli.DispatchCases | vscode/scripts/install_extensions.py:237-276 | which handler runs, as an if-and-only-if per handler, and what it receives: `-i` as pattern or extension, `-g` as group, and the resolved work directory |
| Cli.ForceLostForGroupInstall | vscode/scripts/install_extensions.py:272 | as written, `-f -i P -g G` never reinstalls the version-incompatible entries |
| Cli.IntendedDispatch | vscode/scripts/install_extensions.py:272-274 | the intended routing passes the `-f` flag on |
| Cli.DispatchDiffersOnlyInForce | vscode/scripts/install_extensions.py:272-274 | the code and the intended routing pick the same handler; every action other than the two installs is identical, and everything is identical when `-f` is not given |
| Cli.IntendedForceReinstallsIncompatible | vscode/scripts/install_extensions.py:272 | with the flag passed on, `-f` reinstalls every version-incompatible entry after the selected ones |
| Cli.NotRecommended | vscode/scripts/install_extensions.py:261 | `not_in_func`: no recommendation `equals` the extension without version; stated by `Cli.RecommendedIgnoringVersion` |
| Cli.NotInRecommendations | vscode/scripts/install_extensions.py:261-263 | the report draws only from the listing and is no longer than it |
| Cli.NotInRecommendationsMembers | vscode/scripts/install_extensions.py:261-263 | an installed extension is reported exactly when no recommendation names it |
| Cli.NotInRecommendationsAppend | vscode/scripts/install_extensions.py:263 | the report is made line by line: for `a + b` it is the report for `a` then for `b`, so a line listed twice is reported twice |
| Cli.NotInRecommendationsInOrder | vscode/scripts/install_extensions.py:263 | the report keeps the listing's order |
| Cli.RecommendedIgnoringVersion | vscode/scripts/install_extensions.py:261-263 | an installed extension is left out exactly when some recommendation has the same `vendor.name`, whatever the version |
| Cli.CollectRecommendations | vscode/scripts/install_extensions.py:257-259 | the recommendations are the union of all groups' entries |

## Left out

- Running external commands (`os.popen` at lines 36 and 97). The listing output is an input; an install is an appended `Command`, and the tool's own output is not modelled.
- File and directory access: `glob`, `Path.stem`, `os.path.exists`, reads, `os.makedirs`, and the write of `settings.json`. Manifest lines, the group's settings and the existing `settings.json` are inputs. The group key of each manifest is given rather than derived from its file name.
- `get_target_group_settings` (lines 71-88) is file reading and JSON decoding, so its result is a parameter of `HandleInstallTargetGroup`. `json.load` failures and `exit(1)` are not modelled; JSON values are opaque.
- Logging throughout. This leaves out `handle_list_installed_with_group` (lines 144-158), which only logs the partition proved about above.
- `argparse` parsing: `Cli.Args` holds the parsed options.
- `os.getcwd()`: the current directory is a parameter of `Cli.ResolveWorkDir`.
- vscode/scripts/start_http.py is not part of this model; it is an HTTP server with no logic of its own.
- Text.Lower: lower-cases ASCII letters only, because Python's full Unicode case mapping is not modelled.
- The regular expression engine. Line 39's pattern is a character-class predicate over already-stripped lines, so the `$`-before-a-final-newline case cannot arise.
- Installer.GroupExtensionsInstallDetail: requires the group to be a key of the installer's dictionary. Line 129 raises `KeyError` for a group without a manifest file (e.g. `-i X -g unknown`); that crash is not modelled.
- Line 129 reads the global `args.group`. The model uses the `group` parameter, which `main` passes the same value.
- Settings.MergeSettings: takes the incoming keys in an arbitrary order instead of dictionary order, and its result is a `map`, which has no order. The keys and values it proves are those of the dictionary the loop builds, but not the dictionary's insertion order (existing keys first, then new keys in `settings.items()` order), which `json.dump` writes to the file. The order of the log messages is not modelled either.
- An exception in `ExtensionInfo` (a listed line or manifest entry without a `.` before its `@`) is a precondition (`Parseable`/`AllParseable`), not a modelled crash.
- Installer.ExtensionInstaller.constructor: the file-path half of each `extensions_file_context_dict` value is not kept.
- The version is the piece between the first and the second `@` (`split("@")[1]`); anything after a second `@` is dropped, as `Identity.ParseWithVersion` states.

## Findings

| source | as written | input that shows it | evidently intended | confidence | as-written member | corrected member |
|---|---|---|---|---|---|---|
| vscode/scripts/install_extensions.py:272-274 | `force=(args.force if args.force is None else False)` is `False` for every `store_true` value | `-f -i '*' -g G` where G has an entry installed under another version: nothing is reinstalled | pass `args.force`, as the `--force` help text at line 285 says | not executed | Cli.ForceLostForGroupInstall | Cli.IntendedForceReinstallsIncompatible |
| vscode/scripts/install_extensions.py:213-217 | under force an installed extension is passed to `install_extension`, which skips it again because it is installed | `-i v.n@1` with `v.n@1` installed and force set: no command is issued | force reinstalls the extension | not executed | Installer.SpecificInstallIgnoresForce | Installer.IntendedSpecificInstallHonoursForce |
