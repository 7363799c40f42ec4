/** `main` (vscode/scripts/install_extensions.py lines 223-277): which
    handler the command-line arguments select, and the report of installed
    extensions that no group recommends. */
module Cli {
  import opened Common
  import opened Text
  import opened Identity
  import opened Installer

  /** The parsed arguments: `-l` and `-f` are `store_true` flags, the other
      options are `None` when not given. */
  datatype Args = Args(
    listInstalled: bool,
    group: Option<string>,
    install: Option<string>,
    force: bool,
    dotVscodeWorkDir: Option<string>)

  /** Python truthiness of an optional string. */
  predicate Truthy(s: Option<string>) {
    s.Some? && s.value != ""
  }

  /** What `main` goes on to do. */
  datatype Action =
    | Help
    | MissingWorkDir(dir: string)
    | ListAll
    | ListGroup(group: string)
    | InstallGroup(pattern: string, group: string, workDir: Option<string>, force: bool)
    | InstallOne(extension: string, force: bool)

  /** Lines 235-245: `.` (after stripping) is the current directory, any
      other non-empty directory is kept when it exists and stops `main`
      otherwise, and an empty or absent one is `None`. `None` here means
      the directory does not exist. */
  function ResolveWorkDir(dir: Option<string>, cwd: string, existingDirs: set<string>): (r: Option<Option<string>>)
    ensures r.None? <==> Truthy(dir) && Strip(dir.value) != "." && dir.value !in existingDirs
    ensures r == Some(None) <==> !Truthy(dir)
    ensures Truthy(dir) && Strip(dir.value) == "." ==> r == Some(Some(cwd))
    ensures Truthy(dir) && Strip(dir.value) != "." && dir.value in existingDirs ==> r == Some(dir)
  {
    if Truthy(dir) && Strip(dir.value) == "." then Some(Some(cwd))
    else if Truthy(dir) then (if dir.value in existingDirs then Some(dir) else None)
    else Some(None)
  }

  /** Lines 272 and 274 as written: `args.force if args.force is None else
      False`. A `store_true` flag is never `None`, so the expression is
      `False` whatever the flag. */
  function ForwardedForce(force: bool): (r: bool)
    ensures !r
  {
    var argsForce: Option<bool> := Some(force);
    if argsForce.None? then false else false
  }

  /** Lines 248-276, with the force value the handlers receive given. */
  function Route(args: Args, cwd: string, existingDirs: set<string>, force: bool): Action {
    match ResolveWorkDir(args.dotVscodeWorkDir, cwd, existingDirs)
    case None => MissingWorkDir(args.dotVscodeWorkDir.value)
    case Some(workDir) =>
      if args.listInstalled && !Truthy(args.group) then ListAll
      else if args.listInstalled then ListGroup(args.group.value)
      else if Truthy(args.install) && Truthy(args.group) then InstallGroup(args.install.value, args.group.value, workDir, force)
      else if Truthy(args.install) then InstallOne(args.install.value, force)
      else Help
  }

  /** `main(args)` as written. */
  function Dispatch(args: Option<Args>, cwd: string, existingDirs: set<string>): (r: Action)
    ensures args.None? ==> r == Help
    ensures r.InstallGroup? ==> !r.force
    ensures r.InstallOne? ==> !r.force
    ensures args.Some? && args.value.listInstalled ==> !r.InstallGroup? && !r.InstallOne?
  {
    if args.None? then Help
    else Route(args.value, cwd, existingDirs, ForwardedForce(args.value.force))
  }

  /** `main` as the `--force` help text describes it: the flag is passed on. */
  function IntendedDispatch(args: Option<Args>, cwd: string, existingDirs: set<string>): (r: Action)
    ensures args.None? ==> r == Help
    ensures r.InstallGroup? || r.InstallOne? ==> r.force == args.value.force
  {
    if args.None? then Help
    else Route(args.value, cwd, existingDirs, args.value.force)
  }

  /** The two pick the same handler and differ only in the force they pass
      on: every other action is identical. */
  lemma DispatchDiffersOnlyInForce(args: Option<Args>, cwd: string, existingDirs: set<string>)
    ensures args.Some? && !args.value.force ==> Dispatch(args, cwd, existingDirs) == IntendedDispatch(args, cwd, existingDirs)
    ensures Dispatch(args, cwd, existingDirs).InstallGroup? <==> IntendedDispatch(args, cwd, existingDirs).InstallGroup?
    ensures Dispatch(args, cwd, existingDirs).InstallOne? <==> IntendedDispatch(args, cwd, existingDirs).InstallOne?
    ensures !(Dispatch(args, cwd, existingDirs).InstallGroup? || Dispatch(args, cwd, existingDirs).InstallOne?)
        ==> Dispatch(args, cwd, existingDirs) == IntendedDispatch(args, cwd, existingDirs)
  {
  }

  /** Which handler runs: listing wins over installing, a group install
      needs both `-i` and `-g`, a single install `-i` alone, and a work
      directory that does not exist stops everything. */
  lemma DispatchCases(args: Args, cwd: string, existingDirs: set<string>)
    ensures var r := Dispatch(Some(args), cwd, existingDirs);
      && (r.MissingWorkDir? <==> ResolveWorkDir(args.dotVscodeWorkDir, cwd, existingDirs).None?)
      && (!r.MissingWorkDir? ==>
           && (r.ListAll? <==> args.listInstalled && !Truthy(args.group))
           && (r.ListGroup? <==> args.listInstalled && Truthy(args.group))
           && (r.InstallGroup? <==> !args.listInstalled && Truthy(args.install) && Truthy(args.group))
           && (r.InstallOne? <==> !args.listInstalled && Truthy(args.install) && !Truthy(args.group))
           && (r.Help? <==> !args.listInstalled && !Truthy(args.install)))
      && (r.InstallGroup? ==> r.pattern == args.install.value && r.group == args.group.value
                              && ResolveWorkDir(args.dotVscodeWorkDir, cwd, existingDirs) == Some(r.workDir))
      && (r.InstallOne? ==> r.extension == args.install.value)
      && (r.ListGroup? ==> r.group == args.group.value)
  {
  }

  /** With `-f -i <pattern> -g <group>`, as written, the version-incompatible
      entries are never reinstalled: the group install issues only the
      selected not-installed entries' commands. */
  lemma ForceLostForGroupInstall(args: Args, cwd: string, existingDirs: set<string>,
                                 installed: seq<ExtensionInfo>, context: map<string, seq<string>>)
    requires var r := Dispatch(Some(args), cwd, existingDirs); r.InstallGroup? && r.group in context && AllParseable(context[r.group])
    ensures var r := Dispatch(Some(args), cwd, existingDirs);
      GroupInstallTrace(installed, context, r.group, r.pattern, r.force)
        == Commands(ParseAll(Selected(NotInstalled(installed, context[r.group]), r.pattern)))
  {
    var r := Dispatch(Some(args), cwd, existingDirs);
    GroupInstallTraceExact(installed, context, r.group, r.pattern, r.force);
  }

  /** With the flag passed on, `-f` reinstalls every version-incompatible
      entry after the selected not-installed ones. */
  lemma IntendedForceReinstallsIncompatible(args: Args, cwd: string, existingDirs: set<string>,
                                            installed: seq<ExtensionInfo>, context: map<string, seq<string>>)
    requires args.force
    requires var r := IntendedDispatch(Some(args), cwd, existingDirs); r.InstallGroup? && r.group in context && AllParseable(context[r.group])
    ensures var r := IntendedDispatch(Some(args), cwd, existingDirs);
      GroupInstallTrace(installed, context, r.group, r.pattern, r.force)
        == Commands(ParseAll(Selected(NotInstalled(installed, context[r.group]), r.pattern)))
         + Commands(IncompatibleByStatus(installed, context[r.group]))
  {
    var r := IntendedDispatch(Some(args), cwd, existingDirs);
    GroupInstallTraceExact(installed, context, r.group, r.pattern, r.force);
  }

  // ---------------------------------------------------------------------
  // Installed extensions that no group recommends (lines 257-263)

  predicate AllParseableSet(recs: set<string>) {
    forall r :: r in recs ==> Parseable(r)
  }

  /** `not_in_func(ext, rec_set)`: no recommendation names the same
      extension, whatever its version. */
  predicate NotRecommended(ext: string, recs: set<string>)
    requires Parseable(ext) && AllParseableSet(recs)
  {
    forall rec :: rec in recs ==> !Equals(Parse(ext), Parse(rec), false)
  }

  /** `[ext for ext in extensions if not_in_func(ext, recommendations)]`. Every
      recommendation is parsed once per listed extension, so an unparseable
      one raises as soon as anything is installed. */
  function NotInRecommendations(extensions: seq<string>, recs: set<string>): (r: seq<string>)
    requires AllParseable(extensions)
    requires extensions != [] ==> AllParseableSet(recs)
    ensures forall e :: e in r ==> e in extensions
    ensures |r| <= |extensions|
  {
    if extensions == [] then []
    else
      TailParseable(extensions);
      (if NotRecommended(extensions[0], recs) then [extensions[0]] else [])
      + NotInRecommendations(extensions[1..], recs)
  }

  /** An installed extension is reported exactly when no recommendation
      names it. */
  lemma {:induction false} NotInRecommendationsMembers(extensions: seq<string>, recs: set<string>, e: string)
    requires AllParseable(extensions)
    requires extensions != [] ==> AllParseableSet(recs)
    ensures e in NotInRecommendations(extensions, recs) <==> e in extensions && NotRecommended(e, recs)
    decreases |extensions|
  {
    if extensions != [] {
      TailParseable(extensions);
      NotInRecommendationsMembers(extensions[1..], recs, e);
      assert e in extensions <==> e == extensions[0] || e in extensions[1..];
    }
  }

  /** The report is made line by line: the report for `a + b` is the report
      for `a` followed by the report for `b`, so each listed line is reported
      as often as it is listed. */
  lemma {:induction false} NotInRecommendationsAppend(a: seq<string>, b: seq<string>, recs: set<string>)
    requires AllParseable(a + b)
    requires a + b != [] ==> AllParseableSet(recs)
    ensures AllParseable(a) && AllParseable(b)
    ensures NotInRecommendations(a + b, recs) == NotInRecommendations(a, recs) + NotInRecommendations(b, recs)
    decreases |a|
  {
    assert forall e :: e in a ==> e in a + b;
    assert forall e :: e in b ==> e in a + b;
    if a != [] {
      assert (a + b)[1..] == a[1..] + b;
      assert (a + b)[0] == a[0];
      NotInRecommendationsAppend(a[1..], b, recs);
      AppendAssociative(if NotRecommended(a[0], recs) then [a[0]] else [],
                        NotInRecommendations(a[1..], recs), NotInRecommendations(b, recs));
    } else {
      assert a + b == b;
    }
  }

  /** The report keeps the listing's order. */
  lemma {:induction false} NotInRecommendationsInOrder(extensions: seq<string>, recs: set<string>)
    requires AllParseable(extensions)
    requires extensions != [] ==> AllParseableSet(recs)
    ensures IsSubsequence(NotInRecommendations(extensions, recs), extensions)
    decreases |extensions|
  {
    if extensions != [] {
      TailParseable(extensions);
      NotInRecommendationsInOrder(extensions[1..], recs);
      var rest := NotInRecommendations(extensions[1..], recs);
      if NotRecommended(extensions[0], recs) {
        assert ([extensions[0]] + rest)[1..] == rest;
      } else {
        assert NotInRecommendations(extensions, recs) == rest;
        SkipHead(rest, extensions);
      }
    }
  }

  /** Versions are ignored: an installed extension is left out of the report
      exactly when some recommendation has the same `vendor.name`. */
  lemma RecommendedIgnoringVersion(extensions: seq<string>, recs: set<string>, ext: string)
    requires AllParseable(extensions) && AllParseableSet(recs) && ext in extensions
    ensures ext !in NotInRecommendations(extensions, recs)
        <==> exists rec :: rec in recs && WithoutVersion(Parse(rec)) == WithoutVersion(Parse(ext))
  {
    NotInRecommendationsMembers(extensions, recs, ext);
    forall rec | rec in recs
      ensures Equals(Parse(ext), Parse(rec), false) <==> WithoutVersion(Parse(rec)) == WithoutVersion(Parse(ext))
    {
      NameEqualityIsTextEquality(Parse(ext), Parse(rec));
    }
  }

  /** `recommendations`: the union of every group's entries. */
  method CollectRecommendations(context: map<string, seq<string>>) returns (recs: set<string>)
    ensures forall x :: x in recs <==> exists g :: g in context && x in context[g]
  {
    recs := {};
    var remaining := context.Keys;
    while remaining != {}
      invariant remaining <= context.Keys
      invariant forall x :: x in recs <==> exists g :: g in context && g !in remaining && x in context[g]
      decreases remaining
    {
      var g :| g in remaining;
      recs := recs + set x | x in context[g];
      remaining := remaining - {g};
    }
  }
}
