/**
 * `run_install`: find the unpacked installer, run it, and then make the TeX
 * binaries reachable, trying in strict order: the installer's own setup,
 * `tlmgr path add`, and links in `/usr/local/bin`, re-checking with
 * `tex --version` after each.
 *
 * Processes are oracles: the installer's exit status, the filesystem it
 * leaves behind, the three answers of `check_path()`, what `tlmgr conf
 * texmf` printed, whether `tlmgr path add` could be started, what the
 * installer and `tlmgr path add` leave in `/usr/local/bin`, and the
 * operating system's refusals during linking. The run records the external
 * steps it takes, in order.
 */
module Install {
  import opened Wrappers
  import opened FileSystem
  import opened Urls
  import opened Tlmgr
  import opened Candidates
  import opened Symlinks

  /** `locate_install_tl(workdir)`: the installer script, directly or one level down. */
  function LocateInstallTl(fs: Tree, workdir: Path): (r: Option<Path>)
    ensures r.Some? ==> IsFile(fs, r.value)
    ensures r.Some? ==> r.value == Join(workdir, "install-tl") || r.value == Join(Join(workdir, "install-tl"), "install-tl")
    ensures IsFile(fs, Join(workdir, "install-tl")) ==> r == Some(Join(workdir, "install-tl"))
    ensures r.None? <==> !IsFile(fs, Join(workdir, "install-tl")) && !IsFile(fs, Join(Join(workdir, "install-tl"), "install-tl"))
  {
    var candidate := Join(workdir, "install-tl");
    if IsFile(fs, candidate) then Some(candidate)
    else
      var nested := Join(candidate, "install-tl");
      if IsFile(fs, nested) then Some(nested) else None
  }

  /** How the installer process went: its exit status, or `perl` could not be started. */
  datatype Launch = Started(status: int) | NotFound

  /** The answers of the three `check_path()` calls `run_install` can make. */
  datatype Probes = Probes(afterInstall: bool, afterPathAdd: bool, afterLinks: bool)

  /**
   * Everything outside the helper that decides how `run_install` goes:
   * `installed` is the filesystem once the installer has run (the search for
   * a bin directory and the link step read it); `installerDest` and
   * `pathAddDest` are `/usr/local/bin` as the installer and `tlmgr path add`
   * leave it, since both may write links there themselves.
   */
  datatype World = World(
    installer: Launch,
    installed: Tree,
    installerDest: DestState,
    probes: Probes,
    tlmgrConf: Option<string>,
    tlmgrLaunches: bool,
    pathAddDest: DestState,
    envPath: Option<string>,
    faults: LinkFaults)
  {
    /** The states given for `/usr/local/bin` are ones a directory path can be in. */
    predicate WellFormed() {
      installerDest.WellFormed() && pathAddDest.WellFormed()
    }

    /** `/usr/local/bin` when the link step starts: as `tlmgr path add` left it when it ran, else as the installer did. */
    function LinkStart(): DestState {
      if tlmgrLaunches then pathAddDest else installerDest
    }
  }

  /** An external step of the run, in the order taken. */
  datatype Step =
    | RanInstaller(args: seq<string>)
    | CheckedPath(onPath: bool)
    | QueriedTlmgr
    | RanPathAdd(path: string, started: bool)
    | LinkedInto(destination: Path, result: LinkResult)

  /** Which strategy made `tex` reachable. */
  datatype Reached = OnPathAfterInstall | OnPathAfterPathAdd | OnPathAfterLinks

  /** An exception the code does not catch, and the path it is about. */
  datatype Fault = CannotList(path: Path) | FileExists(path: Path)

  /** `run_install` returned, exited via `SystemExit(code)`, or let an exception escape. */
  datatype Outcome = Returned(reached: Reached) | Exited(code: int) | Raised(fault: Fault)

  /** The outcome, the steps taken, and `/usr/local/bin` afterwards. */
  datatype Run = Run(outcome: Outcome, trace: seq<Step>, after: DestState)

  /** Whether resolution consults `tlmgr conf texmf`: only when the candidate search yields nothing. */
  predicate AsksTlmgr(fs: Tree) {
    CandidateBinDirs(fs).items == [] && CandidateBinDirs(fs).raisedAt.None?
  }

  /**
   * The fallback after a located bin directory: `tlmgr path add`, then links.
   * The run holds the steps of this stage only; `links` is what linking
   * would do, consulted only when the stage gets that far. The stage starts
   * with `/usr/local/bin` as the installer left it.
   */
  function RegisterRun(binDir: Path, w: World, links: LinkRun): Run
  {
    var env := PathAddEnv(binDir, w.envPath);
    var added := [RanPathAdd(env, w.tlmgrLaunches)] + (if w.tlmgrLaunches then [CheckedPath(w.probes.afterPathAdd)] else []);
    if w.tlmgrLaunches && w.probes.afterPathAdd then Run(Returned(OnPathAfterPathAdd), added, w.pathAddDest)
    else
      var linked := added + [LinkedInto(SymlinkDestination, links.result)];
      match links.result
      case MkdirRaised => Run(Raised(FileExists(SymlinkDestination)), linked, links.After())
      case ListingRaised => Run(Raised(CannotList(binDir)), linked, links.After())
      case Finished(ok) =>
        if !ok then Run(Exited(1), linked, links.After())
        else
          var checked := linked + [CheckedPath(w.probes.afterLinks)];
          if w.probes.afterLinks then Run(Returned(OnPathAfterLinks), checked, links.After())
          else Run(Exited(1), checked, links.After())
  }

  /** The steps up to and including resolution: installer, first check, and the `tlmgr` query if made. */
  function PreludeSteps(args: seq<string>, onPath: bool, asked: bool): seq<Step>
  {
    [RanInstaller(args), CheckedPath(onPath)] + (if asked then [QueriedTlmgr] else [])
  }

  /**
   * The control flow of `run_install`, over what the filesystem and the
   * processes decided: the installer's command line if a script was found,
   * whether resolution asked `tlmgr`, what resolution settled on, and what
   * linking a given directory would do; `initial` is `/usr/local/bin`
   * before the run.
   */
  function Flow(args: Option<seq<string>>, w: World, asked: bool, res: Resolution, linkAt: Path -> LinkRun,
                initial: DestState): Run
  {
    match args
    case None => Run(Exited(1), [], initial)
    case Some(a) =>
      match w.installer
      case NotFound => Run(Exited(1), [RanInstaller(a)], initial)
      case Started(code) =>
        var installed := w.installerDest;
        if code != 0 then Run(Exited(code), [RanInstaller(a)], installed)
        else if w.probes.afterInstall then Run(Returned(OnPathAfterInstall), PreludeSteps(a, true, false), installed)
        else
          var prelude := PreludeSteps(a, false, asked);
          match res
          case RootNotListable(root) => Run(Raised(CannotList(root)), prelude, installed)
          case NotLocated => Run(Exited(1), prelude, installed)
          case Located(binDir) =>
            var reg := RegisterRun(binDir, w, linkAt(binDir));
            Run(reg.outcome, prelude + reg.trace, reg.after)
  }

  /** The installer's command line, when `locate_install_tl` finds the script. */
  function InstallerCommand(fs: Tree, workdir: Path, version: string, profile: string, mirror: string,
                            archiveMirror: string): (c: Option<seq<string>>)
    ensures c.Some? <==> LocateInstallTl(fs, workdir).Some?
    ensures c.Some? ==> c.value == InstallerArgs(LocateInstallTl(fs, workdir).value, profile, mirror, archiveMirror, version)
  {
    match LocateInstallTl(fs, workdir)
    case None => None
    case Some(installer) => Some(InstallerArgs(installer, profile, mirror, archiveMirror, version))
  }

  /**
   * `run_install(version, profile, mirror, archive_mirror, workdir)`: the
   * installer script is looked up in `fs`, the filesystem before the run;
   * everything after the installer reads the filesystem it left.
   */
  function InstallRun(fs: Tree, version: string, profile: string, mirror: string, archiveMirror: string,
                      workdir: Path, w: World, initial: DestState): Run
  {
    Flow(InstallerCommand(fs, workdir, version, profile, mirror, archiveMirror), w, AsksTlmgr(w.installed),
         ResolvedBinDir(w.installed, w.tlmgrConf),
         d => SymlinkRun(w.installed, d, w.faults, w.LinkStart().status, w.LinkStart().entries), initial)
  }

  /** The kind of a step, to state the order steps come in. */
  datatype Kind = KInstaller | KCheck | KQuery | KPathAdd | KLinks

  function KindOf(s: Step): Kind {
    match s
    case RanInstaller(_) => KInstaller
    case CheckedPath(_) => KCheck
    case QueriedTlmgr => KQuery
    case RanPathAdd(_, _) => KPathAdd
    case LinkedInto(_, _) => KLinks
  }

  function Kinds(t: seq<Step>): seq<Kind> {
    seq(|t|, i requires 0 <= i < |t| => KindOf(t[i]))
  }

  /** Every step `run_install` can take, in the one order it takes them. */
  const FullOrder: seq<Kind> := [KInstaller, KCheck, KQuery, KPathAdd, KCheck, KLinks, KCheck]

  /** `a` can be obtained from `b` by deleting elements. */
  predicate SubsequenceOf(a: seq<Kind>, b: seq<Kind>)
    decreases |b|
  {
    a == [] || (b != [] && if a[0] == b[0] then SubsequenceOf(a[1..], b[1..]) else SubsequenceOf(a, b[1..]))
  }

  /** Dropping the first element of a subsequence keeps it a subsequence. */
  lemma {:induction false} SubsequenceWeaken(a: seq<Kind>, b: seq<Kind>)
    requires a != [] && SubsequenceOf(a, b)
    ensures SubsequenceOf(a[1..], b)
    decreases |b|
  {
    if a[0] != b[0] {
      SubsequenceWeaken(a, b[1..]);
    }
    if a[1..] != [] && a[1..][0] == b[0] {
      SubsequenceWeaken(a[1..], b[1..]);
    }
  }

  /** A subsequence of `b` is one of anything ending in `b`. */
  lemma {:induction false} SubsequenceSkip(a: seq<Kind>, pre: seq<Kind>, b: seq<Kind>)
    requires SubsequenceOf(a, b)
    ensures SubsequenceOf(a, pre + b)
    decreases |pre|
  {
    if pre == [] {
      assert pre + b == b;
    } else {
      SubsequenceSkip(a, pre[1..], b);
      assert (pre + b)[1..] == pre[1..] + b;
      if a != [] && a[0] == pre[0] {
        SubsequenceWeaken(a, pre[1..] + b);
      }
    }
  }

  /** Subsequences of two lists, glued, are a subsequence of the two lists glued. */
  lemma {:induction false} SubsequenceAppend(a1: seq<Kind>, b1: seq<Kind>, a2: seq<Kind>, b2: seq<Kind>)
    requires SubsequenceOf(a1, b1) && SubsequenceOf(a2, b2)
    ensures SubsequenceOf(a1 + a2, b1 + b2)
    decreases |b1|
  {
    if a1 == [] {
      SubsequenceSkip(a2, b1, b2);
      assert a1 + a2 == a2;
    } else if a1[0] == b1[0] {
      SubsequenceAppend(a1[1..], b1[1..], a2, b2);
      assert (a1 + a2)[1..] == a1[1..] + a2 && (b1 + b2)[1..] == b1[1..] + b2;
    } else {
      SubsequenceAppend(a1, b1[1..], a2, b2);
      assert (b1 + b2)[1..] == b1[1..] + b2;
    }
  }

  lemma {:induction false} KindsAppend(a: seq<Step>, b: seq<Step>)
    ensures Kinds(a + b) == Kinds(a) + Kinds(b)
  {
    assert |Kinds(a + b)| == |Kinds(a) + Kinds(b)|;
    forall i | 0 <= i < |a + b|
      ensures Kinds(a + b)[i] == (Kinds(a) + Kinds(b))[i]
    {
      if i < |a| {
        assert (a + b)[i] == a[i];
      } else {
        assert (a + b)[i] == b[i - |a|];
      }
    }
  }

  /** The prelude's steps come in the order installer, check, query. */
  lemma PreludeInOrder(args: seq<string>, onPath: bool, asked: bool)
    ensures SubsequenceOf(Kinds(PreludeSteps(args, onPath, asked)), [KInstaller, KCheck, KQuery])
  {
    var k := Kinds(PreludeSteps(args, onPath, asked));
    if asked {
      assert k == [KInstaller, KCheck, KQuery];
      assert SubsequenceOf(k[2..], [KQuery]);
    } else {
      assert k == [KInstaller, KCheck];
      assert SubsequenceOf(k[1..], [KCheck, KQuery]);
    }
  }

  /** No `check_path()` in the prelude succeeded; the first one is the one that failed. */
  lemma PreludeNotOnPath(args: seq<string>, asked: bool)
    ensures var t := PreludeSteps(args, false, asked);
            forall i :: 0 <= i < |t| ==> t[i] != CheckedPath(true)
  {
  }

  /** The kinds of steps of the fallback stage: path add, its check if `tlmgr` started, then links and their check. */
  function StageKinds(launched: bool, linked: bool, checked: bool): seq<Kind> {
    (if launched then [KPathAdd, KCheck] else [KPathAdd]) + (if !linked then [] else if checked then [KLinks, KCheck] else [KLinks])
  }

  lemma StageKindsInOrder(launched: bool, linked: bool, checked: bool)
    ensures SubsequenceOf(StageKinds(launched, linked, checked), [KPathAdd, KCheck, KLinks, KCheck])
  {
    var tail := [KLinks, KCheck];
    var addPart := if launched then [KPathAdd, KCheck] else [KPathAdd];
    var linksPart := if !linked then [] else if checked then tail else [KLinks];
    assert SubsequenceOf([KCheck], [KCheck]);
    assert SubsequenceOf(linksPart, tail);
    assert SubsequenceOf(addPart, [KPathAdd, KCheck]);
    SubsequenceAppend(addPart, [KPathAdd, KCheck], linksPart, tail);
    assert [KPathAdd, KCheck] + tail == [KPathAdd, KCheck, KLinks, KCheck];
  }

  lemma RegisterKinds(binDir: Path, w: World, links: LinkRun)
    ensures Kinds(RegisterRun(binDir, w, links).trace)
            == StageKinds(w.tlmgrLaunches, !(w.tlmgrLaunches && w.probes.afterPathAdd), links.result == Finished(true))
  {
    var t := RegisterRun(binDir, w, links).trace;
    var add := [RanPathAdd(PathAddEnv(binDir, w.envPath), w.tlmgrLaunches)]
               + (if w.tlmgrLaunches then [CheckedPath(w.probes.afterPathAdd)] else []);
    if !(w.tlmgrLaunches && w.probes.afterPathAdd) {
      var rest := [LinkedInto(SymlinkDestination, links.result)]
                  + (if links.result == Finished(true) then [CheckedPath(w.probes.afterLinks)] else []);
      assert t == add + rest;
      KindsAppend(add, rest);
    }
  }

  /** The fallback stage takes its steps in the order path add, check, links, check. */
  lemma RegisterInOrder(binDir: Path, w: World, links: LinkRun)
    ensures SubsequenceOf(Kinds(RegisterRun(binDir, w, links).trace), [KPathAdd, KCheck, KLinks, KCheck])
  {
    RegisterKinds(binDir, w, links);
    StageKindsInOrder(w.tlmgrLaunches, !(w.tlmgrLaunches && w.probes.afterPathAdd), links.result == Finished(true));
  }

  /**
   * The fallback stage returns normally exactly when its last step is a
   * `check_path()` that found `tex`, and no earlier check in it did.
   */
  lemma RegisterReturns(binDir: Path, w: World, links: LinkRun)
    ensures var run := RegisterRun(binDir, w, links);
            && |run.trace| > 0
            && (run.outcome.Returned? <==> run.trace[|run.trace| - 1] == CheckedPath(true))
            && forall i :: 0 <= i < |run.trace| - 1 ==> run.trace[i] != CheckedPath(true)
  {
  }

  /** A prelude in order followed by a fallback stage in order is in the full order. */
  lemma {:induction false} StagesInOrder(prelude: seq<Step>, stage: seq<Step>)
    requires SubsequenceOf(Kinds(prelude), [KInstaller, KCheck, KQuery])
    requires SubsequenceOf(Kinds(stage), [KPathAdd, KCheck, KLinks, KCheck])
    ensures SubsequenceOf(Kinds(prelude + stage), FullOrder)
  {
    KindsAppend(prelude, stage);
    SubsequenceAppend(Kinds(prelude), [KInstaller, KCheck, KQuery], Kinds(stage), [KPathAdd, KCheck, KLinks, KCheck]);
    assert [KInstaller, KCheck, KQuery] + [KPathAdd, KCheck, KLinks, KCheck] == FullOrder;
  }

  /** The steps of every run come in the order installer, check, query, path add, check, links, check. */
  lemma FlowStepsInOrder(args: Option<seq<string>>, w: World, asked: bool, res: Resolution, linkAt: Path -> LinkRun,
                         initial: DestState)
    ensures SubsequenceOf(Kinds(Flow(args, w, asked, res, linkAt, initial).trace), FullOrder)
  {
    var run := Flow(args, w, asked, res, linkAt, initial);
    match args
    case None =>
    case Some(a) =>
      if w.installer != Started(0) {
        assert Kinds(run.trace) == [KInstaller];
        assert SubsequenceOf(Kinds(run.trace)[1..], FullOrder[1..]);
      } else {
        var prelude := PreludeSteps(a, w.probes.afterInstall, asked && !w.probes.afterInstall);
        PreludeInOrder(a, w.probes.afterInstall, asked && !w.probes.afterInstall);
        if !w.probes.afterInstall && res.Located? {
          var reg := RegisterRun(res.dir, w, linkAt(res.dir));
          RegisterInOrder(res.dir, w, linkAt(res.dir));
          StagesInOrder(prelude, reg.trace);
        } else {
          StagesInOrder(prelude, []);
          assert prelude + [] == prelude;
        }
      }
  }

  /** No check succeeds before the stage, so the run returns exactly when the stage does. */
  lemma {:induction false} StagesReturn(prelude: seq<Step>, stage: seq<Step>)
    requires forall i :: 0 <= i < |prelude| ==> prelude[i] != CheckedPath(true)
    requires |stage| > 0 && forall i :: 0 <= i < |stage| - 1 ==> stage[i] != CheckedPath(true)
    ensures var t := prelude + stage;
            && t[|t| - 1] == stage[|stage| - 1]
            && forall i :: 0 <= i < |t| - 1 ==> t[i] != CheckedPath(true)
  {
    var t := prelude + stage;
    forall i | 0 <= i < |t| - 1
      ensures t[i] != CheckedPath(true)
    {
      if i < |prelude| {
        assert t[i] == prelude[i];
      } else {
        assert t[i] == stage[i - |prelude|];
      }
    }
  }

  /**
   * `run_install` returns normally exactly when the last step is a
   * `check_path()` that found `tex`; no earlier check did, since the first
   * success ends the run.
   */
  lemma FlowReturnsOnlyWhenOnPath(args: Option<seq<string>>, w: World, asked: bool, res: Resolution,
                                  linkAt: Path -> LinkRun, initial: DestState)
    ensures var run := Flow(args, w, asked, res, linkAt, initial);
            && (run.outcome.Returned? <==> |run.trace| > 0 && run.trace[|run.trace| - 1] == CheckedPath(true))
            && forall i :: 0 <= i < |run.trace| - 1 ==> run.trace[i] != CheckedPath(true)
  {
    var run := Flow(args, w, asked, res, linkAt, initial);
    match args
    case None =>
      assert run.trace == [] && run.outcome == Exited(1);
    case Some(a) =>
      if w.installer != Started(0) {
        assert run.trace == [RanInstaller(a)] && run.outcome.Exited?;
      } else if w.probes.afterInstall {
        assert run.trace == [RanInstaller(a), CheckedPath(true)] && run.outcome.Returned?;
      } else {
        var prelude := PreludeSteps(a, false, asked);
        PreludeNotOnPath(a, asked);
        if res.Located? {
          var reg := RegisterRun(res.dir, w, linkAt(res.dir));
          assert run.trace == prelude + reg.trace && run.outcome == reg.outcome;
          RegisterReturns(res.dir, w, linkAt(res.dir));
          StagesReturn(prelude, reg.trace);
        } else {
          assert run.trace == prelude && !run.outcome.Returned?;
          assert |prelude| > 0 && prelude[|prelude| - 1] != CheckedPath(true);
        }
      }
  }

  /**
   * Which strategy wins, once the installer exited with status 0: its own
   * setup when the first check passes; `tlmgr path add` when an arch
   * directory is located, `tlmgr` starts and the second check passes; links
   * otherwise, and only when every link went through and the last check
   * passes. Nothing located means status 1, an unlistable root an escaping
   * `NotADirectoryError`. When linking is reached and does not make `tex`
   * reachable, `mkdir` meeting a non-directory escapes as
   * `FileExistsError`, an unlistable bin directory as `NotADirectoryError`,
   * and a failed link or a failed last check means status 1.
   */
  lemma FlowOutcome(a: seq<string>, w: World, asked: bool, res: Resolution, linkAt: Path -> LinkRun,
                    initial: DestState)
    requires w.installer == Started(0)
    ensures var run := Flow(Some(a), w, asked, res, linkAt, initial);
            && (run.outcome == Returned(OnPathAfterInstall) <==> w.probes.afterInstall)
            && (run.outcome == Returned(OnPathAfterPathAdd) <==>
                  !w.probes.afterInstall && res.Located? && w.tlmgrLaunches && w.probes.afterPathAdd)
            && (run.outcome == Returned(OnPathAfterLinks) <==>
                  && !w.probes.afterInstall && res.Located? && !(w.tlmgrLaunches && w.probes.afterPathAdd)
                  && linkAt(res.dir).result == Finished(true) && w.probes.afterLinks)
            && (!w.probes.afterInstall && res == NotLocated ==> run.outcome == Exited(1))
            && (!w.probes.afterInstall && res.RootNotListable? ==> run.outcome == Raised(CannotList(res.root)))
            && (!w.probes.afterInstall && res.Located? && !(w.tlmgrLaunches && w.probes.afterPathAdd) ==>
                  match linkAt(res.dir).result
                  case MkdirRaised => run.outcome == Raised(FileExists(SymlinkDestination))
                  case ListingRaised => run.outcome == Raised(CannotList(res.dir))
                  case Finished(ok) => !(ok && w.probes.afterLinks) ==> run.outcome == Exited(1))
  {
  }

  /**
   * On a consistent filesystem the link step can list the resolved
   * directory: once `mkdir` gets past the destination, the batch runs to
   * the end instead of raising `NotADirectoryError`, over names that are
   * distinct, as the per-name facts about the batch require.
   */
  lemma ResolvedDirListable(w: World, d: Path)
    requires Consistent(w.installed) && ResolvedBinDir(w.installed, w.tlmgrConf) == Located(d)
    ensures var links := SymlinkRun(w.installed, d, w.faults, w.LinkStart().status, w.LinkStart().entries);
            && (links.result.Finished? <==> w.LinkStart().status != Occupied)
            && IsDir(w.installed, d) && Distinct(Listing(w.installed, d).value)
  {
    ResolvedIsDir(w.installed, w.tlmgrConf, d);
    ListingDistinct(w.installed, d);
  }

  /** Without an installer script, or when the installer fails, nothing after it runs. */
  lemma FlowStopsEarly(args: Option<seq<string>>, w: World, asked: bool, res: Resolution, linkAt: Path -> LinkRun,
                       initial: DestState)
    requires args.None? || w.installer != Started(0)
    ensures var run := Flow(args, w, asked, res, linkAt, initial);
            && |run.trace| <= 1
            && (args.None? || w.installer == NotFound ==> run.after == initial)
            && (args.Some? && w.installer.Started? ==> run.after == w.installerDest)
            && (args.None? ==> run.outcome == Exited(1))
            && (args.Some? && w.installer == NotFound ==> run.outcome == Exited(1))
            && (args.Some? && w.installer.Started? ==> run.outcome == Exited(w.installer.status))
  {
  }

  /**
   * `tlmgr path add` sees the located directory in front of the inherited
   * `PATH`; the stage ends there exactly when `tlmgr` started and the
   * check after it passed, with `/usr/local/bin` as `tlmgr` left it;
   * otherwise the link step runs and `/usr/local/bin` is what it made.
   */
  lemma RegisterEffects(binDir: Path, w: World, links: LinkRun)
    ensures var run := RegisterRun(binDir, w, links);
            && run.trace[0] == RanPathAdd(PathAddEnv(binDir, w.envPath), w.tlmgrLaunches)
            && (run.outcome == Returned(OnPathAfterPathAdd) <==> w.tlmgrLaunches && w.probes.afterPathAdd)
            && (run.outcome == Returned(OnPathAfterPathAdd) ==> run.after == w.pathAddDest)
            && (run.outcome != Returned(OnPathAfterPathAdd) ==>
                  && LinkedInto(SymlinkDestination, links.result) in run.trace
                  && run.after == links.After())
  {
    var run := RegisterRun(binDir, w, links);
    var i := if w.tlmgrLaunches then 2 else 1;
    if run.outcome != Returned(OnPathAfterPathAdd) {
      assert run.trace[i] == LinkedInto(SymlinkDestination, links.result);
    }
  }

  /**
   * The helper's own code changes `/usr/local/bin` only in the link step:
   * the run leaves it as the last outside process did (none, the installer,
   * or `tlmgr path add` when the run stops after it), unless the run reached
   * the link step, and then it is what linking the located directory made it.
   */
  lemma FlowTouchesOnlyLinks(args: Option<seq<string>>, w: World, asked: bool, res: Resolution, linkAt: Path -> LinkRun,
                             initial: DestState)
    ensures var run := Flow(args, w, asked, res, linkAt, initial);
            || (run.after == initial && (args.None? || w.installer == NotFound))
            || (run.after == w.installerDest && args.Some? && w.installer.Started?)
            || (run.after == w.pathAddDest && run.outcome == Returned(OnPathAfterPathAdd) && w.tlmgrLaunches)
            || (&& res.Located? && LinkedInto(SymlinkDestination, linkAt(res.dir).result) in run.trace
                && run.after == linkAt(res.dir).After())
  {
    if args.Some? && w.installer == Started(0) && !w.probes.afterInstall && res.Located? {
      var reg := RegisterRun(res.dir, w, linkAt(res.dir));
      RegisterEffects(res.dir, w, linkAt(res.dir));
      var prelude := PreludeSteps(args.value, false, asked);
      if reg.outcome != Returned(OnPathAfterPathAdd) {
        var i :| 0 <= i < |reg.trace| && reg.trace[i] == LinkedInto(SymlinkDestination, linkAt(res.dir).result);
        assert (prelude + reg.trace)[|prelude| + i] == reg.trace[i];
      }
    }
  }

  /** With no bin directory anywhere and nothing from `tlmgr`, the run fails with status 1. */
  lemma NoBinaryScenario(fs: Tree, version: string, profile: string, mirror: string, archiveMirror: string,
                         workdir: Path, w: World, initial: DestState)
    requires LocateInstallTl(fs, workdir).Some? && w.installer == Started(0) && !w.probes.afterInstall
    requires !Exists(w.installed, KnownRoots[0]) && !Exists(w.installed, KnownRoots[1]) && w.tlmgrConf.None?
    ensures var run := InstallRun(fs, version, profile, mirror, archiveMirror, workdir, w, initial);
            && run.outcome == Exited(1) && Kinds(run.trace) == [KInstaller, KCheck, KQuery]
            && run.after == w.installerDest
  {
    CandidateRootOrder(w.installed);
  }

  /**
   * The fallback after a located bin directory, as `run_install` takes it:
   * `dest` is `/usr/local/bin`, as the installer left it.
   */
  method Register(binDir: Path, w: World, dest: LinkDir) returns (outcome: Outcome, steps: seq<Step>)
    requires dest.Valid() && w.WellFormed() && dest.State() == w.installerDest
    modifies dest
    ensures dest.Valid()
    ensures RegisterRun(binDir, w, SymlinkRun(w.installed, binDir, w.faults, w.LinkStart().status, w.LinkStart().entries))
            == Run(outcome, steps, dest.State())
  {
    steps := [RanPathAdd(PathAddEnv(binDir, w.envPath), w.tlmgrLaunches)];
    if w.tlmgrLaunches {
      dest.Replace(w.pathAddDest);
      steps := steps + [CheckedPath(w.probes.afterPathAdd)];
      if w.probes.afterPathAdd {
        return Returned(OnPathAfterPathAdd), steps;
      }
    }
    var linked := dest.SymlinkBinaries(w.installed, binDir, w.faults);
    steps := steps + [LinkedInto(SymlinkDestination, linked)];
    if linked.MkdirRaised? {
      return Raised(FileExists(SymlinkDestination)), steps;
    }
    if linked.ListingRaised? {
      return Raised(CannotList(binDir)), steps;
    }
    if !linked.success {
      return Exited(1), steps;
    }
    steps := steps + [CheckedPath(w.probes.afterLinks)];
    if w.probes.afterLinks {
      return Returned(OnPathAfterLinks), steps;
    }
    return Exited(1), steps;
  }

  /**
   * The rest of `run_install` once the installer succeeded and `tex` is
   * still not on `PATH`: resolve a bin directory, then register it.
   * `linkAt` is what the link step would do with a directory.
   */
  method Fallback(args: seq<string>, w: World, dest: LinkDir, ghost linkAt: Path -> LinkRun)
    returns (outcome: Outcome, trace: seq<Step>)
    requires dest.Valid() && w.WellFormed() && dest.State() == w.installerDest
    requires w.installer == Started(0) && !w.probes.afterInstall
    requires forall d :: linkAt(d) == SymlinkRun(w.installed, d, w.faults, w.LinkStart().status, w.LinkStart().entries)
    modifies dest
    ensures dest.Valid()
    ensures Flow(Some(args), w, AsksTlmgr(w.installed), ResolvedBinDir(w.installed, w.tlmgrConf), linkAt, old(dest.State()))
            == Run(outcome, trace, dest.State())
  {
    var resolution, asked := ResolveBinDir(w.installed, w.tlmgrConf);
    trace := PreludeSteps(args, false, asked);
    if resolution.RootNotListable? {
      return Raised(CannotList(resolution.root)), trace;
    }
    if resolution.NotLocated? {
      return Exited(1), trace;
    }
    var steps;
    assert linkAt(resolution.dir) == SymlinkRun(w.installed, resolution.dir, w.faults, w.LinkStart().status, w.LinkStart().entries);
    outcome, steps := Register(resolution.dir, w, dest);
    trace := trace + steps;
  }

  /**
   * `run_install` itself, step by step with early returns; `dest` is the
   * directory `/usr/local/bin`.
   */
  method RunInstall(fs: Tree, version: string, profile: string, mirror: string, archiveMirror: string,
                    workdir: Path, w: World, dest: LinkDir) returns (outcome: Outcome, trace: seq<Step>)
    requires dest.Valid() && w.WellFormed()
    modifies dest
    ensures dest.Valid()
    ensures InstallRun(fs, version, profile, mirror, archiveMirror, workdir, w, old(dest.State()))
            == Run(outcome, trace, dest.State())
  {
    ghost var initial := dest.State();
    ghost var linkAt := d => SymlinkRun(w.installed, d, w.faults, w.LinkStart().status, w.LinkStart().entries);
    assert InstallRun(fs, version, profile, mirror, archiveMirror, workdir, w, initial)
           == Flow(InstallerCommand(fs, workdir, version, profile, mirror, archiveMirror), w, AsksTlmgr(w.installed),
                   ResolvedBinDir(w.installed, w.tlmgrConf), linkAt, initial);

    var located := LocateInstallTl(fs, workdir);
    if located.None? {
      return Exited(1), [];
    }
    var args := InstallerArgs(located.value, profile, mirror, archiveMirror, version);
    match w.installer {
      case NotFound =>
        return Exited(1), [RanInstaller(args)];
      case Started(code) =>
        dest.Replace(w.installerDest);
        if code != 0 {
          return Exited(code), [RanInstaller(args)];
        }
    }
    if w.probes.afterInstall {
      return Returned(OnPathAfterInstall), PreludeSteps(args, true, false);
    }
    outcome, trace := Fallback(args, w, dest, linkAt);
  }
}
