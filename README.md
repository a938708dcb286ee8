# TeX Live installer helper, modelled in Dafny

`scripts/texlive.py` prepares a TeX Live installation inside a container
image. Given a version (`latest` or a release year), it does two things:

- it works out the URL of the installer archive;
- it starts `install-tl` with a profile and a repository.

When the fresh binaries are not on `PATH` afterwards, it tries three things in
strict order:

1. Find a TeX Live `bin/<arch>` directory. It searches the known
   installation roots in their fixed order, newest release first within
   each root, with `tlmgr conf texmf` as the last resort.
2. Run `tlmgr path add` with that directory in front of `PATH`.
3. Link every binary into `/usr/local/bin`.

No probe follows the search. A new `tex --version` probe follows `tlmgr path
add` only if `tlmgr` could be started, and follows the link step only if
every link went through.

The model has one module per concern:

- `Text` holds the Python `str` operations the helper relies on (`strip`,
  `rstrip(c)`, `split(None, 1)`, `split(c)`, `splitlines`).
- `Ordering` holds code-point string order and `sorted(..., reverse=True)`.
- `FileSystem` is a snapshot of the host filesystem as `pathlib` sees it: a
  map from path to file, directory (with its `iterdir` order) or symbolic
  link. `exists`, `is_file`, `is_dir` and `iterdir` follow up to 40 links.
- `Urls` covers the download URL, the cache buster, and the installer's
  command line.
- `Tlmgr` covers `TEXMFROOT` parsing, the `tlmgr` fallback search, and the
  `PATH` given to `tlmgr path add`.
- `Candidates` covers the candidate generator as the stream of directories it
  yields, plus `resolve_texlive_bin_dir` as a method with the generator's
  nested loops.
- `Symlinks` models the destination directory as a class whose entries
  `symlink_binaries` updates in place.
- `Install` covers `locate_install_tl` and the fallback chain of
  `run_install`. It has a method that runs the chain step by step, and a
  function `Flow` that it is proved equal to. `Flow` takes the installer's
  command line, the resolution, and what linking would do.

Processes are oracles, given as parameters:

- the installer's exit status, or the fact that it could not be started;
- the filesystem as the installer leaves it, which the bin-directory search
  reads (`locate_install_tl` reads the filesystem before the installer runs);
- `/usr/local/bin` as the installer leaves it, and as `tlmgr path add`
  leaves it (that command links the binaries into its own `sys_bin`, by
  default `/usr/local/bin`; the link step starts from what it left);
- the answers of the three `check_path()` probes;
- the captured output of `tlmgr conf texmf`, or its failure;
- whether `tlmgr path add` could be started;
- the names for which `unlink` or `os.symlink` raise `OSError`.

An exception the code does not catch becomes an explicit outcome:

- `iterdir` on a root that exists but is not a directory;
- `mkdir` when `/usr/local/bin` is occupied by a non-directory;
- `iterdir` in the link step, on a bin directory that cannot be listed.

On a consistent filesystem, where every path's parent is a directory
listing it, the last of these cannot happen, since a located bin directory
is then a real directory.

The model follows what the code does, including where it does less than
an installer helper might be expected to:

- The code accepts any version string other than `latest` verbatim,
  without checking it.
- It has no `find`-based search for `tex` beyond the known roots and
  `tlmgr`.
- It verifies no checksum of the archive.
- `symlink_binaries` replaces every existing non-directory entry it can
  remove under a binary's name, dangling links included. It does not skip
  names that already hold a link. A directory under that name, or an entry
  whose `unlink` is refused, stays, and that binary counts as a failure.

## Model

| member | source | states |
|---|---|---|
| Urls.AppendCacheBuster | scripts/texlive.py:31-34 | the URL is a prefix of the result; the result is the URL unchanged exactly when the token is empty or `"0"`; otherwise one separator follows, `&` exactly when the URL already holds `?` and `?` otherwise, then `ts=<token>` |
| Urls.CacheBusterTwice | scripts/texlive.py:31-34 | a busted URL already has a query, so busting it again appends `&ts=<token>` |
| Urls.HistoricRepository | scripts/texlive.py:43-44 | the archive mirror without its trailing `/`s, then `/<version>/tlnet-final` |
| Urls.InstallerUrl | scripts/texlive.py:39-44 | for `latest`: the mirror without its trailing `/`s, `/`, the archive name; otherwise: the historic repository, `/`, the archive name |
| Urls.LatestUrlSingleSlash | scripts/texlive.py:40-41 | for a mirror that is not all `/`s, exactly one `/` separates the mirror from the archive name |
| Urls.DownloadRequest | scripts/texlive.py:37-46 | the request URL is the installer URL with the cache buster applied, so it extends the installer URL and equals it when the buster is inactive; the output path is `output` when given and the archive name otherwise |
| Urls.DefaultDownload | scripts/texlive.py:15-18 | with every default, the request fetches `install-tl-unx.tar.gz` from `https://mirror.ctan.org/systems/texlive/tlnet` into a file of that name |
| Urls.DefaultHistoricDownload | scripts/texlive.py:16-18 | with the defaults, a release year is fetched from `ftp://tug.org/historic/systems/texlive/<year>/tlnet-final` without a query |
| Urls.LocationOf | scripts/texlive.py:182 | the mirror without its trailing `/`s, then exactly one `/` |
| Urls.InstallerArgs | scripts/texlive.py:183-186 | the first four arguments are `perl`, the script, `--profile=<profile>` and `--location=<mirror>/`; a fifth one, `--repository=<historic repository>`, is present exactly when the version is not `latest` |
| Urls.ArgsAgreeWithDownload | scripts/texlive.py:37-46 | the installer's location (for `latest`) or repository (otherwise) is the directory URL the archive was downloaded from |
| Install.LocateInstallTl | scripts/texlive.py:89-97 | `workdir/install-tl` when it is a regular file; otherwise `workdir/install-tl/install-tl` when that is; otherwise nothing, exactly when neither is a regular file |
| Text.SplitLines | scripts/texlive.py:132 | no line holds a line boundary |
| Text.RStripChar | scripts/texlive.py:40-43 | `s.rstrip(c)`, used on the mirrors at lines 40, 43 and 182: the prefix of `s` that does not end in `c` and is followed only by `c`s |
| Text.LStrip | scripts/texlive.py:133 | `lstrip()`: a suffix of the string, preceded only by whitespace and not starting with whitespace |
| Text.RStrip | scripts/texlive.py:133 | `rstrip()`: a prefix of the string, followed only by whitespace and not ending with whitespace |
| Text.Strip | scripts/texlive.py:133 | the result neither starts nor ends with whitespace |
| Text.StripParts | scripts/texlive.py:133 | the string is a run of whitespace, its stripped form, and a run of whitespace |
| Text.StripAround | scripts/texlive.py:133 | stripping whitespace runs off both sides of a string that neither starts nor ends with whitespace gives that string back |
| Text.SplitWsOnce | scripts/texlive.py:135 | at most two parts |
| Text.SplitWsOnceShape | scripts/texlive.py:135 | no parts exactly for an all-whitespace string; the first part is a non-empty word without whitespace; with two parts, the left-stripped string is the word, a non-empty whitespace gap and the second part, which starts with a non-space; with one part, only whitespace follows the word |
| Text.TwoParts | scripts/texlive.py:135 | a string that starts with a non-space and splits in two is the first part, a non-empty whitespace gap and the second part |
| Tlmgr.TexmfRoot | scripts/texlive.py:133-137 | any root found neither starts nor ends with whitespace |
| Tlmgr.TexmfRootExactly | scripts/texlive.py:133-137 | a line yields the root `r` exactly when it is whitespace, `TEXMFROOT`, more non-whitespace (so `TEXMFROOTX /p` counts), a non-empty whitespace gap, `r`, and whitespace, where `r` is non-empty and neither starts nor ends with whitespace |
| Tlmgr.TexmfRootSound | scripts/texlive.py:133-137 | a line that yields a root has that shape around it |
| Tlmgr.TexmfRootComplete | scripts/texlive.py:133-137 | a line of that shape yields exactly its root |
| Tlmgr.TexmfRootRoundTrip | scripts/texlive.py:133-137 | `TEXMFROOT`, any run of whitespace and a path that neither starts nor ends with whitespace parse back to that path |
| Tlmgr.KeyLineParts | scripts/texlive.py:134-136 | a stripped line starting with `TEXMFROOT` that splits in two is the key, the rest of its word, a whitespace gap and the second part |
| Tlmgr.RootsOfLines | scripts/texlive.py:132-137 | the roots the `TEXMFROOT` lines among `lines` yield, in line order, at most one per line; see TexmfRootExactly for what one line yields |
| Tlmgr.TexmfRoots | scripts/texlive.py:132-137 | the roots named in `tlmgr conf texmf`'s output, over its `splitlines()` lines; see RootsOfLines |
| Tlmgr.RootBinDir | scripts/texlive.py:138-142 | a hit is `<root>/bin/<a>` for an entry `a` of the directory `<root>/bin` and holds a regular file `tex`; it is the first such entry in `iterdir` order; there is none exactly when `<root>/bin` is no directory or none of its entries holds `tex` |
| Tlmgr.FirstRootBinDir | scripts/texlive.py:132-143 | the hit of the first root in `roots` that has one, and none when no root has one; see FirstRootBinDirNone and FirstRootBinDirSome |
| Tlmgr.TlmgrBinDir | scripts/texlive.py:124-143 | `bin_dir_from_tlmgr`: nothing when `tlmgr` fails, otherwise the first hit among the roots its output names; see TlmgrBinDirFirstHit and TlmgrBinDirSound |
| Tlmgr.FirstRootBinDirNone | scripts/texlive.py:132-143 | no answer means no listed root has a hit |
| Tlmgr.FirstRootBinDirSome | scripts/texlive.py:132-143 | an answer is the hit of some listed root, and no root listed before it has one |
| Tlmgr.TlmgrBinDirFirstHit | scripts/texlive.py:132-143 | the answer for `tlmgr`'s output is the hit of the first `TEXMFROOT` root that has one, and none exactly when no such root has one |
| Tlmgr.TlmgrBinDirSound | scripts/texlive.py:124-143 | any answer means the `tlmgr` call succeeded; the answer holds `tex` and is the hit of a root named in its output |
| Tlmgr.PathAddEnv | scripts/texlive.py:154-155 | the `PATH` is the bin directory when the inherited `PATH` is unset or empty, and otherwise the bin directory, `:` and the inherited `PATH` |
| Tlmgr.PathAddEnvEntries | scripts/texlive.py:154-155 | for a bin directory free of `:`, the `PATH` entries are the bin directory followed by the inherited entries, unchanged |
| Text.JoinSplitOn | scripts/texlive.py:155 | splitting a search path on `:` and joining it back gives the same string |
| FileSystem.Listing | scripts/texlive.py:114 | `iterdir` succeeds exactly on directories, symbolic links followed |
| FileSystem.Stat | scripts/texlive.py:112 | the node a path stands for, with links followed up to 40 hops: nothing for a missing path, the path's own node when it is no link, and never a link |
| FileSystem.LinkToFileIsFile | scripts/texlive.py:167 | a link to a regular file is a file to `is_file` and still a symlink |
| FileSystem.DanglingLinkIsOnlySymlink | scripts/texlive.py:171 | a dangling link does not exist but is a symlink, so the link step still removes it |
| FileSystem.ExistsOrSymlink | scripts/texlive.py:171 | `exists() or is_symlink()` holds exactly for the paths present in the snapshot, which is the test the link step makes on the destination's entries |
| FileSystem.ChildMakesDir | scripts/texlive.py:119-120 | on a consistent filesystem, anything at `<d>/<name>` makes `d` a listable directory with `name` among its entries |
| FileSystem.ListingDistinct | scripts/texlive.py:166 | on a consistent filesystem `iterdir` yields each name of a directory once |
| FileSystem.HasTexIsDir | scripts/texlive.py:119-121 | on a consistent filesystem, a path holding a regular file `tex` is a directory whose listing has `tex` |
| FileSystem.TexDirs | scripts/texlive.py:118-121 | every arch directory yielded holds a regular file `tex` |
| FileSystem.TexDirsMembers | scripts/texlive.py:118-121 | a directory is yielded exactly when it is `<bin>/<a>` for an entry `a` and holds `tex` |
| FileSystem.TexDirsHead | scripts/texlive.py:118-121 | the first directory yielded is `<bin>/<a>` for an entry `a` with no `tex`-holding entry before it in `iterdir` order; none is yielded exactly when no entry holds `tex` |
| Ordering.LexLeTotal | scripts/texlive.py:114 | any two names are ordered one way or the other |
| Ordering.LexLeTransitive | scripts/texlive.py:114 | the order is transitive |
| Ordering.LexLeAntisymmetric | scripts/texlive.py:114 | names ordered both ways are equal |
| Ordering.InsertDesc | scripts/texlive.py:114 | inserting into a descending list keeps it descending and adds exactly that name |
| Ordering.SortDesc | scripts/texlive.py:114 | the result is descending and a permutation of the entries |
| Ordering.SortDescUnique | scripts/texlive.py:114 | any descending permutation of the entries is the sorted list |
| Ordering.GreaterFirst | scripts/texlive.py:114 | a strictly greater name comes strictly earlier in the sorted list |
| Candidates.RootDirs | scripts/texlive.py:111-114 | a missing root contributes nothing; the generator raises at a root exactly when it exists but is not a directory |
| Candidates.EntryDirs | scripts/texlive.py:115-121 | the `tex`-holding arch directories of `<root>/<entry>/bin` in `iterdir` order, nothing when `bin` is no directory; see EntryDirsMembers |
| Candidates.EntriesDirs | scripts/texlive.py:114-121 | what the entries yield, entry after entry; see EntriesDirsMembers, EntriesDirsBefore and NewerEntryFirst |
| Candidates.RootsStream | scripts/texlive.py:110-121 | the generator over `roots`, as the directories yielded and the root it raises at, if any; see StreamSound and StreamAtRoot |
| Candidates.CandidateBinDirs | scripts/texlive.py:110-121 | `iter_candidate_bin_dirs()`, the stream over the known roots; see CandidateSound, CandidateComplete and CandidateRootOrder |
| Candidates.EntryDirsMembers | scripts/texlive.py:115-121 | an entry contributes exactly the `tex`-holding arch directories of its `bin`, if `bin` is a directory |
| Candidates.EntriesDirsMembers | scripts/texlive.py:114-121 | a root's entries contribute exactly the union of what each entry contributes |
| Candidates.EntriesDirsBefore | scripts/texlive.py:114-121 | the directories of an earlier entry come before those of a later one |
| Candidates.NewerEntryFirst | scripts/texlive.py:114-121 | within a root, the directories under a greater entry name come before those under a smaller one |
| Candidates.RootDirsMembers | scripts/texlive.py:111-121 | a listable root contributes exactly the directories of its entries |
| Candidates.StreamSound | scripts/texlive.py:110-121 | everything yielded holds `tex` and lies under `<root>/<entry>/bin` for a listable root and one of its entries |
| Candidates.CandidateSound | scripts/texlive.py:110-121 | the same, for the known roots |
| Candidates.CandidateComplete | scripts/texlive.py:110-121 | every `tex`-holding arch directory of an entry of a listable known root is yielded, unless an earlier root made the generator raise |
| Candidates.CandidateRootOrder | scripts/texlive.py:110-114 | the second root's directories follow all of the first root's; the stream stops, raising, at the first root that exists but is no directory |
| Candidates.StreamAtRoot | scripts/texlive.py:111-114 | at each root the generator skips a missing root, raises at a non-directory, or yields its entries' directories ahead of the later roots' |
| Candidates.ResolvedHasTex | scripts/texlive.py:146-149 | whatever resolution settles on holds a regular file `tex` |
| Candidates.ResolvedBinDir | scripts/texlive.py:146-149 | `resolve_texlive_bin_dir()`: the stream's first directory; the raise when the stream raises before yielding one; otherwise `tlmgr`'s answer; see ResolveBinDir, ResolvedHasTex and ResolvedIsDir |
| Candidates.ResolvedIsDir | scripts/texlive.py:110-149 | on a consistent filesystem, every candidate and whatever resolution settles on is a directory |
| Candidates.FirstTexDir | scripts/texlive.py:118-121 | the first `tex`-holding arch directory in `iterdir` order, or none exactly when there is none |
| Candidates.FirstEntryDir | scripts/texlive.py:114-121 | the first directory the entries of a root yield, or none exactly when they yield none |
| Candidates.ResolveBinDir | scripts/texlive.py:146-149 | the result is the generator's first directory, or the raise where it raises; `tlmgr` is asked exactly when the generator yields nothing and finishes |
| Symlinks.StepOther | scripts/texlive.py:169-176 | processing one entry leaves every other destination name alone |
| Symlinks.StepSelf | scripts/texlive.py:169-176 | processing an entry does to its own name what the batch specification says |
| Symlinks.Blocked | scripts/texlive.py:171-175 | an existing entry that cannot be removed: a directory, which `unlink` refuses, or an entry whose `unlink` raises |
| Symlinks.LinkStep | scripts/texlive.py:167-176 | one pass of the loop over the destination and the flag; see StepOther and StepSelf |
| Symlinks.LinkAll | scripts/texlive.py:166-177 | the loop over the listed names in order; see LinkAllEntries, LinkAllSuccess and LinkAllIdempotent |
| Symlinks.Expected | scripts/texlive.py:166-176 | the independent per-name statement of the outcome: untouched, kept, removed, or linked to the bin directory's file; see LinkAllEntries |
| Symlinks.SymlinkRun | scripts/texlive.py:163-177 | `symlink_binaries` as a whole: the `mkdir` raise, the `iterdir` raise, or the batch's destination and flag; see SymlinkBinaries and ResolvedDirListable |
| Symlinks.LinkAllEntries | scripts/texlive.py:166-177 | each destination name ends up as specified: a name that is not a regular file of the bin directory is untouched; an entry that cannot be removed (a directory, or `unlink` raising) is kept; an entry removed when `symlink` then raises is gone; otherwise it is a link to the bin directory's file, whatever was there before, dangling links included |
| Symlinks.LinkAllSuccess | scripts/texlive.py:165-177 | the batch reports success exactly when no entry fails; a failing entry does not stop the others |
| Symlinks.LinkAllIdempotent | scripts/texlive.py:169-173 | without faults, a second run leaves the destination as the first run left it and reports the same result |
| Symlinks.LinkDir.LinkEntry | scripts/texlive.py:167-176 | one pass of the loop, inside the existing destination directory, changes the destination as the step function says, keeps it an existing directory, and reports whether the entry went through |
| Symlinks.LinkDir.SymlinkBinaries | scripts/texlive.py:163-177 | `mkdir` raises on an occupied destination; otherwise the destination becomes a directory, `iterdir` raises on an unlistable bin directory, and the loop leaves the destination and flag as the batch specification says |
| Install.InstallerCommand | scripts/texlive.py:181-186 | a command line exists exactly when the script was found, and it is that script's installer arguments |
| Install.PreludeSteps | scripts/texlive.py:188-195 | the installer run, the first probe, and the `tlmgr` query when the candidate search yields nothing; see PreludeInOrder |
| Install.RegisterRun | scripts/texlive.py:200-208 | the fallback stage after a located directory; see RegisterInOrder, RegisterReturns and RegisterEffects |
| Install.Flow | scripts/texlive.py:180-208 | the control flow of `run_install` over its oracles; see FlowStopsEarly, FlowOutcome, FlowReturnsOnlyWhenOnPath, FlowStepsInOrder and FlowTouchesOnlyLinks |
| Install.InstallRun | scripts/texlive.py:180-208 | `run_install` over the filesystem and the world: the script is looked up before the install, the bin directory after it; see RunInstall and NoBinaryScenario |
| Install.FlowStopsEarly | scripts/texlive.py:181-189 | without the script, status 1; when the installer cannot start, status 1; when it exits nonzero, that status; nothing else runs, and `/usr/local/bin` is as the installer left it, or untouched when it did not start |
| Install.PreludeInOrder | scripts/texlive.py:189-195 | the installer runs, then the first probe, then the `tlmgr` query if made |
| Install.RegisterInOrder | scripts/texlive.py:200-205 | path add, its probe, the links, their probe, in that order |
| Install.FlowStepsInOrder | scripts/texlive.py:180-208 | every run's steps are in the order installer, probe, `tlmgr` query, path add, probe, links, probe |
| Install.RegisterReturns | scripts/texlive.py:200-205 | the fallback stage returns exactly when its last step is a probe that found `tex`, and no probe before it did |
| Install.FlowReturnsOnlyWhenOnPath | scripts/texlive.py:191-208 | `run_install` returns normally exactly when its last step is a successful probe, and no earlier probe succeeded |
| Install.FlowOutcome | scripts/texlive.py:191-208 | after a successful install: the first probe's success returns at once; a located directory plus a launched `tlmgr` plus a successful probe returns after path add; otherwise the run returns exactly when linking fully succeeds and the last probe passes; an occupied destination raises `FileExistsError`, an unlistable bin directory raises, and a partial link batch or a failed last probe exits with 1; nothing located exits with 1; an unlistable root raises |
| Install.ResolvedDirListable | scripts/texlive.py:164-166 | on a consistent filesystem the link step for the resolved directory raises only at `mkdir` on an occupied destination, and otherwise runs its whole batch; the resolved directory is a directory whose names are distinct, as the per-name batch facts require |
| Install.RegisterEffects | scripts/texlive.py:200-205 | `tlmgr path add` runs first, with the bin directory in front of `PATH`; the stage returns after it exactly when it started and the probe passed, and `/usr/local/bin` is then as `tlmgr` left it; otherwise the link step runs and `/usr/local/bin` is what it made |
| Install.FlowTouchesOnlyLinks | scripts/texlive.py:180-205 | the helper's own code changes `/usr/local/bin` only in the link step: it is as the last outside process left it (none, the installer, or `tlmgr path add` when the run returns after it), or the run linked the located directory and it is what linking made it |
| Install.NoBinaryScenario | scripts/texlive.py:195-198 | with neither known root present after the install and `tlmgr` failing, the run exits with status 1 after installer, probe and query, leaving `/usr/local/bin` as the installer did |
| Symlinks.LinkDir.Replace | scripts/texlive.py:189 | another process (the installer, `tlmgr path add`) leaves the destination directory in the given state |
| Install.Register | scripts/texlive.py:200-208 | the fallback stage, step by step, equals its specification, including the destination directory's new state; the link step starts from `/usr/local/bin` as `tlmgr path add` left it when it ran |
| Install.Fallback | scripts/texlive.py:195-208 | once the installer succeeded and the first probe failed, the resolution, optional `tlmgr` query and fallback stage, step by step, equal their specification |
| Install.RunInstall | scripts/texlive.py:180-208 | `run_install`, step by step with early returns, equals its specification, the script being looked up before the install and the bin directory after it, including the destination directory's new state |

## Left out

- The network transfer in `download_installer` (`urlopen` and the copy to disk) is I/O. Only the URL requested and the output path are modelled.
- `run_subprocess`, and the real `perl`, `tex --version` and `tlmgr` processes, are not modelled. They are replaced by their observable results, given as parameters. The working directory given to the installer is not modelled either.
- The `PATH` default (`/usr/local/bin:/usr/bin:/bin`) set up for `tlmgr conf texmf` only affects which `tlmgr` process starts, so it is not modelled.
- Logging, `configure_logging`, `parse_args` and `main` are plumbing with no decisions beyond picking a command, so they are not modelled.
- The model does not normalise paths. `Path(...)` collapsing `//` or a trailing `/` in a `TEXMFROOT` value is not modelled; paths are joined as `dir + "/" + name`.
- Only the final component of a path resolves through symbolic links. A link in the middle of a path is a key of the snapshot like any other.
- FileSystem.Tree: a snapshot need not be a consistent tree. The facts that a candidate or a resolved bin directory is a real directory, and that the link step cannot fail to list it, are proved only under `FileSystem.Consistent`.
- What the installer and `tlmgr path add` write, to the TeX Live tree and to `/usr/local/bin`, is given as the states they leave; how they produce them is not modelled.
- `iterdir` order is taken from the snapshot, as the order the snapshot lists. Only the explicit `sorted(..., reverse=True)` is computed, by code-point comparison of the entry names.
- The model does not capture aliasing between the bin directory being read and `/usr/local/bin` being written. The snapshot of the bin directory does not see the links the batch creates.
- `OSError` other than refusals of `unlink` and `os.symlink` is not modelled. That covers permission errors in `mkdir`, `iterdir` and `is_file`. The same goes for `mkdir` failing because a parent is not a directory.
- Symlinks.LinkDir.SymlinkBinaries: when `/usr/local/bin` is missing, the new directory starts empty. Other content created concurrently is not modelled.
- Text.SplitLines: its contract states only that no line holds a line boundary. Its agreement with `str.splitlines` is carried by its definition.
- Text: Python strings can hold lone surrogates, for instance from filenames decoded with `surrogateescape`. Dafny characters cannot, so such strings are not modelled.
