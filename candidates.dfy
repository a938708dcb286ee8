/**
 * `iter_candidate_bin_dirs` and `resolve_texlive_bin_dir`: the search for a
 * TeX Live `bin/<arch>` directory under the known installation roots, with
 * `tlmgr` as the last resort.
 *
 * The generator is modelled by `CandidateBinDirs`, the stream of directories
 * it yields. A root that exists but is not a directory makes `iterdir` raise
 * once the generator reaches it; the stream then ends with `raisedAt` naming
 * that root, after the directories already yielded.
 */
module Candidates {
  import opened Wrappers
  import opened FileSystem
  import opened Ordering
  import opened Tlmgr

  /** `KNOWN_TEXLIVE_ROOTS`, in search order. */
  const KnownRoots: seq<Path> := ["/usr/local/texlive", "/opt/texlive"]

  /** `<root>/<entry>/bin`. */
  function BinRootOf(root: Path, entry: string): Path {
    Join(Join(root, entry), "bin")
  }

  /** The directories yielded for one entry of a root: none when its `bin` is no directory. */
  function EntryDirs(fs: Tree, root: Path, entry: string): seq<Path> {
    match Listing(fs, BinRootOf(root, entry))
    case None => []
    case Some(archs) => TexDirs(fs, BinRootOf(root, entry), archs)
  }

  /** The directories yielded for the entries `entries` of `root`, in that order. */
  function EntriesDirs(fs: Tree, root: Path, entries: seq<string>): seq<Path> {
    if entries == [] then [] else EntryDirs(fs, root, entries[0]) + EntriesDirs(fs, root, entries[1..])
  }

  /**
   * The directories yielded for one root: nothing for a missing root, its
   * entries in descending name order for a directory, and `None` (the
   * generator raises) for a root that exists but is not a directory.
   */
  function RootDirs(fs: Tree, root: Path): (r: Option<seq<Path>>)
    ensures r.None? <==> Exists(fs, root) && !IsDir(fs, root)
    ensures !Exists(fs, root) ==> r == Some([])
  {
    if !Exists(fs, root) then Some([])
    else match Listing(fs, root)
      case None => None
      case Some(names) => Some(EntriesDirs(fs, root, SortDesc(names)))
  }

  /** What a generator yields before it finishes, and the root it raised at, if any. */
  datatype Stream = Stream(items: seq<Path>, raisedAt: Option<Path>)

  function RootsStream(fs: Tree, roots: seq<Path>): Stream {
    if roots == [] then Stream([], None)
    else match RootDirs(fs, roots[0])
      case None => Stream([], Some(roots[0]))
      case Some(here) =>
        var rest := RootsStream(fs, roots[1..]);
        Stream(here + rest.items, rest.raisedAt)
  }

  /** Everything `iter_candidate_bin_dirs()` yields, in order. */
  function CandidateBinDirs(fs: Tree): Stream {
    RootsStream(fs, KnownRoots)
  }

  /** `x` occurs in `s` at some position before a position holding `y`. */
  ghost predicate Before(s: seq<Path>, x: Path, y: Path) {
    exists i, j :: 0 <= i < j < |s| && s[i] == x && s[j] == y
  }

  lemma ConcatBefore(a: seq<Path>, b: seq<Path>, x: Path, y: Path)
    requires x in a && y in b
    ensures Before(a + b, x, y)
  {
    var i :| 0 <= i < |a| && a[i] == x;
    var j :| 0 <= j < |b| && b[j] == y;
    assert (a + b)[i] == x && (a + b)[|a| + j] == y;
  }

  lemma ShiftBefore(a: seq<Path>, b: seq<Path>, x: Path, y: Path)
    requires Before(b, x, y)
    ensures Before(a + b, x, y)
  {
    var i, j :| 0 <= i < j < |b| && b[i] == x && b[j] == y;
    assert (a + b)[|a| + i] == x && (a + b)[|a| + j] == y;
  }

  /** A directory is yielded for an entry exactly when it is a `tex`-holding arch dir of its `bin`. */
  lemma EntryDirsMembers(fs: Tree, root: Path, entry: string, p: Path)
    ensures p in EntryDirs(fs, root, entry) <==>
      && IsDir(fs, BinRootOf(root, entry))
      && (exists a :: a in Listing(fs, BinRootOf(root, entry)).value && p == Join(BinRootOf(root, entry), a))
      && HasTex(fs, p)
  {
    var b := BinRootOf(root, entry);
    if IsDir(fs, b) {
      TexDirsMembers(fs, b, Listing(fs, b).value, p);
    }
  }

  lemma {:induction false} EntriesDirsMembers(fs: Tree, root: Path, entries: seq<string>, p: Path)
    ensures p in EntriesDirs(fs, root, entries) <==> exists e :: e in entries && p in EntryDirs(fs, root, e)
  {
    if entries != [] {
      var first, rest := entries[0], entries[1..];
      assert entries == [first] + rest;
      EntriesDirsMembers(fs, root, rest, p);
      assert EntriesDirs(fs, root, entries) == EntryDirs(fs, root, first) + EntriesDirs(fs, root, rest);
      if p in EntryDirs(fs, root, first) {
        assert first in entries;
      } else if p in EntriesDirs(fs, root, rest) {
        var e :| e in rest && p in EntryDirs(fs, root, e);
        assert e in entries;
      } else {
        forall e | e in entries
          ensures p !in EntryDirs(fs, root, e)
        {
          assert e == first || e in rest;
        }
      }
    }
  }

  /** The concatenation of `parts`, in order. */
  function Flat(parts: seq<seq<Path>>): seq<Path> {
    if parts == [] then [] else parts[0] + Flat(parts[1..])
  }

  lemma {:induction false} FlatMember(parts: seq<seq<Path>>, j: nat, y: Path)
    requires j < |parts| && y in parts[j]
    ensures y in Flat(parts)
    decreases j
  {
    if j > 0 {
      FlatMember(parts[1..], j - 1, y);
    }
  }

  lemma {:induction false} FlatBefore(parts: seq<seq<Path>>, i: nat, j: nat, x: Path, y: Path)
    requires i < j < |parts| && x in parts[i] && y in parts[j]
    ensures Before(Flat(parts), x, y)
    decreases i
  {
    if i == 0 {
      FlatMember(parts[1..], j - 1, y);
      ConcatBefore(parts[0], Flat(parts[1..]), x, y);
    } else {
      FlatBefore(parts[1..], i - 1, j - 1, x, y);
      ShiftBefore(parts[0], Flat(parts[1..]), x, y);
    }
  }

  /** The directories of each entry of `entries`, entry by entry. */
  function EntryParts(fs: Tree, root: Path, entries: seq<string>): (parts: seq<seq<Path>>)
    ensures |parts| == |entries|
    ensures forall k :: 0 <= k < |entries| ==> parts[k] == EntryDirs(fs, root, entries[k])
  {
    if entries == [] then [] else [EntryDirs(fs, root, entries[0])] + EntryParts(fs, root, entries[1..])
  }

  lemma {:induction false} EntriesDirsFlat(fs: Tree, root: Path, entries: seq<string>)
    ensures EntriesDirs(fs, root, entries) == Flat(EntryParts(fs, root, entries))
  {
    if entries != [] {
      EntriesDirsFlat(fs, root, entries[1..]);
      assert EntryParts(fs, root, entries)[1..] == EntryParts(fs, root, entries[1..]);
    }
  }

  /** Directories of an earlier entry come before directories of a later one. */
  lemma EntriesDirsBefore(fs: Tree, root: Path, entries: seq<string>, i: nat, j: nat, x: Path, y: Path)
    requires i < j < |entries|
    requires x in EntryDirs(fs, root, entries[i]) && y in EntryDirs(fs, root, entries[j])
    ensures Before(EntriesDirs(fs, root, entries), x, y)
  {
    EntriesDirsFlat(fs, root, entries);
    FlatBefore(EntryParts(fs, root, entries), i, j, x, y);
  }

  /**
   * Within a root, a directory under a greater entry name (a newer release
   * year) is yielded before any directory under a smaller one.
   */
  lemma NewerEntryFirst(fs: Tree, root: Path, newer: string, older: string, x: Path, y: Path)
    requires IsDir(fs, root)
    requires newer in Listing(fs, root).value && older in Listing(fs, root).value
    requires LexLe(older, newer) && older != newer
    requires x in EntryDirs(fs, root, newer) && y in EntryDirs(fs, root, older)
    ensures RootDirs(fs, root).Some? && Before(RootDirs(fs, root).value, x, y)
  {
    var sorted := SortDesc(Listing(fs, root).value);
    GreaterFirst(Listing(fs, root).value, newer, older);
    var i, j :| 0 <= i < j < |sorted| && sorted[i] == newer && sorted[j] == older;
    EntriesDirsBefore(fs, root, sorted, i, j, x, y);
  }

  /** What a root contributes: a directory of one of its entries, and any such directory. */
  lemma RootDirsMembers(fs: Tree, root: Path, p: Path)
    requires RootDirs(fs, root).Some?
    ensures p in RootDirs(fs, root).value <==>
      IsDir(fs, root) && exists e :: e in Listing(fs, root).value && p in EntryDirs(fs, root, e)
  {
    if IsDir(fs, root) {
      var names := Listing(fs, root).value;
      EntriesDirsMembers(fs, root, SortDesc(names), p);
      assert forall e :: e in SortDesc(names) <==> e in names by {
        forall e ensures e in SortDesc(names) <==> e in names {
          assert e in SortDesc(names) <==> e in multiset(SortDesc(names));
          assert e in names <==> e in multiset(names);
        }
      }
    }
  }

  /** Only `tex`-holding directories `<root>/<entry>/bin/<arch>` under a known root are yielded. */
  lemma {:induction false} StreamSound(fs: Tree, roots: seq<Path>, p: Path)
    requires p in RootsStream(fs, roots).items
    ensures HasTex(fs, p)
    ensures exists i, e :: 0 <= i < |roots| && IsDir(fs, roots[i]) && e in Listing(fs, roots[i]).value
                           && p in EntryDirs(fs, roots[i], e)
  {
    var here := RootDirs(fs, roots[0]).value;
    var rest := RootsStream(fs, roots[1..]);
    if p in here {
      RootDirsMembers(fs, roots[0], p);
      var e :| e in Listing(fs, roots[0]).value && p in EntryDirs(fs, roots[0], e);
      EntryDirsMembers(fs, roots[0], e, p);
    } else {
      StreamSound(fs, roots[1..], p);
      var i, e :| 0 <= i < |roots[1..]| && IsDir(fs, roots[1..][i]) && e in Listing(fs, roots[1..][i]).value
                  && p in EntryDirs(fs, roots[1..][i], e);
      assert roots[1..][i] == roots[i + 1];
    }
  }

  lemma CandidateSound(fs: Tree, p: Path)
    requires p in CandidateBinDirs(fs).items
    ensures HasTex(fs, p)
    ensures exists i, e :: 0 <= i < |KnownRoots| && IsDir(fs, KnownRoots[i]) && e in Listing(fs, KnownRoots[i]).value
                           && p in EntryDirs(fs, KnownRoots[i], e)
  {
    StreamSound(fs, KnownRoots, p);
  }

  /**
   * Every `tex`-holding directory of an entry of a listable known root is
   * yielded, unless an earlier root made the generator raise.
   */
  lemma CandidateComplete(fs: Tree, i: nat, e: string, p: Path)
    requires i < |KnownRoots| && IsDir(fs, KnownRoots[i]) && e in Listing(fs, KnownRoots[i]).value
    requires p in EntryDirs(fs, KnownRoots[i], e)
    requires forall j :: 0 <= j < i ==> RootDirs(fs, KnownRoots[j]).Some?
    ensures p in CandidateBinDirs(fs).items
  {
    var root := KnownRoots[i];
    RootDirsMembers(fs, root, p);
    assert p in RootDirs(fs, root).value;
    CandidateRootOrder(fs);
    var r0, r1 := KnownRoots[0], KnownRoots[1];
    if i == 0 {
      assert root == r0;
    } else {
      assert root == r1 && RootDirs(fs, r0).Some?;
    }
  }

  /**
   * The roots are searched in `KNOWN_TEXLIVE_ROOTS` order: everything from
   * the first root precedes everything from the second, and the generator
   * raises at the first root (in that order) that exists but is not a directory.
   */
  lemma CandidateRootOrder(fs: Tree)
    ensures var s := CandidateBinDirs(fs);
            match RootDirs(fs, KnownRoots[0])
            case None => s == Stream([], Some(KnownRoots[0]))
            case Some(first) =>
              match RootDirs(fs, KnownRoots[1])
              case None => s == Stream(first, Some(KnownRoots[1]))
              case Some(second) =>
                && s == Stream(first + second, None)
                && forall x, y :: x in first && y in second ==> Before(s.items, x, y)
  {
    var r0, r1 := KnownRoots[0], KnownRoots[1];
    assert KnownRoots[1..] == [r1] && [r1][1..] == [];
    var tail := RootsStream(fs, [r1]);
    assert RootsStream(fs, [r1][1..]) == Stream([], None);
    match RootDirs(fs, r0)
    case None =>
    case Some(first) =>
      assert CandidateBinDirs(fs) == Stream(first + tail.items, tail.raisedAt);
      match RootDirs(fs, r1)
      case None =>
        assert tail == Stream([], Some(r1));
        assert first + [] == first;
      case Some(second) =>
        assert tail == Stream(second + [], None);
        assert second + [] == second;
        forall x, y | x in first && y in second ensures Before(first + second, x, y) {
          ConcatBefore(first, second, x, y);
        }
  }

  /** The outcome of `resolve_texlive_bin_dir`; a root that is no directory makes it raise. */
  datatype Resolution = Located(dir: Path) | NotLocated | RootNotListable(root: Path)

  /** `resolve_texlive_bin_dir()`: the first candidate, else what `tlmgr conf texmf` leads to. */
  function ResolvedBinDir(fs: Tree, tlmgrOut: Option<string>): Resolution {
    var s := CandidateBinDirs(fs);
    if s.items != [] then Located(s.items[0])
    else if s.raisedAt.Some? then RootNotListable(s.raisedAt.value)
    else match TlmgrBinDir(fs, tlmgrOut)
      case Some(d) => Located(d)
      case None => NotLocated
  }

  /** Whatever directory resolution settles on holds a regular file `tex`. */
  lemma ResolvedHasTex(fs: Tree, tlmgrOut: Option<string>, d: Path)
    requires ResolvedBinDir(fs, tlmgrOut) == Located(d)
    ensures HasTex(fs, d)
  {
    var s := CandidateBinDirs(fs);
    if s.items != [] {
      CandidateSound(fs, s.items[0]);
    } else {
      TlmgrBinDirSound(fs, tlmgrOut, d);
    }
  }

  /** In a consistent snapshot every yielded candidate is a directory, and so is what resolution settles on. */
  lemma ResolvedIsDir(fs: Tree, tlmgrOut: Option<string>, d: Path)
    requires Consistent(fs)
    ensures d in CandidateBinDirs(fs).items ==> IsDir(fs, d)
    ensures ResolvedBinDir(fs, tlmgrOut) == Located(d) ==> IsDir(fs, d)
  {
    if d in CandidateBinDirs(fs).items {
      CandidateSound(fs, d);
      HasTexIsDir(fs, d);
    }
    if ResolvedBinDir(fs, tlmgrOut) == Located(d) {
      ResolvedHasTex(fs, tlmgrOut, d);
      HasTexIsDir(fs, d);
    }
  }

  /** What the generator does at the first of `roots`: skip it, raise there, or yield its entries' directories. */
  lemma StreamAtRoot(fs: Tree, roots: seq<Path>)
    requires roots != []
    ensures !Exists(fs, roots[0]) ==> RootsStream(fs, roots) == RootsStream(fs, roots[1..])
    ensures Exists(fs, roots[0]) && !IsDir(fs, roots[0]) ==> RootsStream(fs, roots) == Stream([], Some(roots[0]))
    ensures IsDir(fs, roots[0]) ==>
              && RootsStream(fs, roots).items
                 == EntriesDirs(fs, roots[0], SortDesc(Listing(fs, roots[0]).value)) + RootsStream(fs, roots[1..]).items
              && RootsStream(fs, roots).raisedAt == RootsStream(fs, roots[1..]).raisedAt
  {
    if !Exists(fs, roots[0]) {
      assert [] + RootsStream(fs, roots[1..]).items == RootsStream(fs, roots[1..]).items;
    }
  }

  /** The generator's innermost loop: the first arch directory of `binRoot` holding `tex`. */
  method FirstTexDir(fs: Tree, binRoot: Path, archs: seq<string>) returns (found: Option<Path>)
    ensures found.None? <==> TexDirs(fs, binRoot, archs) == []
    ensures found.Some? ==> found.value == TexDirs(fs, binRoot, archs)[0]
  {
    var k := 0;
    while k < |archs|
      invariant 0 <= k <= |archs|
      invariant TexDirs(fs, binRoot, archs) == TexDirs(fs, binRoot, archs[k..])
    {
      var archDir := Join(binRoot, archs[k]);
      assert archs[k..][1..] == archs[k + 1..];
      if HasTex(fs, archDir) {
        return Some(archDir);
      }
      k := k + 1;
    }
    assert archs[k..] == [];
    return None;
  }

  /** One entry of a root yields the `tex`-holding arch directories of its `bin` when that is a directory, and nothing otherwise. */
  lemma EntryDirsAt(fs: Tree, root: Path, entry: string)
    ensures IsDir(fs, BinRootOf(root, entry)) ==>
              && Listing(fs, BinRootOf(root, entry)).Some?
              && EntryDirs(fs, root, entry) == TexDirs(fs, BinRootOf(root, entry), Listing(fs, BinRootOf(root, entry)).value)
    ensures !IsDir(fs, BinRootOf(root, entry)) ==> EntryDirs(fs, root, entry) == []
  {
  }

  lemma EntriesDirsFrom(fs: Tree, root: Path, entries: seq<string>, j: nat)
    requires j < |entries|
    ensures EntriesDirs(fs, root, entries[j..]) == EntryDirs(fs, root, entries[j]) + EntriesDirs(fs, root, entries[j + 1..])
  {
    assert entries[j..][0] == entries[j] && entries[j..][1..] == entries[j + 1..];
  }

  /** The generator's loop over the entries of one root, newest name first. */
  method FirstEntryDir(fs: Tree, root: Path, entries: seq<string>) returns (found: Option<Path>)
    ensures found.None? <==> EntriesDirs(fs, root, entries) == []
    ensures found.Some? ==> found.value == EntriesDirs(fs, root, entries)[0]
  {
    var j := 0;
    while j < |entries|
      invariant 0 <= j <= |entries|
      invariant EntriesDirs(fs, root, entries) == EntriesDirs(fs, root, entries[j..])
    {
      var binRoot := BinRootOf(root, entries[j]);
      EntriesDirsFrom(fs, root, entries, j);
      EntryDirsAt(fs, root, entries[j]);
      if IsDir(fs, binRoot) {
        found := FirstTexDir(fs, binRoot, Listing(fs, binRoot).value);
        if found.Some? {
          assert found.value == EntriesDirs(fs, root, entries[j..])[0];
          return found;
        }
      }
      assert EntriesDirs(fs, root, entries[j..]) == EntriesDirs(fs, root, entries[j + 1..]);
      j := j + 1;
    }
    assert entries[j..] == [];
    return None;
  }

  /**
   * `resolve_texlive_bin_dir` with the generator's loops inlined: returns
   * the first directory the generator would yield, asks `tlmgr` (whose
   * output is `tlmgrOut`) only when the generator yields nothing and
   * finishes, and raises where the generator raises.
   */
  method ResolveBinDir(fs: Tree, tlmgrOut: Option<string>) returns (r: Resolution, askedTlmgr: bool)
    ensures r == ResolvedBinDir(fs, tlmgrOut)
    ensures askedTlmgr <==> CandidateBinDirs(fs).items == [] && CandidateBinDirs(fs).raisedAt.None?
  {
    var i := 0;
    while i < |KnownRoots|
      invariant 0 <= i <= |KnownRoots|
      invariant CandidateBinDirs(fs) == RootsStream(fs, KnownRoots[i..])
    {
      var root := KnownRoots[i];
      assert KnownRoots[i..][1..] == KnownRoots[i + 1..] && KnownRoots[i..][0] == root;
      StreamAtRoot(fs, KnownRoots[i..]);
      if Exists(fs, root) {
        var listing := Listing(fs, root);
        if listing.None? {
          return RootNotListable(root), false;
        }
        var found := FirstEntryDir(fs, root, SortDesc(listing.value));
        if found.Some? {
          return Located(found.value), false;
        }
      }
      i := i + 1;
    }
    assert KnownRoots[i..] == [];
    askedTlmgr := true;
    match TlmgrBinDir(fs, tlmgrOut) {
      case Some(d) => r := Located(d);
      case None => r := NotLocated;
    }
  }
}
