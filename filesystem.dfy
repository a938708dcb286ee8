/**
 * A snapshot of the host filesystem as the installer helper sees it through
 * `pathlib`: a map from path strings to entries. `exists`, `is_file`,
 * `is_dir` and `iterdir` follow symbolic links (at most 40 of them in a row,
 * as Linux does; a longer chain or a cycle counts as missing); `is_symlink`
 * looks at the entry itself. A directory lists its entry names in the order
 * `iterdir` yields them.
 */
module FileSystem {
  import opened Wrappers

  type Path = string

  datatype Node = File | Dir(names: seq<string>) | Link(target: Path)

  type Tree = map<Path, Node>

  /** Linux's MAXSYMLINKS: deeper chains fail with ELOOP, which `pathlib` reads as "missing". */
  const MaxSymlinkHops: nat := 40

  /** `dir / name` for a single-component `name`. */
  function Join(dir: Path, name: string): (p: Path)
    ensures dir <= p && |p| == |dir| + 1 + |name| && p[|dir|] == '/' && p[|dir| + 1..] == name
  {
    dir + "/" + name
  }

  /** The entry `p` stands for once symbolic links are followed; never a link itself. */
  function Stat(fs: Tree, p: Path, hops: nat): (r: Option<Node>)
    ensures r.Some? ==> !r.value.Link? && r.value in fs.Values
    ensures p in fs && !fs[p].Link? ==> r == Some(fs[p])
    ensures p !in fs ==> r == None
    decreases hops
  {
    if p !in fs then None
    else match fs[p]
      case Link(t) => if hops == 0 then None else Stat(fs, t, hops - 1)
      case n => Some(n)
  }

  predicate Exists(fs: Tree, p: Path) {
    Stat(fs, p, MaxSymlinkHops).Some?
  }

  predicate IsFile(fs: Tree, p: Path) {
    Stat(fs, p, MaxSymlinkHops) == Some(File)
  }

  predicate IsDir(fs: Tree, p: Path) {
    Stat(fs, p, MaxSymlinkHops).Some? && Stat(fs, p, MaxSymlinkHops).value.Dir?
  }

  predicate IsSymlink(fs: Tree, p: Path) {
    p in fs && fs[p].Link?
  }

  /** The names `iterdir` yields for `p`, or `None` when `iterdir` raises (`p` is no directory). */
  function Listing(fs: Tree, p: Path): (r: Option<seq<string>>)
    ensures r.Some? <==> IsDir(fs, p)
  {
    match Stat(fs, p, MaxSymlinkHops)
    case Some(Dir(names)) => Some(names)
    case _ => None
  }

  /** A link whose target holds a regular file is a file to `is_file`, yet still a symlink. */
  lemma LinkToFileIsFile(fs: Tree, p: Path, t: Path)
    requires p in fs && fs[p] == Link(t) && t in fs && fs[t] == File
    ensures IsFile(fs, p) && IsSymlink(fs, p)
  {
  }

  /** A dangling link does not exist for `exists`, but is seen by `is_symlink`. */
  lemma DanglingLinkIsOnlySymlink(fs: Tree, p: Path, t: Path)
    requires p in fs && fs[p] == Link(t) && t !in fs
    ensures !Exists(fs, p) && IsSymlink(fs, p)
  {
  }

  /** An entry name: one path component. */
  predicate ValidName(n: string) {
    n != "" && '/' !in n
  }

  /** No name occurs twice. */
  predicate Distinct(names: seq<string>) {
    forall i, j :: 0 <= i < j < |names| ==> names[i] != names[j]
  }

  /**
   * The snapshot is a tree: whatever sits at `dir / name` has `dir` as a
   * real directory that lists `name`, and every name a directory lists is
   * present beneath it, once. The root directory `/` is the entry `""`, since
   * `Join("", n)` is `"/" + n`. Paths below a symbolic link are not
   * entries of such a snapshot: links are followed at the last component only.
   */
  ghost predicate Consistent(fs: Tree) {
    && (forall d, n :: Join(d, n) in fs && ValidName(n) ==> d in fs && fs[d].Dir? && n in fs[d].names)
    && (forall d, n :: d in fs && fs[d].Dir? && n in fs[d].names ==> ValidName(n) && Join(d, n) in fs)
    && (forall d :: d in fs && fs[d].Dir? ==> Distinct(fs[d].names))
  }

  /** In a consistent snapshot `iterdir` yields each name once, links followed. */
  lemma ListingDistinct(fs: Tree, p: Path)
    requires Consistent(fs) && IsDir(fs, p)
    ensures Distinct(Listing(fs, p).value)
  {
    var node := Stat(fs, p, MaxSymlinkHops).value;
    var d :| d in fs && fs[d] == node;
  }

  /** In a consistent snapshot something at `dir / name` makes `dir` a directory listing `name`. */
  lemma ChildMakesDir(fs: Tree, d: Path, n: string)
    requires Consistent(fs) && ValidName(n) && Exists(fs, Join(d, n))
    ensures IsDir(fs, d) && n in Listing(fs, d).value
  {
    assert Join(d, n) in fs;
    assert Stat(fs, d, MaxSymlinkHops) == Some(fs[d]);
  }

  /** `p.exists() or p.is_symlink()` holds exactly for the entries of the snapshot. */
  lemma ExistsOrSymlink(fs: Tree, p: Path)
    ensures Exists(fs, p) || IsSymlink(fs, p) <==> p in fs
  {
  }

  /** `arch_dir` qualifies as a TeX binary directory: `arch_dir / "tex"` is a regular file. */
  predicate HasTex(fs: Tree, archDir: Path) {
    IsFile(fs, Join(archDir, "tex"))
  }

  /** In a consistent snapshot a directory holding `tex` is a real, listable directory. */
  lemma HasTexIsDir(fs: Tree, archDir: Path)
    requires Consistent(fs) && HasTex(fs, archDir)
    ensures IsDir(fs, archDir) && "tex" in Listing(fs, archDir).value
  {
    ChildMakesDir(fs, archDir, "tex");
  }

  /**
   * The arch directories `binRoot / a`, for `a` in `archs` in that order,
   * that contain a regular file `tex`.
   */
  function TexDirs(fs: Tree, binRoot: Path, archs: seq<string>): (r: seq<Path>)
    ensures forall k :: 0 <= k < |r| ==> HasTex(fs, r[k])
    ensures |r| <= |archs|
  {
    if archs == [] then []
    else
      var here := Join(binRoot, archs[0]);
      (if HasTex(fs, here) then [here] else []) + TexDirs(fs, binRoot, archs[1..])
  }

  /** Exactly the qualifying arch directories are yielded. */
  lemma {:induction false} TexDirsMembers(fs: Tree, binRoot: Path, archs: seq<string>, p: Path)
    ensures p in TexDirs(fs, binRoot, archs) <==> exists a :: a in archs && p == Join(binRoot, a) && HasTex(fs, p)
  {
    if archs != [] {
      TexDirsMembers(fs, binRoot, archs[1..], p);
      if p == Join(binRoot, archs[0]) && HasTex(fs, p) {
        assert archs[0] in archs;
      }
      assert forall a :: a in archs <==> a == archs[0] || a in archs[1..] by {
        assert archs == [archs[0]] + archs[1..];
      }
    }
  }

  /**
   * The first directory yielded is the qualifying one at the smallest index
   * of `archs`; nothing is yielded exactly when no entry qualifies.
   */
  lemma {:induction false} TexDirsHead(fs: Tree, binRoot: Path, archs: seq<string>)
    ensures TexDirs(fs, binRoot, archs) == [] <==> forall a :: a in archs ==> !HasTex(fs, Join(binRoot, a))
    ensures TexDirs(fs, binRoot, archs) != [] ==>
              exists i :: 0 <= i < |archs| && TexDirs(fs, binRoot, archs)[0] == Join(binRoot, archs[i])
                          && forall j :: 0 <= j < i ==> !HasTex(fs, Join(binRoot, archs[j]))
  {
    if archs != [] {
      TexDirsHead(fs, binRoot, archs[1..]);
      assert forall a :: a in archs <==> a == archs[0] || a in archs[1..] by {
        assert archs == [archs[0]] + archs[1..];
      }
      var here := Join(binRoot, archs[0]);
      if HasTex(fs, here) {
        assert TexDirs(fs, binRoot, archs)[0] == Join(binRoot, archs[0]);
      } else {
        assert TexDirs(fs, binRoot, archs) == TexDirs(fs, binRoot, archs[1..]);
        if TexDirs(fs, binRoot, archs) != [] {
          var k :| 0 <= k < |archs[1..]| && TexDirs(fs, binRoot, archs[1..])[0] == Join(binRoot, archs[1..][k])
                   && forall j :: 0 <= j < k ==> !HasTex(fs, Join(binRoot, archs[1..][j]));
          assert archs[k + 1] == archs[1..][k];
          forall j | 0 <= j < k + 1
            ensures !HasTex(fs, Join(binRoot, archs[j]))
          {
            if j > 0 {
              assert archs[j] == archs[1..][j - 1];
            }
          }
        }
      }
    }
  }
}
