/**
 * The two places the helper talks to `tlmgr`: reading `TEXMFROOT` out of
 * `tlmgr conf texmf` to find a binary directory, and the `PATH` it gives
 * `tlmgr path add`. The `tlmgr` processes themselves are oracles: their
 * captured standard output, or `None` when the call failed.
 */
module Tlmgr {
  import opened Wrappers
  import opened Text
  import opened FileSystem

  const TexmfRootKey: string := "TEXMFROOT"

  /**
   * The root a `tlmgr conf texmf` line names, if any: the stripped line must
   * start with `TEXMFROOT` and split on whitespace into exactly two parts;
   * the second part, stripped, is the root.
   */
  function TexmfRoot(line: string): (root: Option<string>)
    ensures root.Some? ==> Trimmed(root.value)
  {
    var stripped := Strip(line);
    if TexmfRootKey <= stripped then
      var parts := SplitWsOnce(stripped);
      if |parts| == 2 then
        KeyLineEnds(line);
        SecondPartTrimmed(stripped);
        StripUnchanged(parts[1]);
        Some(Strip(parts[1]))
      else None
    else None
  }

  /**
   * `line` reads `ws1 + "TEXMFROOT" + w + ws2 + root + ws3`: optional
   * whitespace, the key glued to a word `w` without whitespace (possibly
   * empty, so `TEXMFROOTX /p` counts), a non-empty run of whitespace, the
   * root, and optional whitespace; the root neither starts nor ends with
   * whitespace but may hold some inside.
   */
  ghost predicate TexmfLine(line: string, ws1: string, w: string, ws2: string, root: string, ws3: string) {
    && line == ws1 + TexmfRootKey + w + ws2 + root + ws3
    && AllSpace(ws1) && (forall k :: 0 <= k < |w| ==> !IsSpace(w[k]))
    && ws2 != [] && AllSpace(ws2) && AllSpace(ws3) && Trimmed(root)
  }

  /** A line names `root` exactly when it has the shape `TexmfLine` describes. */
  lemma TexmfRootExactly(line: string, root: string)
    ensures TexmfRoot(line) == Some(root) <==> exists ws1, w, ws2, ws3 :: TexmfLine(line, ws1, w, ws2, root, ws3)
  {
    if TexmfRoot(line) == Some(root) {
      var ws1, w, ws2, ws3 := TexmfRootSound(line);
    } else if exists ws1, w, ws2, ws3 :: TexmfLine(line, ws1, w, ws2, root, ws3) {
      var ws1, w, ws2, ws3 :| TexmfLine(line, ws1, w, ws2, root, ws3);
      TexmfRootComplete(ws1, w, ws2, root, ws3);
    }
  }

  /** Every line of that shape parses to its root. */
  lemma TexmfRootComplete(ws1: string, w: string, ws2: string, root: string, ws3: string)
    requires TexmfLine(ws1 + TexmfRootKey + w + ws2 + root + ws3, ws1, w, ws2, root, ws3)
    ensures TexmfRoot(ws1 + TexmfRootKey + w + ws2 + root + ws3) == Some(root)
  {
    var t := TexmfRootKey + w + ws2 + root;
    Flatten(ws1, TexmfRootKey, w, ws2, root, ws3);
    KeyLineTrimmed(w, ws2, root);
    StripAround(ws1, t, ws3);
    SplitKeyLine(w, ws2, root);
    StripUnchanged(root);
  }

  lemma KeyLineTrimmed(w: string, ws2: string, root: string)
    requires Trimmed(root)
    ensures var t := TexmfRootKey + w + ws2 + root; Trimmed(t) && TexmfRootKey <= t
  {
    var t := TexmfRootKey + w + ws2 + root;
    assert t[0] == 'T';
    assert t[|t| - 1] == root[|root| - 1];
    assert t[..|TexmfRootKey|] == TexmfRootKey;
  }

  /** A line that parses has that shape, with the parsed root. */
  lemma TexmfRootSound(line: string) returns (ws1: string, w: string, ws2: string, ws3: string)
    requires TexmfRoot(line).Some?
    ensures TexmfLine(line, ws1, w, ws2, TexmfRoot(line).value, ws3)
  {
    var root := TexmfRootParts(line);
    ws1, w, ws2, ws3 := KeyLineShape(line, root);
  }

  /** What a parsed line is made of: the second `split(None, 1)` part of the stripped line. */
  lemma TexmfRootParts(line: string) returns (root: string)
    requires TexmfRoot(line).Some?
    ensures TexmfRoot(line) == Some(root)
    ensures TexmfRootKey <= Strip(line) && |SplitWsOnce(Strip(line))| == 2
    ensures root == SplitWsOnce(Strip(line))[1]
  {
    KeyLineEnds(line);
    SecondPartTrimmed(Strip(line));
    root := SplitWsOnce(Strip(line))[1];
    StripUnchanged(root);
  }

  lemma KeyLineShape(line: string, root: string) returns (ws1: string, w: string, ws2: string, ws3: string)
    requires TexmfRootKey <= Strip(line) && |SplitWsOnce(Strip(line))| == 2
    requires root == SplitWsOnce(Strip(line))[1]
    ensures TexmfLine(line, ws1, w, ws2, root, ws3)
  {
    ws1, ws3 := StripParts(line);
    var t := Strip(line);
    KeyLineEnds(line);
    var rest;
    w, ws2, rest := KeyLineParts(t);
    AssembleTexmfLine(line, ws1, t, ws3, w, ws2, rest);
  }

  lemma AssembleTexmfLine(line: string, ws1: string, t: string, ws3: string, w: string, ws2: string, root: string)
    requires line == ws1 + t + ws3 && AllSpace(ws1) && AllSpace(ws3)
    requires t == TexmfRootKey + w + ws2 + root && (forall k :: 0 <= k < |w| ==> !IsSpace(w[k]))
    requires ws2 != [] && AllSpace(ws2) && Trimmed(root)
    ensures TexmfLine(line, ws1, w, ws2, root, ws3)
  {
    Regroup(ws1, t, ws3);
    Flatten(ws1, TexmfRootKey, w, ws2, root, ws3);
  }

  lemma Flatten(a: string, b: string, c: string, d: string, e: string, f: string)
    ensures a + (b + c + d + e) + f == a + b + c + d + e + f
  {
  }

  /**
   * How `split(None, 1)` cuts a stripped line that starts with the key and
   * has two parts: the key glued to a word `w`, a non-empty run of
   * whitespace, and the trimmed second part.
   */
  lemma KeyLineParts(t: string) returns (w: string, ws2: string, rest: string)
    requires TexmfRootKey <= t && !IsSpace(t[|t| - 1])
    requires |SplitWsOnce(t)| == 2
    ensures t == TexmfRootKey + w + ws2 + rest
    ensures forall k :: 0 <= k < |w| ==> !IsSpace(w[k])
    ensures ws2 != [] && AllSpace(ws2)
    ensures rest == SplitWsOnce(t)[1] && Trimmed(rest)
  {
    KeyStartsWord(t);
    var word;
    word, ws2, rest := TwoParts(t);
    w := KeyWord(t, word, ws2, rest);
  }

  /**
   * A line that starts with the key and is cut into a whitespace-free word,
   * a run of whitespace and the rest: the word is the key glued to `w`.
   */
  lemma KeyWord(t: string, word: string, gap: string, rest: string) returns (w: string)
    requires TexmfRootKey <= t && t == word + gap + rest && !IsSpace(t[|t| - 1])
    requires forall k :: 0 <= k < |word| ==> !IsSpace(word[k])
    requires gap != [] && AllSpace(gap) && rest != [] && !IsSpace(rest[0])
    ensures t == TexmfRootKey + w + gap + rest
    ensures forall k :: 0 <= k < |w| ==> !IsSpace(w[k])
    ensures Trimmed(rest)
  {
    KeyHasNoSpace();
    Regroup(word, gap, rest);
    assert t[|word|] == gap[0];
    assert forall k :: 0 <= k < |TexmfRootKey| ==> !IsSpace(t[k]) by {
      forall k | 0 <= k < |TexmfRootKey| ensures !IsSpace(t[k]) {
        assert t[k] == TexmfRootKey[k];
      }
    }
    assert |word| >= |TexmfRootKey|;
    w := word[|TexmfRootKey|..];
    assert word[..|TexmfRootKey|] == t[..|TexmfRootKey|];
    CutAt(word, |TexmfRootKey|);
    assert forall k :: 0 <= k < |w| ==> !IsSpace(w[k]) by {
      forall k | 0 <= k < |w| ensures !IsSpace(w[k]) {
        assert w[k] == word[|TexmfRootKey| + k];
      }
    }
    assert rest[|rest| - 1] == t[|t| - 1];
  }

  lemma KeyLineEnds(line: string)
    requires TexmfRootKey <= Strip(line)
    ensures !IsSpace(Strip(line)[|Strip(line)| - 1])
  {
    KeyStartsWord(Strip(line));
  }

  lemma KeyStartsWord(t: string)
    requires TexmfRootKey <= t
    ensures t != [] && !IsSpace(t[0])
  {
    assert t[0] == TexmfRootKey[0];
  }

  lemma KeyHasNoSpace()
    ensures forall k :: 0 <= k < |TexmfRootKey| ==> !IsSpace(TexmfRootKey[k])
  {
  }

  lemma SecondPartTrimmed(t: string)
    requires TexmfRootKey <= t && !IsSpace(t[|t| - 1])
    requires |SplitWsOnce(t)| == 2
    ensures Trimmed(SplitWsOnce(t)[1])
  {
    var _, _, _ := KeyLineParts(t);
  }


  /** A rendered `TEXMFROOT <path>` line parses back to its path. */
  lemma TexmfRootRoundTrip(path: string, gap: string)
    requires path != [] && !IsSpace(path[0]) && !IsSpace(path[|path| - 1])
    requires gap != [] && AllSpace(gap)
    ensures TexmfRoot(TexmfRootKey + gap + path) == Some(path)
  {
    assert "" + TexmfRootKey + "" + gap + path + "" == TexmfRootKey + gap + path;
    TexmfRootComplete("", "", gap, path, "");
  }

  lemma SplitKeyLine(w: string, gap: string, path: string)
    requires path != [] && !IsSpace(path[0]) && (forall k :: 0 <= k < |w| ==> !IsSpace(w[k]))
    requires gap != [] && AllSpace(gap)
    ensures SplitWsOnce(TexmfRootKey + w + gap + path) == [TexmfRootKey + w, path]
  {
    var word := TexmfRootKey + w;
    var rest := gap + path;
    var line := word + rest;
    assert TexmfRootKey + w + gap + path == line;
    assert line[0] == 'T' && !IsSpace('T');
    assert LStrip(line) == line;
    assert rest[0] == gap[0];
    WordEndOfKey(w, rest);
    assert line[|word|..] == rest;
    LStripSpaces(gap, path);
    assert line[..|word|] == word;
  }

  /** A string that neither starts nor ends with whitespace is its own `strip()`. */
  lemma StripUnchanged(s: string)
    requires Trimmed(s)
    ensures Strip(s) == s && LStrip(s) == s
  {
  }

  lemma WordEndOfKey(w: string, rest: string)
    requires rest != [] && IsSpace(rest[0]) && forall k :: 0 <= k < |w| ==> !IsSpace(w[k])
    ensures WordEnd(TexmfRootKey + w + rest) == |TexmfRootKey| + |w|
  {
    var s := TexmfRootKey + w + rest;
    var i := |TexmfRootKey| + |w|;
    assert |TexmfRootKey| == 9;
    assert s[i] == rest[0];
    forall k | 0 <= k < i
      ensures !IsSpace(s[k])
    {
      if k < 9 {
        assert s[k] == TexmfRootKey[k];
      } else {
        assert s[k] == w[k - 9];
      }
    }
    WordEndAt(s, i);
  }

  lemma {:induction false} WordEndAt(s: string, i: nat)
    requires i < |s| && IsSpace(s[i])
    requires forall k :: 0 <= k < i ==> !IsSpace(s[k])
    ensures WordEnd(s) == i
    decreases i
  {
    if i > 0 {
      WordEndAt(s[1..], i - 1);
    }
  }

  /** The roots named by `TEXMFROOT` lines of `stdout`, in output order. */
  function TexmfRoots(stdout: string): seq<string>
  {
    RootsOfLines(SplitLines(stdout))
  }

  function RootsOfLines(lines: seq<string>): (roots: seq<string>)
    ensures |roots| <= |lines|
  {
    if lines == [] then []
    else
      (match TexmfRoot(lines[0]) case Some(r) => [r] case None => []) + RootsOfLines(lines[1..])
  }

  /** The first arch directory under `root/bin` (in `iterdir` order) that holds a file `tex`. */
  function RootBinDir(fs: Tree, root: Path): (r: Option<Path>)
    ensures r.Some? ==> IsDir(fs, Join(root, "bin")) && HasTex(fs, r.value)
    ensures r.Some? ==> exists a :: a in Listing(fs, Join(root, "bin")).value && r.value == Join(Join(root, "bin"), a)
    ensures r.None? <==>
              || !IsDir(fs, Join(root, "bin"))
              || forall a :: a in Listing(fs, Join(root, "bin")).value ==> !HasTex(fs, Join(Join(root, "bin"), a))
    ensures r.Some? ==>
              var archs := Listing(fs, Join(root, "bin")).value;
              exists i :: 0 <= i < |archs| && r.value == Join(Join(root, "bin"), archs[i])
                          && forall j :: 0 <= j < i ==> !HasTex(fs, Join(Join(root, "bin"), archs[j]))
  {
    var binRoot := Join(root, "bin");
    match Listing(fs, binRoot)
    case None => None
    case Some(archs) =>
      var hits := TexDirs(fs, binRoot, archs);
      TexDirsHead(fs, binRoot, archs);
      if hits == [] then None
      else
        TexDirsMembers(fs, binRoot, archs, hits[0]);
        Some(hits[0])
  }

  /** The first root of `roots` that has a qualifying arch directory. */
  function FirstRootBinDir(fs: Tree, roots: seq<Path>): Option<Path>
  {
    if roots == [] then None
    else match RootBinDir(fs, roots[0])
      case Some(d) => Some(d)
      case None => FirstRootBinDir(fs, roots[1..])
  }

  /** `bin_dir_from_tlmgr`, given what `tlmgr conf texmf` printed (`None`: it failed). */
  function TlmgrBinDir(fs: Tree, stdout: Option<string>): Option<Path>
  {
    match stdout
    case None => None
    case Some(out) => FirstRootBinDir(fs, TexmfRoots(out))
  }

  /**
   * The answer is the hit of the first `TEXMFROOT` root that has one, and
   * `None` exactly when the call failed or no named root has one.
   */
  lemma {:induction false} TlmgrBinDirFirstHit(fs: Tree, out: string)
    ensures var roots := TexmfRoots(out);
            match TlmgrBinDir(fs, Some(out))
            case None => forall i :: 0 <= i < |roots| ==> RootBinDir(fs, roots[i]).None?
            case Some(d) => exists i :: 0 <= i < |roots| && RootBinDir(fs, roots[i]) == Some(d)
                                        && forall j :: 0 <= j < i ==> RootBinDir(fs, roots[j]).None?
  {
    var roots := TexmfRoots(out);
    if FirstRootBinDir(fs, roots).None? {
      FirstRootBinDirNone(fs, roots);
    } else {
      var i := FirstRootBinDirSome(fs, roots);
    }
  }

  /** No answer means no root has a qualifying arch directory. */
  lemma {:induction false} FirstRootBinDirNone(fs: Tree, roots: seq<Path>)
    requires FirstRootBinDir(fs, roots).None?
    ensures forall i :: 0 <= i < |roots| ==> RootBinDir(fs, roots[i]).None?
  {
    if roots != [] {
      FirstRootBinDirNone(fs, roots[1..]);
      forall i | 1 <= i < |roots| ensures RootBinDir(fs, roots[i]).None? {
        assert roots[i] == roots[1..][i - 1];
      }
    }
  }

  /** An answer is the hit of root `i`, and no root before `i` has one. */
  lemma {:induction false} FirstRootBinDirSome(fs: Tree, roots: seq<Path>) returns (i: nat)
    requires FirstRootBinDir(fs, roots).Some?
    ensures i < |roots| && RootBinDir(fs, roots[i]) == FirstRootBinDir(fs, roots)
    ensures forall j :: 0 <= j < i ==> RootBinDir(fs, roots[j]).None?
  {
    if RootBinDir(fs, roots[0]).Some? {
      i := 0;
    } else {
      var k := FirstRootBinDirSome(fs, roots[1..]);
      i := k + 1;
      assert roots[i] == roots[1..][k];
      forall j | 0 <= j < i
        ensures RootBinDir(fs, roots[j]).None?
      {
        if j > 0 {
          assert roots[j] == roots[1..][j - 1];
        }
      }
    }
  }

  /** Every directory `tlmgr` leads to is `<root>/bin/<arch>` holding `tex`, for a listed root. */
  lemma TlmgrBinDirSound(fs: Tree, stdout: Option<string>, d: Path)
    requires TlmgrBinDir(fs, stdout) == Some(d)
    ensures stdout.Some? && HasTex(fs, d)
    ensures exists root :: root in TexmfRoots(stdout.value) && RootBinDir(fs, root) == Some(d)
  {
    TlmgrBinDirFirstHit(fs, stdout.value);
    var roots := TexmfRoots(stdout.value);
    var i :| 0 <= i < |roots| && RootBinDir(fs, roots[i]) == Some(d);
    assert roots[i] in roots;
  }

  /** `PATH` for `tlmgr path add`: the bin directory in front of the inherited `PATH`, if any. */
  function PathAddEnv(binDir: Path, inherited: Option<string>): (path: string)
    ensures binDir <= path
    ensures inherited.None? || inherited.value == "" ==> path == binDir
    ensures inherited.Some? && inherited.value != "" ==> path == binDir + ":" + inherited.value
  {
    var existing := if inherited.Some? then inherited.value else "";
    if existing != "" then binDir + ":" + existing else binDir
  }

  /** The bin directory becomes the first search-path entry; the inherited entries follow unchanged. */
  lemma PathAddEnvEntries(binDir: Path, inherited: Option<string>)
    requires ':' !in binDir
    ensures var path := PathAddEnv(binDir, inherited);
            SplitOn(path, ':') == [binDir] + (if inherited.None? || inherited.value == "" then [] else SplitOn(inherited.value, ':'))
  {
    if inherited.Some? && inherited.value != "" {
      SplitOnPrepend(binDir, ':', inherited.value);
    } else {
      IndexOfAbsent(binDir, ':');
    }
  }

  lemma {:induction false} IndexOfAbsent(s: string, sep: char)
    requires sep !in s
    ensures IndexOf(s, sep) == |s|
    decreases |s|
  {
    if s != [] {
      assert s[0] in s;
      assert forall c :: c in s[1..] ==> c in s;
      IndexOfAbsent(s[1..], sep);
    }
  }
}
