/**
 * `symlink_binaries`: links every regular file of a TeX Live bin directory
 * into the destination directory, replacing what is there, and reports
 * whether every entry went through.
 *
 * The destination directory is an object whose entries (name to node) the
 * batch updates in place. The bin directory is read from a filesystem
 * snapshot. The operating system's refusals (`unlink` or `symlink` raising
 * `OSError`, for permissions and the like) are oracles: the sets of names
 * for which each call fails. Removing a real directory always fails
 * (`unlink` raises `IsADirectoryError`).
 */
module Symlinks {
  import opened Wrappers
  import opened FileSystem

  const SymlinkDestination: Path := "/usr/local/bin"

  /** The names for which `target.unlink()` and `os.symlink(...)` raise `OSError`. */
  datatype LinkFaults = LinkFaults(unlinkDenied: set<string>, symlinkDenied: set<string>)

  /** No operating-system call fails. */
  const NoFaults: LinkFaults := LinkFaults({}, {})

  /** The destination path: absent, a directory, or occupied by something else. */
  datatype DestStatus = Missing | Directory | Occupied

  /** The destination path as a value: its status and, for a directory, its entries. */
  datatype DestState = DestState(status: DestStatus, entries: map<string, Node>) {
    /** Only an existing directory has entries. */
    predicate WellFormed() {
      status != Directory ==> entries == map[]
    }
  }

  /** How the batch ended: it ran and returned `success`, or `mkdir`/`iterdir` raised. */
  datatype LinkResult = Finished(success: bool) | MkdirRaised | ListingRaised

  /** The destination entry stays as it is because removing it fails. */
  predicate Blocked(faults: LinkFaults, dest: map<string, Node>, name: string) {
    name in dest && (dest[name].Dir? || name in faults.unlinkDenied)
  }

  /** The destination and the success flag after some entries have been processed. */
  datatype LinkState = LinkState(dest: map<string, Node>, ok: bool)

  /** One iteration of the loop, for the bin directory entry `name`. */
  function LinkStep(fs: Tree, binDir: Path, faults: LinkFaults, dest: map<string, Node>, name: string): LinkState
  {
    var binary := Join(binDir, name);
    if !IsFile(fs, binary) then LinkState(dest, true)
    else if Blocked(faults, dest, name) then LinkState(dest, false)
    else if name in faults.symlinkDenied then LinkState(dest - {name}, false)
    else LinkState((dest - {name})[name := Link(binary)], true)
  }

  /** The loop over `names`, the bin directory's entries in `iterdir` order. */
  function LinkAll(fs: Tree, binDir: Path, faults: LinkFaults, dest: map<string, Node>, names: seq<string>): LinkState
  {
    if names == [] then LinkState(dest, true)
    else
      var before := LinkAll(fs, binDir, faults, dest, names[..|names| - 1]);
      var step := LinkStep(fs, binDir, faults, before.dest, names[|names| - 1]);
      LinkState(step.dest, before.ok && step.ok)
  }

  /** The entry `name` fails: it is a regular file and removing the old target or linking raised. */
  predicate EntryFails(fs: Tree, binDir: Path, faults: LinkFaults, dest: map<string, Node>, name: string) {
    IsFile(fs, Join(binDir, name)) && (Blocked(faults, dest, name) || name in faults.symlinkDenied)
  }

  /**
   * What the destination holds for `n` after the batch, from the original
   * destination alone: untouched unless `n` is a regular file of the bin
   * directory; then kept when it could not be removed, gone when it was
   * removed but linking failed, and otherwise a link to the bin directory entry.
   */
  function Expected(fs: Tree, binDir: Path, faults: LinkFaults, dest: map<string, Node>, names: seq<string>, n: string): Option<Node>
  {
    if n !in names || !IsFile(fs, Join(binDir, n)) then (if n in dest then Some(dest[n]) else None)
    else if Blocked(faults, dest, n) then Some(dest[n])
    else if n in faults.symlinkDenied then None
    else Some(Link(Join(binDir, n)))
  }

  /** Looks entry `n` up in a destination map. */
  function Lookup(dest: map<string, Node>, n: string): Option<Node> {
    if n in dest then Some(dest[n]) else None
  }

  /** One step leaves every other name alone. */
  lemma StepOther(fs: Tree, binDir: Path, faults: LinkFaults, d: map<string, Node>, name: string, n: string)
    requires n != name
    ensures Lookup(LinkStep(fs, binDir, faults, d, name).dest, n) == Lookup(d, n)
  {
  }

  /** One step does to its own name what `Expected` says, judged from the entry it finds. */
  lemma StepSelf(fs: Tree, binDir: Path, faults: LinkFaults, d: map<string, Node>, dest: map<string, Node>,
                 names: seq<string>, name: string)
    requires name in names && Lookup(d, name) == Lookup(dest, name)
    ensures Lookup(LinkStep(fs, binDir, faults, d, name).dest, name) == Expected(fs, binDir, faults, dest, names, name)
  {
    assert Blocked(faults, d, name) == Blocked(faults, dest, name);
  }

  /**
   * Entry by entry, the batch does what `Expected` says: every regular file
   * that went through is linked (any previous entry, dangling link or not,
   * replaced), names that are not regular files of the bin directory are left
   * alone, and one entry's failure does not stop the others.
   */
  lemma {:induction false} LinkAllEntries(fs: Tree, binDir: Path, faults: LinkFaults, dest: map<string, Node>, names: seq<string>, n: string)
    requires Distinct(names)
    ensures Lookup(LinkAll(fs, binDir, faults, dest, names).dest, n) == Expected(fs, binDir, faults, dest, names, n)
    decreases |names|
  {
    if names != [] {
      var init := names[..|names| - 1];
      var last := names[|names| - 1];
      var before := LinkAll(fs, binDir, faults, dest, init).dest;
      assert names == init + [last];
      assert Distinct(init);
      if n != last {
        LinkAllEntries(fs, binDir, faults, dest, init, n);
        StepOther(fs, binDir, faults, before, last, n);
        assert n in names <==> n in init;
      } else {
        assert last !in init;
        LinkAllEntries(fs, binDir, faults, dest, init, last);
        StepSelf(fs, binDir, faults, before, dest, names, last);
      }
    }
  }

  /** The batch reports success exactly when no entry fails. */
  lemma {:induction false} LinkAllSuccess(fs: Tree, binDir: Path, faults: LinkFaults, dest: map<string, Node>, names: seq<string>)
    requires Distinct(names)
    ensures LinkAll(fs, binDir, faults, dest, names).ok <==> forall n :: n in names ==> !EntryFails(fs, binDir, faults, dest, n)
    decreases |names|
  {
    if names != [] {
      var init := names[..|names| - 1];
      var last := names[|names| - 1];
      assert names == init + [last];
      assert Distinct(init);
      assert last !in init;
      LinkAllSuccess(fs, binDir, faults, dest, init);
      LinkAllEntries(fs, binDir, faults, dest, init, last);
      var before := LinkAll(fs, binDir, faults, dest, init).dest;
      assert Lookup(before, last) == Lookup(dest, last);
      assert Blocked(faults, before, last) == Blocked(faults, dest, last);
      assert LinkStep(fs, binDir, faults, before, last).ok == !EntryFails(fs, binDir, faults, dest, last);
      assert forall n :: n in names <==> n in init || n == last;
    }
  }

  /**
   * Running the batch a second time, with no operating-system call failing,
   * leaves the destination as the first run left it and reports the same
   * result: existing links alone never make it fail.
   */
  lemma LinkAllIdempotent(fs: Tree, binDir: Path, dest: map<string, Node>, names: seq<string>)
    requires Distinct(names)
    ensures var once := LinkAll(fs, binDir, NoFaults, dest, names);
            LinkAll(fs, binDir, NoFaults, once.dest, names) == once
  {
    var once := LinkAll(fs, binDir, NoFaults, dest, names);
    var twice := LinkAll(fs, binDir, NoFaults, once.dest, names);
    forall n ensures Lookup(twice.dest, n) == Lookup(once.dest, n) {
      LinkAllEntries(fs, binDir, NoFaults, dest, names, n);
      LinkAllEntries(fs, binDir, NoFaults, once.dest, names, n);
    }
    assert twice.dest == once.dest by {
      forall n ensures (n in twice.dest <==> n in once.dest) && (n in twice.dest ==> twice.dest[n] == once.dest[n]) {
        assert Lookup(twice.dest, n) == Lookup(once.dest, n);
      }
    }
    LinkAllSuccess(fs, binDir, NoFaults, dest, names);
    LinkAllSuccess(fs, binDir, NoFaults, once.dest, names);
    forall n | n in names ensures EntryFails(fs, binDir, NoFaults, once.dest, n) == EntryFails(fs, binDir, NoFaults, dest, n) {
      LinkAllEntries(fs, binDir, NoFaults, dest, names, n);
      assert Lookup(once.dest, n) == Expected(fs, binDir, NoFaults, dest, names, n);
    }
  }

  /** The whole of `symlink_binaries` on a destination of status `status` holding `dest`. */
  datatype LinkRun = LinkRun(result: LinkResult, status: DestStatus, dest: map<string, Node>) {
    /** The destination as the batch left it. */
    function After(): DestState {
      DestState(status, dest)
    }
  }

  function SymlinkRun(fs: Tree, binDir: Path, faults: LinkFaults, status: DestStatus, dest: map<string, Node>): LinkRun
  {
    if status == Occupied then LinkRun(MkdirRaised, status, dest)
    else match Listing(fs, binDir)
      case None => LinkRun(ListingRaised, Directory, dest)
      case Some(names) =>
        var s := LinkAll(fs, binDir, faults, dest, names);
        LinkRun(Finished(s.ok), Directory, s.dest)
  }

  /** The destination directory, updated in place. */
  class LinkDir {
    var status: DestStatus
    var entries: map<string, Node>

    /** Only an existing directory has entries. */
    ghost predicate Valid()
      reads this
    {
      State().WellFormed()
    }

    function State(): DestState
      reads this
    {
      DestState(status, entries)
    }

    /** Another process (the installer, `tlmgr path add`) leaves the directory as `s`. */
    method Replace(s: DestState)
      requires s.WellFormed()
      modifies this
      ensures Valid() && State() == s
    {
      status := s.status;
      entries := s.entries;
    }

    constructor (status: DestStatus, entries: map<string, Node>)
      requires DestState(status, entries).WellFormed()
      ensures Valid() && this.status == status && this.entries == entries
    {
      this.status := status;
      this.entries := entries;
    }

    /**
     * `symlink_binaries(bin_dir, destination)`: creates the destination if
     * need be (raising when something that is not a directory is in the
     * way), then runs the loop over the bin directory's entries.
     */
    method SymlinkBinaries(fs: Tree, binDir: Path, faults: LinkFaults) returns (r: LinkResult)
      requires Valid()
      modifies this
      ensures Valid()
      ensures SymlinkRun(fs, binDir, faults, old(status), old(entries)) == LinkRun(r, status, entries)
    {
      if status == Occupied {
        return MkdirRaised;
      }
      status := Directory;
      var listing := Listing(fs, binDir);
      if listing.None? {
        return ListingRaised;
      }
      var names := listing.value;
      var success := true;
      var i := 0;
      while i < |names|
        invariant 0 <= i <= |names|
        invariant status == Directory
        invariant LinkAll(fs, binDir, faults, old(entries), names[..i]) == LinkState(entries, success)
      {
        assert names[..i + 1][..i] == names[..i] && names[..i + 1][i] == names[i];
        var ok := LinkEntry(fs, binDir, faults, names[i]);
        success := success && ok;
        i := i + 1;
      }
      assert names[..i] == names;
      return Finished(success);
    }

    /**
     * One pass of the loop: a regular file `name` of the bin directory
     * replaces the destination entry (any `OSError` marks failure and moves
     * on); anything else is skipped.
     */
    method LinkEntry(fs: Tree, binDir: Path, faults: LinkFaults, name: string) returns (ok: bool)
      requires Valid() && status == Directory
      modifies this
      ensures Valid() && status == old(status)
      ensures LinkStep(fs, binDir, faults, old(entries), name) == LinkState(entries, ok)
    {
      ok := true;
      var binary := Join(binDir, name);
      if IsFile(fs, binary) {
        if name in entries && (entries[name].Dir? || name in faults.unlinkDenied) {
          ok := false;
        } else {
          entries := entries - {name};
          if name in faults.symlinkDenied {
            ok := false;
          } else {
            entries := entries[name := Link(binary)];
          }
        }
      }
    }
  }
}
