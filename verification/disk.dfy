/**
 The part of the file system the downloader touches, relative to its working
 directory: the directories that exist and the files that exist with what
 they hold. A path is the list of its components with empty components
 dropped, which is how the file system resolves `os.path.join` with an empty
 part: `os.path.join('repositories', '', 'x')` and
 `os.path.join('repositories', 'x', '')` both name `repositories/x`.
 */
module Disk {

  import opened Exceptions
  import opened Catalog
  import opened SourceTree

  type Path = seq<string>

  /** What `shutil.unpack_archive` finds in a downloaded file: the top-level
      entries of a zip archive in listing order, or something that is not a
      zip archive. */
  datatype Archive = Zip(entries: seq<Node>) | NotZip

  /** A file's content: a downloaded archive, or a source file moved out of
      the archive of a target. */
  datatype Content = ArchiveFile(archive: Archive) | SourceFile(origin: Target, from: FilePath)

  datatype Disk = Disk(dirs: set<Path>, files: map<Path, Content>)

  /** `os.path.join(base, c)` for a component without `/`. */
  function Child(base: Path, c: string): (p: Path)
    ensures c == "" ==> p == base
    ensures c != "" ==> |p| == |base| + 1 && p[..|base|] == base && p[|base|] == c
  {
    if c == "" then base else base + [c]
  }

  const Repositories: Path := ["repositories"]
  const Tmp: Path := ["tmp"]

  /** `repositories/<user>`. */
  function UserDir(user: string): Path {
    Child(Repositories, user)
  }

  /** `repositories/<user>/<name>`: where the target's files end up. */
  function ContainerDir(t: Target): Path {
    Child(UserDir(t.user), t.name)
  }

  /** The suffix of a downloaded archive's file name. */
  const ZipSuffix := ".zip"

  /** `tmp/<user>_<name>.zip`. */
  function ArchivePath(t: Target): Path {
    Tmp + [t.user + "_" + t.name + ZipSuffix]
  }

  /** `tmp/<user>_<name>`. */
  function UnpackDir(t: Target): Path {
    Tmp + [t.user + "_" + t.name]
  }

  /** Whether a path lies in the scratch area where archives are unpacked:
      strictly below some `tmp/<user>_<name>`. */
  predicate InScratch(p: Path) {
    |p| > 2 && p[0] == Tmp[0]
  }

  /** The outcome of a step that changes the disk: the disk afterwards, and
      the exception raised, if any. A step that raises leaves whatever it had
      already done in place. */
  datatype Step = Step(disk: Disk, raised: Option<Exception>) {

    predicate IsFailure() {
      raised.Some?
    }

    function PropagateFailure(): Step
      requires IsFailure()
    {
      this
    }

    function Extract(): Disk {
      disk
    }
  }

  /** `os.mkdir(p)`: fails if `p` is a file or its parent is missing. The
      parent of a one-component path is the working directory. */
  function MakeDir(d: Disk, p: Path): (s: Step)
    requires p !in d.dirs
    ensures s.raised.None? <==> p !in d.files && (|p| <= 1 || p[..|p| - 1] in d.dirs)
    ensures s.raised.None? ==> s.disk == d.(dirs := d.dirs + {p})
    ensures s.raised.Some? ==> s.disk == d && IsOSError(s.raised.value)
  {
    if p in d.files then Step(d, Some(OSError(FileExists, "")))
    else if |p| > 1 && p[..|p| - 1] !in d.dirs then Step(d, Some(OSError(FileNotFound, "")))
    else Step(d.(dirs := d.dirs + {p}), None)
  }

  /** `p` is a directory already, or `os.mkdir(p)` can create it. */
  predicate CanMake(d: Disk, p: Path) {
    p in d.dirs || (p !in d.files && (|p| <= 1 || p[..|p| - 1] in d.dirs))
  }

  /** `if not os.path.isdir(p): os.mkdir(p)`. */
  function EnsureDir(d: Disk, p: Path): (s: Step)
    ensures s.raised.None? <==> CanMake(d, p)
    ensures s.raised.None? ==> p in s.disk.dirs && s.disk == d.(dirs := d.dirs + {p})
    ensures p in d.dirs ==> s == Step(d, None)
    ensures s.raised.Some? ==> s.disk == d && IsOSError(s.raised.value)
  {
    if p in d.dirs then Step(d, None) else MakeDir(d, p)
  }

  /** `shutil.rmtree(p)` on an existing directory: `p` and everything below it
      goes, nothing else changes. */
  function RemoveTree(d: Disk, p: Path): (r: Disk)
    ensures forall q :: q in r.dirs <==> q in d.dirs && !(p <= q)
    ensures forall q :: q in r.files <==> q in d.files && !(p <= q)
    ensures forall q :: q in r.files ==> r.files[q] == d.files[q]
  {
    Disk(set q | q in d.dirs && !(p <= q), map q | q in d.files && !(p <= q) :: d.files[q])
  }

  /** `q` is a file of `e` that `d` did not hold with the same content: a
      file one step created or overwrote. */
  predicate Written(d: Disk, e: Disk, q: Path) {
    q in e.files && (q !in d.files || e.files[q] != d.files[q])
  }

  /** The files directly inside directory `dir`, by base name. */
  function Listing(d: Disk, dir: Path): (m: map<string, Content>)
    ensures forall k :: k in m <==> dir + [k] in d.files
    ensures forall k :: k in m ==> m[k] == d.files[dir + [k]]
  {
    var names := set q | q in d.files && |q| == |dir| + 1 && q[..|dir|] == dir :: q[|dir|];
    assert forall q :: q in d.files && |q| == |dir| + 1 && q[..|dir|] == dir ==> q == dir + [q[|dir|]];
    assert forall k :: dir + [k] in d.files ==> (dir + [k])[|dir|] == k && (dir + [k])[..|dir|] == dir;
    map k | k in names :: d.files[dir + [k]]
  }

  /** A container and its owner directory lie under `repositories`, never
      under `tmp`. */
  lemma ContainerOutsideTmp(t: Target)
    ensures ContainerDir(t)[0] == UserDir(t.user)[0] == Repositories[0] != Tmp[0]
    ensures |ContainerDir(t)| > 1 ==> ContainerDir(t)[..|ContainerDir(t)| - 1][0] == Repositories[0]
  {
  }

  /** The only non-empty paths a container lies in are `repositories`, its
      owner's directory and the container itself. */
  lemma ContainerPrefixes(t: Target, p: Path)
    requires p != [] && p <= ContainerDir(t)
    ensures p == Repositories || p == UserDir(t.user) || p == ContainerDir(t)
  {
    var u := UserDir(t.user);
    if |p| == 1 {
      assert p == p[..1] == ContainerDir(t)[..1] == Repositories;
    } else if |p| == |ContainerDir(t)| {
    } else {
      assert |p| == 2 && t.user != "" && t.name != "";
      assert p == ContainerDir(t)[..2] == u;
    }
  }

  /** A file one step after another left changed was changed by one of them. */
  lemma WrittenThrough(a: Disk, b: Disk, c: Disk)
    ensures forall q :: Written(a, c, q) ==> Written(a, b, q) || Written(b, c, q)
  {
  }

  /** Two disks that agree on the files directly inside `dir` list it alike. */
  lemma SameListing(d: Disk, e: Disk, dir: Path)
    requires forall k :: dir + [k] in d.files <==> dir + [k] in e.files
    requires forall k :: dir + [k] in d.files ==> d.files[dir + [k]] == e.files[dir + [k]]
    ensures Listing(d, dir) == Listing(e, dir)
  {
    var l, m := Listing(d, dir), Listing(e, dir);
    assert l.Keys == m.Keys;
  }

  /** The names built for different targets need not differ:
      `("a_b", "c")` and `("a", "b_c")` share their archive and unpack paths. */
  lemma ScratchNamesCollide()
    ensures ArchivePath(Target("a_b", "c")) == ArchivePath(Target("a", "b_c"))
    ensures UnpackDir(Target("a_b", "c")) == UnpackDir(Target("a", "b_c"))
  {
    assert "a_b" + "_" + "c" == "a" + "_" + "b_c";
  }

  /** An empty part of a repository name collapses into its neighbour: a
      target with an empty name has its owner's directory as its container,
      and one with an empty owner shares the owner directory of its name. */
  lemma EmptyPartsAlias(user: string, name: string)
    ensures ContainerDir(Target(user, "")) == UserDir(user)
    ensures ContainerDir(Target("", name)) == UserDir(name)
  {
  }

  /** The disk is a tree: every directory and file other than a top-level one
      has its parent directory, and no path is both a file and a directory. */
  ghost predicate WellFormed(d: Disk) {
    && (forall q :: q in d.dirs && |q| > 1 ==> q[..|q| - 1] in d.dirs)
    && (forall q :: q in d.files && |q| > 1 ==> q[..|q| - 1] in d.dirs)
    && (forall q :: q in d.files ==> q !in d.dirs)
  }

  /** On a well-formed disk, every proper ancestor of an existing path is a
      directory. */
  lemma {:induction false} AncestorIsDir(d: Disk, q: Path, p: Path)
    requires WellFormed(d) && (q in d.dirs || q in d.files)
    requires 0 < |p| < |q| && p <= q
    ensures p in d.dirs
    decreases |q|
  {
    var parent := q[..|q| - 1];
    assert parent in d.dirs;
    if |p| < |parent| {
      AncestorIsDir(d, parent, p);
    } else {
      assert p == parent;
    }
  }

  /** Creating a directory over an empty area and removing its tree again
      gives the disk back. */
  lemma RemoveAddedTree(d: Disk, p: Path)
    requires forall q :: q in d.dirs || q in d.files ==> !(p <= q)
    ensures RemoveTree(d.(dirs := d.dirs + {p}), p) == d
  {
    var r := RemoveTree(d.(dirs := d.dirs + {p}), p);
    assert r.dirs == d.dirs;
    assert r.files == d.files;
  }
}
