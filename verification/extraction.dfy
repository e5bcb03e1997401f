/**
 `extract_python_src_files`: check the archive path, unpack the archive into
 `tmp/<user>_<name>`, make sure `repositories/<user>/<name>` exists, take the
 first top-level directory of the archive as the project root, move the kept
 `.py` files of the pruned walk there by base name, then delete the archive
 and the project root.

 Only the top-level directories of the unpacked archive are recorded on the
 disk; the files below them are the archive's tree, which the walk reads.
 */
module Extraction {

  import opened Exceptions
  import opened Strings
  import opened Catalog
  import opened NameFilter
  import opened SourceTree
  import opened Disk

  /** `[f for f in os.listdir(...) if isdir(f)][0]`: the first directory among
      the top-level entries, if there is one. */
  function ProjectRoot(entries: seq<Node>): (r: Option<Node>)
    ensures FirstDirectory(entries, r)
  {
    if entries == [] then None
    else if entries[0].Dir? then Some(entries[0])
    else
      var r := ProjectRoot(entries[1..]);
      FirstDirectoryShifts(entries, r);
      r
  }

  /** `r` is the first directory of `entries`, or `None` when there is none. */
  ghost predicate FirstDirectory(entries: seq<Node>, r: Option<Node>) {
    && (r.None? <==> forall i :: 0 <= i < |entries| ==> !entries[i].Dir?)
    && (r.Some? ==> exists i :: 0 <= i < |entries| && entries[i] == r.value && entries[i].Dir? &&
                                forall j :: 0 <= j < i ==> !entries[j].Dir?)
  }

  lemma FirstDirectoryShifts(entries: seq<Node>, r: Option<Node>)
    requires |entries| > 0 && !entries[0].Dir? && FirstDirectory(entries[1..], r)
    ensures FirstDirectory(entries, r)
  {
    forall i | 0 < i < |entries|
      ensures entries[i] == entries[1..][i - 1]
    {
    }
    if r.Some? {
      var i :| 0 <= i < |entries[1..]| && entries[1..][i] == r.value && entries[1..][i].Dir? &&
               forall j :: 0 <= j < i ==> !entries[1..][j].Dir?;
      assert entries[i + 1] == r.value;
    }
  }

  /** `shutil.unpack_archive(archive, dir)`, as far as the disk records it:
      the archive's top-level directories exist, and so does the unpack
      directory unless the archive has no entries at all (the zip unpacker
      only creates directories for the entries it writes). */
  function Unpack(d: Disk, dir: Path, entries: seq<Node>): (r: Disk)
    ensures r.files == d.files
    ensures dir in r.dirs <==> dir in d.dirs || entries != []
    ensures forall q :: q in d.dirs ==> q in r.dirs
    ensures forall q :: q in r.dirs && q !in d.dirs ==> dir <= q
  {
    if entries == [] then d
    else d.(dirs := d.dirs + {dir} + set e | e in entries && e.Dir? :: dir + [e.name])
  }

  /** The moves of the walk: every base name of `dest` becomes a file of
      `container`, overwriting a file already there. */
  function Place(d: Disk, container: Path, t: Target, dest: map<string, FilePath>): (r: Disk)
    ensures r.dirs == d.dirs
    ensures forall k :: k in dest ==> container + [k] in r.files && r.files[container + [k]] == SourceFile(t, dest[k])
    ensures forall q :: q in r.files <==> q in d.files || Moved(container, dest, q)
    ensures forall q :: q in r.files && !Moved(container, dest, q) ==> r.files[q] == d.files[q]
  {
    d.(files := d.files + Moves(container, t, dest))
  }

  /** The files the moves create: `container/<k>` holding the file `dest`
      maps `k` to. */
  function Moves(container: Path, t: Target, dest: map<string, FilePath>): (m: map<Path, Content>)
    ensures forall q :: q in m <==> Moved(container, dest, q)
    ensures forall k :: k in dest ==> container + [k] in m && m[container + [k]] == SourceFile(t, dest[k])
  {
    assert forall k :: (container + [k])[|container|] == k && (container + [k])[..|container|] == container;
    assert forall q :: Moved(container, dest, q) ==> q == container + [q[|container|]];
    map k | k in dest :: container + [k] := SourceFile(t, dest[k])
  }

  /** `q` is the destination of one of the moves. */
  predicate Moved(container: Path, dest: map<string, FilePath>, q: Path) {
    |q| == |container| + 1 && q[..|container|] == container && q[|container|] in dest
  }

  /** `os.path.isfile(p) and p.endswith('.zip')`, the two asserts. */
  predicate IsZipFile(d: Disk, p: Path) {
    p in d.files && |p| > 0 && EndsWith(p[|p| - 1], ZipSuffix)
  }

  /** `tarball` is a zip archive whose unpack directory `os.listdir` finds
      (the archive has entries, or the directory was there before) but whose
      top level holds no directory. */
  predicate Rootless(d: Disk, t: Target, tarball: Path) {
    && IsZipFile(d, tarball) && d.files[tarball].ArchiveFile? && d.files[tarball].archive.Zip?
    && var entries := d.files[tarball].archive.entries;
       (entries != [] || UnpackDir(t) in d.dirs) && ProjectRoot(entries).None?
  }

  /** The archive path built for a target ends in `.zip`. */
  lemma ArchivePathIsZip(d: Disk, t: Target)
    requires ArchivePath(t) in d.files
    ensures IsZipFile(d, ArchivePath(t))
  {
    var last := t.user + "_" + t.name + ZipSuffix;
    assert last[|last| - |ZipSuffix|..] == ZipSuffix;
  }

  /** The project root's path, once it is known. */
  function RootPath(t: Target, root: Node): Path {
    UnpackDir(t) + [root.name]
  }

  /** `extract_python_src_files(user, repo_name, tarball_path)`. */
  function Extract(d: Disk, t: Target, tarball: Path): (s: Step)
    ensures !IsZipFile(d, tarball) ==> s == Step(d, Some(AssertionError("")))
    ensures s.raised.None? ==>
              && tarball in d.files && d.files[tarball].ArchiveFile? && d.files[tarball].archive.Zip?
              && ProjectRoot(d.files[tarball].archive.entries).Some?
              && tarball !in s.disk.files
              && ContainerDir(t) in s.disk.dirs
              && UnpackDir(t) in s.disk.dirs
              && forall q :: q in s.disk.dirs ==> !(RootPath(t, ProjectRoot(d.files[tarball].archive.entries).value) <= q)
    ensures s.raised == Some(IndexError) ==> ContainerDir(t) in s.disk.dirs && tarball in s.disk.files
    ensures s.raised.Some? ==> IsOSError(s.raised.value) || s.raised.value in {AssertionError(""), IndexError}
    ensures forall q :: q in d.dirs && !InScratch(q) ==> q in s.disk.dirs
    ensures forall q :: q in s.disk.dirs && q !in d.dirs ==> Tmp <= q || q == ContainerDir(t)
    ensures forall q :: Written(d, s.disk, q) ==>
              ContainerDir(t) < q && s.disk.files[q].SourceFile? && s.disk.files[q].origin == t
    ensures forall q :: q in d.files && q != tarball && !(Tmp <= q) ==> q in s.disk.files
  {
    if !IsZipFile(d, tarball) then Step(d, Some(AssertionError("")))
    else match d.files[tarball]
      case SourceFile(_, _) => Step(d, Some(OSError(ReadError, "")))
      case ArchiveFile(NotZip) => Step(d, Some(OSError(ReadError, "")))
      case ArchiveFile(Zip(entries)) => ExtractZip(d, t, tarball, entries)
  }

  /** Which exception an extraction raises: `shutil.ReadError` (an
      `OSError`) for a file that is not a zip archive, with the disk
      unchanged; nothing exactly when the archive has a project root and the
      container can be made; `FileNotFoundError` when an empty archive leaves
      no unpack directory to list; `IndexError` exactly when the listed
      unpack directory holds no directory. */
  lemma ExtractOutcome(d: Disk, t: Target, tarball: Path)
    ensures var s := Extract(d, t, tarball);
            && (IsZipFile(d, tarball) && !(d.files[tarball].ArchiveFile? && d.files[tarball].archive.Zip?) ==>
                  s == Step(d, Some(OSError(ReadError, ""))))
            && (s.raised == Some(IndexError) <==> Rootless(d, t, tarball) && CanMake(d, ContainerDir(t)))
            && (s.raised.None? <==>
                  && IsZipFile(d, tarball) && d.files[tarball].ArchiveFile? && d.files[tarball].archive.Zip?
                  && ProjectRoot(d.files[tarball].archive.entries).Some?
                  && CanMake(d, ContainerDir(t)))
            && (&& IsZipFile(d, tarball) && d.files[tarball] == ArchiveFile(Zip([]))
                && UnpackDir(t) !in d.dirs && CanMake(d, ContainerDir(t))
                ==> s.raised == Some(OSError(FileNotFound, "")))
  {
    if IsZipFile(d, tarball) && d.files[tarball].ArchiveFile? && d.files[tarball].archive.Zip? {
      var entries := d.files[tarball].archive.entries;
      assert Extract(d, t, tarball) == ExtractZip(d, t, tarball, entries);
    }
  }

  /** `extract_python_src_files` once the archive is known to be a zip file:
      unpack, make the container, list the unpack directory, take its first
      directory and collect from it. */
  function ExtractZip(d: Disk, t: Target, tarball: Path, entries: seq<Node>): (s: Step)
    requires IsZipFile(d, tarball) && d.files[tarball] == ArchiveFile(Zip(entries))
    ensures s.raised.None? <==> ProjectRoot(entries).Some? && CanMake(d, ContainerDir(t))
    ensures entries == [] && UnpackDir(t) !in d.dirs && CanMake(d, ContainerDir(t)) ==>
              s.raised == Some(OSError(FileNotFound, ""))
    ensures s.raised == Some(IndexError) <==>
              (entries != [] || UnpackDir(t) in d.dirs) && ProjectRoot(entries).None? && CanMake(d, ContainerDir(t))
    ensures s.raised.None? ==>
              && tarball !in s.disk.files
              && ContainerDir(t) in s.disk.dirs
              && UnpackDir(t) in s.disk.dirs
              && forall q :: q in s.disk.dirs ==> !(RootPath(t, ProjectRoot(entries).value) <= q)
    ensures s.raised == Some(IndexError) ==> ContainerDir(t) in s.disk.dirs && tarball in s.disk.files
    ensures s.raised.Some? ==> IsOSError(s.raised.value) || s.raised.value == IndexError
    ensures forall q :: q in d.dirs && !InScratch(q) ==> q in s.disk.dirs
    ensures forall q :: q in s.disk.dirs && q !in d.dirs ==> Tmp <= q || q == ContainerDir(t)
    ensures forall q :: Written(d, s.disk, q) ==>
              ContainerDir(t) < q && s.disk.files[q].SourceFile? && s.disk.files[q].origin == t
    ensures forall q :: q in d.files && q != tarball && !(Tmp <= q) ==> q in s.disk.files
  {
    var unpacked := Unpack(d, UnpackDir(t), entries);
    assert CanMake(unpacked, ContainerDir(t)) == CanMake(d, ContainerDir(t)) by {
      ContainerOutsideTmp(t);
    }
    assert UnpackDir(t) != ContainerDir(t) by {
      ContainerOutsideTmp(t);
    }
    var ready :- EnsureDir(unpacked, ContainerDir(t));
    if UnpackDir(t) !in ready.dirs then Step(ready, Some(OSError(FileNotFound, "")))
    else match ProjectRoot(entries)
      case None => Step(ready, Some(IndexError))
      case Some(root) => Step(Collect(ready, t, tarball, root), None)
  }

  /** The walk from the project root and the final deletions: the kept files
      are moved into the container, then the archive and the project root
      are removed. */
  function Collect(ready: Disk, t: Target, tarball: Path, root: Node): (r: Disk)
    requires root.Dir? && ContainerDir(t) in ready.dirs && UnpackDir(t) in ready.dirs
    ensures tarball !in r.files
    ensures ContainerDir(t) in r.dirs && UnpackDir(t) in r.dirs
    ensures forall q :: q in r.dirs ==> !(RootPath(t, root) <= q)
    ensures forall q :: q in ready.dirs && !(RootPath(t, root) <= q) ==> q in r.dirs
    ensures forall q :: q in r.dirs ==> q in ready.dirs
    ensures forall q :: Written(ready, r, q) ==>
              ContainerDir(t) < q && r.files[q].SourceFile? && r.files[q].origin == t
    ensures forall q :: q in ready.files && q != tarball && !(RootPath(t, root) <= q) ==> q in r.files
  {
    var moved := Place(ready, ContainerDir(t), t, Flatten(Walk(root.children)));
    var cleaned := moved.(files := moved.files - {tarball});
    ContainerOutsideTmp(t);
    assert !(RootPath(t, root) <= ContainerDir(t));
    assert !(RootPath(t, root) <= UnpackDir(t));
    RemoveTree(cleaned, RootPath(t, root))
  }

  /** On a fresh container, a successful extraction leaves in it exactly the
      base names of the kept, unpruned `.py` files below the project root,
      each holding one such file of this target. */
  lemma ExtractPlacesKeptFiles(d: Disk, t: Target, tarball: Path, k: string)
    requires tarball in d.files && d.files[tarball].ArchiveFile? && d.files[tarball].archive.Zip?
    requires Listing(d, ContainerDir(t)) == map[]
    ensures Extract(d, t, tarball).raised.None? ==>
            var root := ProjectRoot(d.files[tarball].archive.entries).value;
            var after := Listing(Extract(d, t, tarball).disk, ContainerDir(t));
            && (k in after <==> IsSourceCandidate(k) && exists p :: Contains(root.children, p) && Unpruned(p) && p.name == k)
            && (k in after ==> && after[k].SourceFile? && after[k].origin == t
                               && Contains(root.children, after[k].from) && Unpruned(after[k].from)
                               && after[k].from.name == k
                               && k in Flatten(Walk(root.children)) && after[k].from == Flatten(Walk(root.children))[k])
  {
    if Extract(d, t, tarball).raised.None? {
      ExtractedListing(d, t, tarball, k);
    }
  }

  lemma ExtractedListing(d: Disk, t: Target, tarball: Path, k: string)
    requires tarball in d.files && d.files[tarball].ArchiveFile? && d.files[tarball].archive.Zip?
    requires Listing(d, ContainerDir(t)) == map[]
    requires Extract(d, t, tarball).raised.None?
    ensures var root := ProjectRoot(d.files[tarball].archive.entries).value;
            var after := Listing(Extract(d, t, tarball).disk, ContainerDir(t));
            && (k in after <==> IsSourceCandidate(k) && exists p :: Contains(root.children, p) && Unpruned(p) && p.name == k)
            && (k in after ==> && after[k].SourceFile? && after[k].origin == t
                               && Contains(root.children, after[k].from) && Unpruned(after[k].from)
                               && after[k].from.name == k
                               && k in Flatten(Walk(root.children)) && after[k].from == Flatten(Walk(root.children))[k])
  {
    var entries := d.files[tarball].archive.entries;
    var root := ProjectRoot(entries).value;
    var container := ContainerDir(t);
    var dest := Flatten(Walk(root.children));
    var ready := EnsureDir(Unpack(d, UnpackDir(t), entries), container).disk;
    assert ready.files == d.files;
    var after := RemoveTree(Place(ready, container, t, dest).(files := Place(ready, container, t, dest).files - {tarball}), RootPath(t, root));
    assert Extract(d, t, tarball).disk == Collect(ready, t, tarball, root) == after;
    PlacedListing(ready, container, t, dest, tarball, RootPath(t, root), k);
    FlattenedWalk(root.children, k);
  }

  /** Moving `dest` into an empty directory, then deleting the archive and a
      tree elsewhere, leaves exactly `dest` in that directory. */
  lemma PlacedListing(ready: Disk, container: Path, t: Target, dest: map<string, FilePath>,
                      tarball: Path, rootPath: Path, k: string)
    requires Listing(ready, container) == map[] && tarball in ready.files
    requires |container| > 0 && |rootPath| > 0 && rootPath[0] != container[0]
    ensures var moved := Place(ready, container, t, dest);
            var after := Listing(RemoveTree(moved.(files := moved.files - {tarball}), rootPath), container);
            && (k in after <==> k in dest)
            && (k in after ==> after[k] == SourceFile(t, dest[k]))
  {
    var q := container + [k];
    assert q[0] == container[0] && q[|container|] == k;
    assert q !in ready.files && q != tarball;
    var moved := Place(ready, container, t, dest);
    assert q in moved.files <==> k in dest;
    var cleaned := moved.(files := moved.files - {tarball});
    assert q in cleaned.files <==> k in dest;
    assert !(rootPath <= q);
    var removed := RemoveTree(cleaned, rootPath);
    assert q in removed.files <==> k in dest;
  }
}
