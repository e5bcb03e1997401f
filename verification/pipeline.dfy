/**
 The driver: `download_latest_release` writes a target's archive into `tmp`,
 `collate_python_files` prepares the directories and skips a target whose
 container already exists, and `download_dataset` reads the catalog, wipes
 `repositories` on a fresh start, collates every target while turning an
 `OSError` into a warning, and finally removes `tmp`.

 The network is a parameter: the reply of the repository API to a URL and
 header, and what downloading an archive URL yields.
 */
module Pipeline {

  import opened Exceptions
  import opened Catalog
  import opened GitHub
  import opened Disk
  import opened Extraction
  import opened NameFilter
  import opened SourceTree

  /** What `requests.get(url, stream=True)` on an archive URL yields: the
      request raises, or the body arrives and is written out whatever the
      status (a body that is not a zip archive fails later, at unpacking). */
  datatype ZipReply = ZipDown | ZipBody(archive: Archive)

  datatype Network = Network(api: (string, Header) -> ApiReply, download: string -> ZipReply)

  /** `download_latest_release(user, name, path, access_token)`. */
  function Download(d: Disk, t: Target, path: Path, token: Option<string>, env: map<string, string>,
                    net: Network): (s: Step)
    ensures s.raised.Some? ==> s.disk == d
    ensures TarballUrl(t, token, env, net.api).Raise? ==> s.raised == Some(TarballUrl(t, token, env, net.api).exc)
    ensures TarballUrl(t, token, env, net.api).Ok? && s.raised.Some? ==> IsOSError(s.raised.value)
    ensures s.raised.None? <==>
              && TarballUrl(t, token, env, net.api).Ok?
              && net.download(TarballUrl(t, token, env, net.api).value).ZipBody?
              && path !in d.dirs && (|path| <= 1 || path[..|path| - 1] in d.dirs)
    ensures s.raised.None? ==>
              && s.disk.dirs == d.dirs
              && path in s.disk.files
              && s.disk.files[path] == ArchiveFile(net.download(TarballUrl(t, token, env, net.api).value).archive)
              && forall q :: q != path ==> (q in s.disk.files <==> q in d.files)
    ensures forall q :: Written(d, s.disk, q) ==> q == path
    ensures s.raised.Some? && s.raised.value.AssertionError? ==> Rejected(t, token, env, net.api, s.raised.value.message)
  {
    match TarballUrl(t, token, env, net.api)
    case Raise(e) => Step(d, Some(e))
    case Ok(url) =>
      match net.download(url)
      case ZipDown => Step(d, Some(OSError(RequestFailed, "")))
      case ZipBody(archive) =>
        if path in d.dirs then Step(d, Some(OSError(IsADirectory, "")))
        else if |path| > 1 && path[..|path| - 1] !in d.dirs then Step(d, Some(OSError(FileNotFound, "")))
        else Step(d.(files := d.files[path := ArchiveFile(archive)]), None)
  }

  /** The target's directories all exist: `repositories`, the owner's
      directory and the container. */
  predicate Materialized(d: Disk, t: Target) {
    Repositories in d.dirs && UserDir(t.user) in d.dirs && ContainerDir(t) in d.dirs
  }

  /** The directories a collation may create outside `tmp`. */
  predicate MadeFor(t: Target, q: Path) {
    q == Repositories || q == UserDir(t.user) || q == ContainerDir(t)
  }

  /** None of the paths a collation creates is blocked: the directories it
      makes are not files, and the archive's path is not a directory. */
  predicate Unobstructed(d: Disk, t: Target) {
    && Repositories !in d.files && UserDir(t.user) !in d.files && Tmp !in d.files
    && ContainerDir(t) !in d.files && ArchivePath(t) !in d.dirs
  }

  /** The network resolves the target's archive URL and serves a zip archive
      that has a project root. */
  predicate Fetches(t: Target, token: Option<string>, env: map<string, string>, net: Network) {
    var url := TarballUrl(t, token, env, net.api);
    url.Ok? && var reply := net.download(url.value);
    reply.ZipBody? && reply.archive.Zip? && ProjectRoot(reply.archive.entries).Some?
  }

  /** `collate_python_files(user, name, access_token)`. */
  function Collate(d: Disk, t: Target, token: Option<string>, env: map<string, string>, net: Network): (s: Step)
    ensures Materialized(d, t) && Tmp !in d.files ==> s == Step(d.(dirs := d.dirs + {Tmp}), None)
    ensures Materialized(d, t) && Tmp in d.dirs ==> s == Step(d, None)
    ensures s.raised.None? ==> Materialized(s.disk, t) && Tmp in s.disk.dirs
    ensures forall q :: q in d.dirs && !InScratch(q) ==> q in s.disk.dirs
    ensures forall q :: q in s.disk.dirs && q !in d.dirs ==> Tmp <= q || MadeFor(t, q)
    ensures forall q :: Written(d, s.disk, q) ==>
              Tmp <= q || (ContainerDir(t) < q && s.disk.files[q].SourceFile? && s.disk.files[q].origin == t)
    ensures forall q :: q in d.files && !(Tmp <= q) ==> q in s.disk.files
    ensures ContainerDir(t) in d.dirs ==> s.disk.files == d.files
    ensures s.raised.Some? ==> IsOSError(s.raised.value) || s.raised.value.AssertionError? ||
                               s.raised.value in {KeyError("default_branch"), IndexError}
    ensures s.raised.Some? && s.raised.value.AssertionError? ==> Rejected(t, token, env, net.api, s.raised.value.message)
  {
    var ready :- Prepare(d, t);
    if ContainerDir(t) in ready.dirs then Step(ready, None) else Fetch(ready, t, token, env, net)
  }

  /** A target not collected yet, with a non-empty name and no blocked path. */
  predicate Fresh(d: Disk, t: Target) {
    t.name != "" && ContainerDir(t) !in d.dirs && Unobstructed(d, t)
  }

  /** The network resolves the target's archive URL and serves a zip archive
      that `os.listdir` finds after unpacking (it has entries, or the unpack
      directory is there already) but whose top level holds no directory. */
  predicate FetchesRootless(d: Disk, t: Target, token: Option<string>, env: map<string, string>, net: Network) {
    var url := TarballUrl(t, token, env, net.api);
    url.Ok? && var reply := net.download(url.value);
    && reply.ZipBody? && reply.archive.Zip?
    && (reply.archive.entries != [] || UnpackDir(t) in d.dirs)
    && ProjectRoot(reply.archive.entries).None?
  }

  /** What collating a fresh target raises: nothing exactly when the archive
      is fetched and has a project root; the error of resolving the URL as
      is; `IndexError`, which ends the run, exactly when the archive has no
      top-level directory; otherwise an `OSError`, which the run turns into
      a warning. */
  lemma CollateOutcome(d: Disk, t: Target, token: Option<string>, env: map<string, string>, net: Network)
    ensures var s := Collate(d, t, token, env, net);
            Fresh(d, t) ==>
              && (s.raised.None? <==> Fetches(t, token, env, net))
              && (TarballUrl(t, token, env, net.api).Raise? ==> s.raised == Some(TarballUrl(t, token, env, net.api).exc))
              && (s.raised == Some(IndexError) <==> FetchesRootless(d, t, token, env, net))
              && (TarballUrl(t, token, env, net.api).Ok? && s.raised.Some? ==>
                    IsOSError(s.raised.value) || s.raised.value == IndexError)
  {
    if Fresh(d, t) {
      var prepared := Prepare(d, t);
      assert prepared.raised.None?;
      var ready := prepared.disk;
      ContainerIsNew(t);
      assert ContainerDir(t) !in ready.dirs;
      assert Collate(d, t, token, env, net) == Fetch(ready, t, token, env, net);
      ReadyForFetch(d, t, ready);
      FetchOutcome(ready, t, token, env, net);
      assert FetchesRootless(ready, t, token, env, net) == FetchesRootless(d, t, token, env, net);
    }
  }

  /** The directories `collate_python_files` makes before its skip check:
      `repositories`, the owner's directory and `tmp`. */
  function Prepare(d: Disk, t: Target): (s: Step)
    ensures s.disk.files == d.files
    ensures forall q :: q in d.dirs ==> q in s.disk.dirs
    ensures forall q :: q in s.disk.dirs ==> q in d.dirs || q in {Repositories, UserDir(t.user), Tmp}
    ensures s.raised.None? ==> Repositories in s.disk.dirs && UserDir(t.user) in s.disk.dirs && Tmp in s.disk.dirs
    ensures s.raised.Some? ==> IsOSError(s.raised.value)
    ensures Repositories !in d.files && UserDir(t.user) !in d.files && Tmp !in d.files ==> s.raised.None?
  {
    var withRoot :- EnsureDir(d, Repositories);
    var withUser :- EnsureDir(withRoot, UserDir(t.user));
    EnsureDir(withUser, Tmp)
  }

  /** After the preparation, the container of a target with a non-empty name
      can be made and the archive's path is free. */
  lemma ReadyForFetch(d: Disk, t: Target, ready: Disk)
    requires t.name != "" && Unobstructed(d, t)
    requires ready.files == d.files
    requires forall q :: q in d.dirs ==> q in ready.dirs
    requires forall q :: q in ready.dirs ==> q in d.dirs || q in {Repositories, UserDir(t.user), Tmp}
    requires UserDir(t.user) in ready.dirs
    ensures CanMake(ready, ContainerDir(t)) && ArchivePath(t) !in ready.dirs
    ensures UnpackDir(t) in ready.dirs <==> UnpackDir(t) in d.dirs
  {
    assert UnpackDir(t) != UserDir(t.user) && UnpackDir(t) != Repositories && UnpackDir(t) != Tmp by {
      assert |UnpackDir(t)| == 2 && UnpackDir(t)[0] == Tmp[0];
      ContainerOutsideTmp(t);
    }
    ContainerOutsideTmp(t);
    assert ContainerDir(t)[..|ContainerDir(t)| - 1] == UserDir(t.user);
    assert ArchivePath(t) != UserDir(t.user) && ArchivePath(t) != Repositories && ArchivePath(t) != Tmp by {
      assert |ArchivePath(t)| == 2 && ArchivePath(t)[0] == Tmp[0];
    }
  }

  /** The rest of `collate_python_files` for a target not collected yet:
      download its archive into `tmp`, then extract it. */
  function Fetch(ready: Disk, t: Target, token: Option<string>, env: map<string, string>, net: Network): (s: Step)
    requires Tmp in ready.dirs
    ensures s.raised.None? ==> ContainerDir(t) in s.disk.dirs
    ensures forall q :: q in ready.dirs && !InScratch(q) ==> q in s.disk.dirs
    ensures forall q :: q in s.disk.dirs && q !in ready.dirs ==> Tmp <= q || q == ContainerDir(t)
    ensures forall q :: Written(ready, s.disk, q) ==>
              Tmp <= q || (ContainerDir(t) < q && s.disk.files[q].SourceFile? && s.disk.files[q].origin == t)
    ensures forall q :: q in ready.files && !(Tmp <= q) ==> q in s.disk.files
    ensures s.raised.Some? ==> IsOSError(s.raised.value) || s.raised.value.AssertionError? ||
                               s.raised.value in {KeyError("default_branch"), IndexError}
    ensures s.raised.Some? && s.raised.value.AssertionError? ==> Rejected(t, token, env, net.api, s.raised.value.message)
  {
    var fetched := Download(ready, t, ArchivePath(t), token, env, net);
    if fetched.raised.Some? then fetched
    else
      ArchivePathIsZip(fetched.disk, t);
      WrittenThrough(ready, fetched.disk, ExtractDownloaded(fetched.disk, t).disk);
      ExtractDownloaded(fetched.disk, t)
  }

  /** The extraction of an archive the download has saved: the `.zip`
      assertion holds, so only an `OSError` or an `IndexError` can follow. */
  function ExtractDownloaded(downloaded: Disk, t: Target): (s: Step)
    requires IsZipFile(downloaded, ArchivePath(t))
    ensures s.raised.None? ==> ContainerDir(t) in s.disk.dirs
    ensures s.raised.Some? ==> IsOSError(s.raised.value) || s.raised.value == IndexError
    ensures forall q :: q in downloaded.dirs && !InScratch(q) ==> q in s.disk.dirs
    ensures forall q :: q in s.disk.dirs && q !in downloaded.dirs ==> Tmp <= q || q == ContainerDir(t)
    ensures forall q :: Written(downloaded, s.disk, q) ==>
              ContainerDir(t) < q && s.disk.files[q].SourceFile? && s.disk.files[q].origin == t
    ensures forall q :: q in downloaded.files && !(Tmp <= q) ==> q in s.disk.files
  {
    Extract(downloaded, t, ArchivePath(t))
  }

  /** What a fetch raises: the error of resolving the URL as is, with the
      disk unchanged; after that only `OSError` or `IndexError`. With the
      archive's path free and a container that can be made, it succeeds
      exactly when the archive has a project root, and raises `IndexError`
      exactly when the unpacked archive has no top-level directory. */
  lemma FetchOutcome(ready: Disk, t: Target, token: Option<string>, env: map<string, string>, net: Network)
    requires Tmp in ready.dirs
    ensures var s := Fetch(ready, t, token, env, net);
            && (TarballUrl(t, token, env, net.api).Raise? ==> s == Step(ready, Some(TarballUrl(t, token, env, net.api).exc)))
            && (TarballUrl(t, token, env, net.api).Ok? && s.raised.Some? ==>
                  IsOSError(s.raised.value) || s.raised.value == IndexError)
            && (ArchivePath(t) !in ready.dirs && CanMake(ready, ContainerDir(t)) ==>
                  && (s.raised.None? <==> Fetches(t, token, env, net))
                  && (s.raised == Some(IndexError) <==> FetchesRootless(ready, t, token, env, net)))
  {
    var fetched := Download(ready, t, ArchivePath(t), token, env, net);
    if fetched.raised.None? {
      var downloaded := fetched.disk;
      ArchivePathIsZip(downloaded, t);
      ContainerOutsideTmp(t);
      assert CanMake(downloaded, ContainerDir(t)) == CanMake(ready, ContainerDir(t));
      assert downloaded.dirs == ready.dirs;
      assert Fetch(ready, t, token, env, net) == ExtractDownloaded(downloaded, t) == Extract(downloaded, t, ArchivePath(t));
      ExtractOutcome(downloaded, t, ArchivePath(t));
    }
  }

  /** Collating a target whose container does not exist yet fetches the
      archive of the branch the API names and leaves in the container exactly
      the base names of the kept, unpruned `.py` files below the archive's
      project root, each holding such a file of this target. */
  lemma CollateCollectsSources(d: Disk, t: Target, token: Option<string>, env: map<string, string>,
                               net: Network, k: string)
    requires t.name != "" && ContainerDir(t) !in d.dirs && Listing(d, ContainerDir(t)) == map[]
    ensures Collate(d, t, token, env, net).raised.None? ==>
            var after := Listing(Collate(d, t, token, env, net).disk, ContainerDir(t));
            && TarballUrl(t, token, env, net.api).Ok?
            && var reply := net.download(TarballUrl(t, token, env, net.api).value);
            && reply.ZipBody? && reply.archive.Zip? && ProjectRoot(reply.archive.entries).Some?
            && var root := ProjectRoot(reply.archive.entries).value;
            && (k in after <==> IsSourceCandidate(k) && exists p :: Contains(root.children, p) && Unpruned(p) && p.name == k)
            && (k in after ==> && after[k].SourceFile? && after[k].origin == t
                               && Contains(root.children, after[k].from) && Unpruned(after[k].from)
                               && after[k].from.name == k
                               && k in Flatten(Walk(root.children)) && after[k].from == Flatten(Walk(root.children))[k])
  {
    if Collate(d, t, token, env, net).raised.None? {
      var downloaded := CollateDownloads(d, t, token, env, net);
      OtherListingUnchanged(d, downloaded, ArchivePath(t), ContainerDir(t), downloaded.files[ArchivePath(t)]);
      ExtractPlacesKeptFiles(downloaded, t, ArchivePath(t), k);
    }
  }

  /** A collation that gets past the skip check downloads the archive to
      `tmp/<user>_<name>.zip` and extracts it; no other file has changed
      when the extraction starts. */
  lemma CollateDownloads(d: Disk, t: Target, token: Option<string>, env: map<string, string>, net: Network)
    returns (downloaded: Disk)
    requires t.name != "" && ContainerDir(t) !in d.dirs
    requires Collate(d, t, token, env, net).raised.None?
    ensures TarballUrl(t, token, env, net.api).Ok? && net.download(TarballUrl(t, token, env, net.api).value).ZipBody?
    ensures downloaded.files == d.files[ArchivePath(t) := ArchiveFile(net.download(TarballUrl(t, token, env, net.api).value).archive)]
    ensures Collate(d, t, token, env, net) == Extract(downloaded, t, ArchivePath(t))
  {
    var prepared := Prepare(d, t);
    assert prepared.raised.None?;
    var ready := prepared.disk;
    ContainerIsNew(t);
    assert ContainerDir(t) !in ready.dirs;
    assert Collate(d, t, token, env, net) == Fetch(ready, t, token, env, net);
    downloaded := FetchDownloads(ready, t, token, env, net);
    assert ExtractDownloaded(downloaded, t) == Extract(downloaded, t, ArchivePath(t));
  }

  /** A fetch that succeeds wrote the archive of the resolved URL and then
      extracted it. */
  lemma FetchDownloads(ready: Disk, t: Target, token: Option<string>, env: map<string, string>, net: Network)
    returns (downloaded: Disk)
    requires Tmp in ready.dirs && Fetch(ready, t, token, env, net).raised.None?
    ensures TarballUrl(t, token, env, net.api).Ok? && net.download(TarballUrl(t, token, env, net.api).value).ZipBody?
    ensures downloaded.files == ready.files[ArchivePath(t) := ArchiveFile(net.download(TarballUrl(t, token, env, net.api).value).archive)]
    ensures IsZipFile(downloaded, ArchivePath(t))
    ensures Fetch(ready, t, token, env, net) == ExtractDownloaded(downloaded, t)
  {
    var fetched := Download(ready, t, ArchivePath(t), token, env, net);
    assert fetched.raised.None?;
    downloaded := fetched.disk;
    ArchivePathIsZip(downloaded, t);
  }

  /** Writing one file leaves the listing of a directory elsewhere as it was. */
  lemma OtherListingUnchanged(d: Disk, e: Disk, path: Path, dir: Path, c: Content)
    requires e.files == d.files[path := c]
    requires |path| > 0 && |dir| > 0 && path[0] != dir[0]
    ensures Listing(e, dir) == Listing(d, dir)
  {
    forall k | dir + [k] in e.files || dir + [k] in d.files
      ensures dir + [k] != path
    {
      assert (dir + [k])[0] == dir[0];
    }
  }

  /** A container with a non-empty name is none of the directories a
      collation ensures before its skip check. */
  lemma ContainerIsNew(t: Target)
    requires t.name != ""
    ensures ContainerDir(t) != Repositories && ContainerDir(t) != UserDir(t.user) && ContainerDir(t) != Tmp
  {
    assert ContainerDir(t)[0] != Tmp[0];
  }

  /** A `WARN - Could not unpack <user>/<name>` line and the error printed after it. */
  datatype Warning = Warning(target: Target, error: Exception)

  /** The outcome of a run: the disk afterwards, the warnings written, and the
      exception that ended the run, if any. */
  datatype RunResult = RunResult(disk: Disk, warnings: seq<Warning>, raised: Option<Exception>)

  /** Some warning names `t`. */
  predicate Warned(ws: seq<Warning>, t: Target) {
    exists j :: 0 <= j < |ws| && ws[j].target == t
  }

  /** Some target of `ts` made directory `q`. */
  predicate MadeForSome(ts: seq<Target>, q: Path) {
    exists i :: 0 <= i < |ts| && MadeFor(ts[i], q)
  }

  /** The file `q` of `e` is a source file moved into the container of some
      target of `ts`. */
  predicate CollectedForSome(ts: seq<Target>, e: Disk, q: Path)
    requires q in e.files
  {
    exists i :: 0 <= i < |ts| && ContainerDir(ts[i]) <= q && e.files[q].SourceFile? && e.files[q].origin == ts[i]
  }

  /** The `for user, name in pbar` loop: every target is collated with no
      token; an `OSError` becomes a warning and the loop goes on, any other
      exception ends the loop and propagates. */
  function Loop(d: Disk, ts: seq<Target>, env: map<string, string>, net: Network): (r: RunResult)
    ensures r.raised.Some? ==> !IsOSError(r.raised.value)
    ensures forall j :: 0 <= j < |r.warnings| ==> IsOSError(r.warnings[j].error) && r.warnings[j].target in ts
    ensures r.raised.None? ==> forall i :: 0 <= i < |ts| ==> Materialized(r.disk, ts[i]) || Warned(r.warnings, ts[i])
    ensures r.raised.None? && r.warnings == [] && ts != [] ==> Tmp in r.disk.dirs
    ensures forall q :: q in d.dirs && !InScratch(q) ==> q in r.disk.dirs
    ensures forall q :: q in r.disk.dirs && q !in d.dirs ==> Tmp <= q || MadeForSome(ts, q)
    ensures forall q :: Written(d, r.disk, q) ==> Tmp <= q || CollectedForSome(ts, r.disk, q)
    ensures forall q :: q in d.files && !(Tmp <= q) ==> q in r.disk.files
    decreases |ts|
  {
    if ts == [] then RunResult(d, [], None)
    else
      var s := Collate(d, ts[0], None, env, net);
      if s.raised.Some? && !IsOSError(s.raised.value) then RunResult(s.disk, [], s.raised)
      else
        var rest := Loop(s.disk, ts[1..], env, net);
        var here := if s.raised.Some? then [Warning(ts[0], s.raised.value)] else [];
        LoopStep(d, ts, s, rest, here);
        RunResult(rest.disk, here + rest.warnings, rest.raised)
  }

  /** The loop collates with no token, so without `GITHUB_ACCESS_TOKEN` a
      new target fails with the `EnvironmentError` of the header, which is an
      `OSError`: the target is warned about and the loop goes on. */
  lemma MissingTokenIsWarned(d: Disk, t: Target, env: map<string, string>, net: Network)
    requires TokenVariable !in env
    requires t.name != "" && ContainerDir(t) !in d.dirs && Unobstructed(d, t)
    ensures Loop(d, [t], env, net).raised.None?
    ensures Loop(d, [t], env, net).warnings == [Warning(t, OSError(Plain, MissingTokenMessage))]
  {
  }

  /** Some collation of `t` with no token, from some disk, raises `x`. */
  ghost predicate CollationRaises(t: Target, env: map<string, string>, net: Network, x: Exception) {
    exists e :: Collate(e, t, None, env, net).raised == Some(x)
  }

  /** The `try`/`except OSError` around one collation: success goes on to
      the next target, an `OSError` is written as a warning before going
      on, and any other exception ends the loop on the disk the collation
      left. */
  lemma LoopCatches(d: Disk, t: Target, rest: seq<Target>, env: map<string, string>, net: Network)
    ensures var s := Collate(d, t, None, env, net);
            && (s.raised.None? ==> Loop(d, [t] + rest, env, net) == Loop(s.disk, rest, env, net))
            && (s.raised.Some? && IsOSError(s.raised.value) ==>
                  var r := Loop(s.disk, rest, env, net);
                  Loop(d, [t] + rest, env, net) == RunResult(r.disk, [Warning(t, s.raised.value)] + r.warnings, r.raised))
            && (s.raised.Some? && !IsOSError(s.raised.value) ==>
                  Loop(d, [t] + rest, env, net) == RunResult(s.disk, [], s.raised))
  {
    var ts := [t] + rest;
    assert ts[0] == t && ts[1..] == rest;
  }

  /** Everything a loop reports comes from a collation: at most one warning
      per target, each carrying the error a collation of its target raised,
      and an exception that ends the loop is one some collation of one of
      the targets raised. */
  lemma {:induction false} LoopOutcomesFromCollations(d: Disk, ts: seq<Target>, env: map<string, string>, net: Network)
    ensures var r := Loop(d, ts, env, net);
            && |r.warnings| <= |ts|
            && (r.raised.Some? ==> exists i :: 0 <= i < |ts| && CollationRaises(ts[i], env, net, r.raised.value))
            && (forall j :: 0 <= j < |r.warnings| ==> CollationRaises(r.warnings[j].target, env, net, r.warnings[j].error))
    decreases |ts|
  {
    if ts != [] {
      var s := Collate(d, ts[0], None, env, net);
      if s.raised.Some? {
        assert Collate(d, ts[0], None, env, net).raised == Some(s.raised.value);
      }
      if s.raised.None? || IsOSError(s.raised.value) {
        LoopOutcomesFromCollations(s.disk, ts[1..], env, net);
        var here := if s.raised.Some? then [Warning(ts[0], s.raised.value)] else [];
        OutcomesCombine(ts, env, net, s.raised, here, Loop(s.disk, ts[1..], env, net));
      }
    }
  }

  /** The step of `LoopOutcomesFromCollations`: the first collation's
      warning, if any, put before the warnings of the rest of the loop. */
  lemma OutcomesCombine(ts: seq<Target>, env: map<string, string>, net: Network,
                        first: Option<Exception>, here: seq<Warning>, rest: RunResult)
    requires |ts| > 0
    requires first.Some? ==> CollationRaises(ts[0], env, net, first.value) && here == [Warning(ts[0], first.value)]
    requires first.None? ==> here == []
    requires |rest.warnings| <= |ts[1..]|
    requires rest.raised.Some? ==> exists i :: 0 <= i < |ts[1..]| && CollationRaises(ts[1..][i], env, net, rest.raised.value)
    requires forall j :: 0 <= j < |rest.warnings| ==> CollationRaises(rest.warnings[j].target, env, net, rest.warnings[j].error)
    ensures var ws := here + rest.warnings;
            && |ws| <= |ts|
            && (rest.raised.Some? ==> exists i :: 0 <= i < |ts| && CollationRaises(ts[i], env, net, rest.raised.value))
            && (forall j :: 0 <= j < |ws| ==> CollationRaises(ws[j].target, env, net, ws[j].error))
  {
    var ws := here + rest.warnings;
    if rest.raised.Some? {
      var i :| 0 <= i < |ts[1..]| && CollationRaises(ts[1..][i], env, net, rest.raised.value);
      assert ts[i + 1] == ts[1..][i];
    }
    forall j | 0 <= j < |ws|
      ensures CollationRaises(ws[j].target, env, net, ws[j].error)
    {
      if j >= |here| {
        assert ws[j] == rest.warnings[j - |here|];
      }
    }
  }

  /** A target that is new and whose archive unpacks to no top-level
      directory ends the loop with `IndexError`, before any warning. */
  lemma IndexErrorEndsLoop(d: Disk, t: Target, rest: seq<Target>, env: map<string, string>, net: Network)
    requires Fresh(d, t) && FetchesRootless(d, t, None, env, net)
    ensures Loop(d, [t] + rest, env, net).raised == Some(IndexError)
    ensures Loop(d, [t] + rest, env, net).warnings == []
  {
    CollateOutcome(d, t, None, env, net);
    LoopCatches(d, t, rest, env, net);
  }

  /** A new target whose archive is fetched and has a project root is
      collected without a warning, and the loop goes on from there. */
  lemma FetchedTargetIsCollected(d: Disk, t: Target, rest: seq<Target>, env: map<string, string>, net: Network)
    requires Fresh(d, t) && Fetches(t, None, env, net)
    ensures var s := Collate(d, t, None, env, net);
            && s.raised.None? && Materialized(s.disk, t)
            && Loop(d, [t] + rest, env, net) == Loop(s.disk, rest, env, net)
  {
    CollateOutcome(d, t, None, env, net);
    LoopCatches(d, t, rest, env, net);
  }

  /** A new target whose URL resolves but whose archive is not fetched, is
      not a zip archive, or cannot be listed is warned about with an
      `OSError`, and the loop goes on. */
  lemma FailedFetchIsWarned(d: Disk, t: Target, rest: seq<Target>, env: map<string, string>, net: Network)
    requires Fresh(d, t) && TarballUrl(t, None, env, net.api).Ok?
    requires !Fetches(t, None, env, net) && !FetchesRootless(d, t, None, env, net)
    ensures var s := Collate(d, t, None, env, net);
            && s.raised.Some? && IsOSError(s.raised.value)
            && var r := Loop(s.disk, rest, env, net);
               Loop(d, [t] + rest, env, net) == RunResult(r.disk, [Warning(t, s.raised.value)] + r.warnings, r.raised)
  {
    CollateOutcome(d, t, None, env, net);
    LoopCatches(d, t, rest, env, net);
  }

  /** Once a target's directories exist, collating any target, itself
      included, leaves the files directly in its container as they are:
      a container that exists is skipped, and a new container is never one
      of the directories a container lies in. */
  lemma CollateKeepsListing(e: Disk, t: Target, u: Target, token: Option<string>, env: map<string, string>, net: Network)
    requires Materialized(e, t)
    ensures Listing(Collate(e, u, token, env, net).disk, ContainerDir(t)) == Listing(e, ContainerDir(t))
  {
    var s := Collate(e, u, token, env, net);
    var c := ContainerDir(t);
    ContainerOutsideTmp(t);
    forall k | c + [k] in e.files || c + [k] in s.disk.files
      ensures c + [k] in e.files && c + [k] in s.disk.files && e.files[c + [k]] == s.disk.files[c + [k]]
    {
      var q := c + [k];
      assert q[0] == c[0];
      if Written(e, s.disk, q) {
        assert false;
      }
    }
    SameListing(s.disk, e, c);
  }

  /** Once a target's directories exist, the rest of the loop leaves the
      files directly in its container as they are. */
  lemma {:induction false} LoopKeepsListing(d: Disk, ts: seq<Target>, t: Target, env: map<string, string>, net: Network)
    requires Materialized(d, t)
    ensures Listing(Loop(d, ts, env, net).disk, ContainerDir(t)) == Listing(d, ContainerDir(t))
    decreases |ts|
  {
    if ts != [] {
      var s := Collate(d, ts[0], None, env, net);
      CollateKeepsListing(d, t, ts[0], None, env, net);
      if s.raised.None? || IsOSError(s.raised.value) {
        MaterializedPersists(d, s.disk, t);
        LoopKeepsListing(s.disk, ts[1..], t, env, net);
        assert Loop(d, ts, env, net).disk == Loop(s.disk, ts[1..], env, net).disk;
      }
    }
  }

  /** What a successful collation put in a target's container is what the
      loop leaves there. */
  lemma CollectedListingSurvivesLoop(d: Disk, t: Target, rest: seq<Target>, env: map<string, string>, net: Network)
    ensures var s := Collate(d, t, None, env, net);
            s.raised.None? ==> Listing(Loop(d, [t] + rest, env, net).disk, ContainerDir(t)) == Listing(s.disk, ContainerDir(t))
  {
    var s := Collate(d, t, None, env, net);
    if s.raised.None? {
      LoopCatches(d, t, rest, env, net);
      LoopKeepsListing(s.disk, rest, t, env, net);
    }
  }

  /** A loop over `a + b` whose part over `a` raised nothing goes on over `b`
      from the disk `a` left. */
  lemma {:induction false} LoopSplits(d: Disk, a: seq<Target>, b: seq<Target>, env: map<string, string>, net: Network)
    ensures Loop(d, a, env, net).raised.None? ==>
              Loop(d, a + b, env, net).disk == Loop(Loop(d, a, env, net).disk, b, env, net).disk
    decreases |a|
  {
    Strings.AppendHeadTail(a, b);
    if a != [] {
      var s := Collate(d, a[0], None, env, net);
      if s.raised.None? || IsOSError(s.raised.value) {
        LoopSplits(s.disk, a[1..], b, env, net);
      }
    }
  }

  /** The contract of `Loop` carries over from the first collation and the
      loop over the remaining targets. */
  lemma LoopStep(d: Disk, ts: seq<Target>, s: Step, rest: RunResult, here: seq<Warning>)
    requires |ts| > 0
    requires s.raised.None? ==> Materialized(s.disk, ts[0]) && Tmp in s.disk.dirs
    requires forall q :: q in d.dirs && !InScratch(q) ==> q in s.disk.dirs
    requires forall q :: q in s.disk.dirs && q !in d.dirs ==> Tmp <= q || MadeFor(ts[0], q)
    requires forall q :: Written(d, s.disk, q) ==>
               Tmp <= q || (ContainerDir(ts[0]) <= q && s.disk.files[q].SourceFile? && s.disk.files[q].origin == ts[0])
    requires s.raised.Some? ==> here == [Warning(ts[0], s.raised.value)] && IsOSError(s.raised.value)
    requires s.raised.None? ==> here == []
    requires forall j :: 0 <= j < |rest.warnings| ==> IsOSError(rest.warnings[j].error) && rest.warnings[j].target in ts[1..]
    requires rest.raised.None? ==> forall i :: 0 <= i < |ts[1..]| ==> Materialized(rest.disk, ts[1..][i]) || Warned(rest.warnings, ts[1..][i])
    requires forall q :: q in s.disk.dirs && !InScratch(q) ==> q in rest.disk.dirs
    requires forall q :: q in rest.disk.dirs && q !in s.disk.dirs ==> Tmp <= q || MadeForSome(ts[1..], q)
    requires forall q :: Written(s.disk, rest.disk, q) ==> Tmp <= q || CollectedForSome(ts[1..], rest.disk, q)
    requires forall q :: q in d.files && !(Tmp <= q) ==> q in s.disk.files
    requires forall q :: q in s.disk.files && !(Tmp <= q) ==> q in rest.disk.files
    ensures var r := RunResult(rest.disk, here + rest.warnings, rest.raised);
            && (forall j :: 0 <= j < |r.warnings| ==> IsOSError(r.warnings[j].error) && r.warnings[j].target in ts)
            && (r.raised.None? ==> forall i :: 0 <= i < |ts| ==> Materialized(r.disk, ts[i]) || Warned(r.warnings, ts[i]))
            && (r.raised.None? && r.warnings == [] ==> Tmp in r.disk.dirs)
            && (forall q :: q in d.dirs && !InScratch(q) ==> q in r.disk.dirs)
            && (forall q :: q in r.disk.dirs && q !in d.dirs ==> Tmp <= q || MadeForSome(ts, q))
            && (forall q :: Written(d, r.disk, q) ==> Tmp <= q || CollectedForSome(ts, r.disk, q))
            && (forall q :: q in d.files && !(Tmp <= q) ==> q in r.disk.files)
  {
    var ws := here + rest.warnings;
    assert !InScratch(Tmp);
    forall j | 0 <= j < |ws|
      ensures IsOSError(ws[j].error) && ws[j].target in ts
    {
      if j >= |here| {
        assert ws[j] == rest.warnings[j - |here|];
      }
    }
    if rest.raised.None? {
      forall i | 0 <= i < |ts|
        ensures Materialized(rest.disk, ts[i]) || Warned(ws, ts[i])
      {
        if i == 0 {
          if s.raised.None? {
            MaterializedPersists(s.disk, rest.disk, ts[0]);
          } else {
            assert ws[0].target == ts[0];
          }
        } else {
          assert ts[i] == ts[1..][i - 1];
          if Warned(rest.warnings, ts[i]) {
            var j :| 0 <= j < |rest.warnings| && rest.warnings[j].target == ts[i];
            assert ws[j + |here|] == rest.warnings[j];
          }
        }
      }
    }
    forall q | q in rest.disk.dirs && q !in d.dirs
      ensures Tmp <= q || MadeForSome(ts, q)
    {
      if q in s.disk.dirs {
        assert Tmp <= q || MadeFor(ts[0], q);
      } else if !(Tmp <= q) {
        var i :| 0 <= i < |ts[1..]| && MadeFor(ts[1..][i], q);
        assert ts[i + 1] == ts[1..][i];
      }
    }
    forall q | Written(d, rest.disk, q)
      ensures Tmp <= q || CollectedForSome(ts, rest.disk, q)
    {
      if Written(s.disk, rest.disk, q) {
        if !(Tmp <= q) {
          var i :| 0 <= i < |ts[1..]| && ContainerDir(ts[1..][i]) <= q && rest.disk.files[q].SourceFile? &&
                   rest.disk.files[q].origin == ts[1..][i];
          assert ts[i + 1] == ts[1..][i];
        }
      } else {
        assert Written(d, s.disk, q);
      }
    }
  }

  /** The directories of a materialized target lie outside the scratch area. */
  lemma MaterializedPersists(d: Disk, e: Disk, t: Target)
    requires Materialized(d, t)
    requires forall q :: q in d.dirs && !InScratch(q) ==> q in e.dirs
    ensures Materialized(e, t)
  {
    assert !InScratch(Repositories) && !InScratch(UserDir(t.user)) && !InScratch(ContainerDir(t));
  }

  /** `get_repo_list()` as `download_dataset` calls it: with its own defaults. */
  function Targets(catalog: Option<seq<Row>>): Result<seq<Target>> {
    GetRepoList(catalog, DefaultFilename, DefaultThreshold)
  }

  /** `download_dataset(name, star_count_threshold, access_token,
      start_from_scratch)`. `catalog` is the content of `repositories.csv`
      (`None` when it is missing); the catalog is read before anything is
      deleted. */
  function Run(d: Disk, catalog: Option<seq<Row>>, name: string, starCountThreshold: int,
               accessToken: Option<string>, startFromScratch: bool,
               env: map<string, string>, net: Network): (r: RunResult)
    ensures Targets(catalog).Raise? ==> r == RunResult(d, [], Some(Targets(catalog).exc))
    ensures r.raised.Some? && IsOSError(r.raised.value) ==> Targets(catalog).Raise?
    ensures r.raised.None? ==> Tmp !in r.disk.dirs
    ensures r.raised.None? && r.warnings == [] && Targets(catalog).value != [] ==>
              forall q :: q in r.disk.dirs || q in r.disk.files ==> !(Tmp <= q)
    ensures r.raised.None? ==> forall i :: 0 <= i < |Targets(catalog).value| ==>
              Materialized(r.disk, Targets(catalog).value[i]) || Warned(r.warnings, Targets(catalog).value[i])
    ensures forall j :: 0 <= j < |r.warnings| ==> IsOSError(r.warnings[j].error)
    ensures forall q :: q in d.dirs && !InScratch(q) && !(Tmp <= q) && !(startFromScratch && Repositories <= q) ==>
              q in r.disk.dirs
    ensures forall q :: q in d.files && !(Tmp <= q) && !(startFromScratch && Repositories <= q) ==>
              q in r.disk.files && (r.disk.files[q] == d.files[q] || Repositories <= q)
  {
    match Targets(catalog)
    case Raise(e) => RunResult(d, [], Some(e))
    case Ok(ts) =>
      var wiped := Wiped(d, startFromScratch);
      var r := Loop(wiped, ts, env, net);
      LoopKeepsOutsideTmp(wiped, ts, env, net);
      if r.raised.None? && Tmp in r.disk.dirs then
        CleanupKeepsTargets(r.disk, ts, r.warnings);
        KeptThroughRun(d, startFromScratch, r.disk, RemoveTree(r.disk, Tmp));
        r.(disk := RemoveTree(r.disk, Tmp))
      else
        KeptThroughRun(d, startFromScratch, r.disk, r.disk);
        r
  }

  /** A loop keeps every file outside `tmp`; one whose content changes lies
      under `repositories`. */
  lemma LoopKeepsOutsideTmp(e: Disk, ts: seq<Target>, env: map<string, string>, net: Network)
    ensures var l := Loop(e, ts, env, net);
            forall q :: q in e.files && !(Tmp <= q) ==> q in l.disk.files && (l.disk.files[q] == e.files[q] || Repositories <= q)
  {
    var l := Loop(e, ts, env, net);
    forall q | q in e.files && !(Tmp <= q) && l.disk.files[q] != e.files[q]
      ensures Repositories <= q
    {
      assert Written(e, l.disk, q);
      var i :| 0 <= i < |ts| && ContainerDir(ts[i]) <= q && l.disk.files[q].SourceFile? && l.disk.files[q].origin == ts[i];
      ContainerOutsideTmp(ts[i]);
    }
  }

  /** The wipe, the loop and the removal of `tmp` together keep every path
      outside `tmp` and, with a fresh start, outside `repositories`. */
  lemma KeptThroughRun(d: Disk, startFromScratch: bool, l: Disk, cleaned: Disk)
    requires forall q :: q in Wiped(d, startFromScratch).dirs && !InScratch(q) ==> q in l.dirs
    requires forall q :: q in Wiped(d, startFromScratch).files && !(Tmp <= q) ==>
               q in l.files && (l.files[q] == Wiped(d, startFromScratch).files[q] || Repositories <= q)
    requires cleaned == l || cleaned == RemoveTree(l, Tmp)
    ensures forall q :: q in d.dirs && !InScratch(q) && !(Tmp <= q) && !(startFromScratch && Repositories <= q) ==>
              q in cleaned.dirs
    ensures forall q :: q in d.files && !(Tmp <= q) && !(startFromScratch && Repositories <= q) ==>
              q in cleaned.files && (cleaned.files[q] == d.files[q] || Repositories <= q)
  {
  }

  /** What a run reports comes from the collations of the catalog's
      targets: at most one warning per target, each with the error a
      collation of its target raised; an exception other than the catalog's
      own was raised by a collation of one of the targets. */
  lemma RunOutcomesFromCollations(d: Disk, catalog: Option<seq<Row>>, name: string, starCountThreshold: int,
                                  accessToken: Option<string>, startFromScratch: bool,
                                  env: map<string, string>, net: Network)
    ensures var r := Run(d, catalog, name, starCountThreshold, accessToken, startFromScratch, env, net);
            Targets(catalog).Ok? ==>
              var ts := Targets(catalog).value;
              && |r.warnings| <= |ts|
              && (r.raised.Some? ==> exists i :: 0 <= i < |ts| && CollationRaises(ts[i], env, net, r.raised.value))
              && (forall j :: 0 <= j < |r.warnings| ==> CollationRaises(r.warnings[j].target, env, net, r.warnings[j].error))
  {
    if Targets(catalog).Ok? {
      RunReportsTheLoop(d, catalog, name, starCountThreshold, accessToken, startFromScratch, env, net);
      LoopOutcomesFromCollations(Wiped(d, startFromScratch), Targets(catalog).value, env, net);
    }
  }

  /** The warnings and the exception of a run are those of its loop; the
      cleanup of `tmp` after a loop that raised nothing changes only the
      disk. */
  lemma RunReportsTheLoop(d: Disk, catalog: Option<seq<Row>>, name: string, starCountThreshold: int,
                          accessToken: Option<string>, startFromScratch: bool,
                          env: map<string, string>, net: Network)
    requires Targets(catalog).Ok?
    ensures var r := Run(d, catalog, name, starCountThreshold, accessToken, startFromScratch, env, net);
            var l := Loop(Wiped(d, startFromScratch), Targets(catalog).value, env, net);
            && r.warnings == l.warnings && r.raised == l.raised
            && r.disk == if l.raised.None? && Tmp in l.disk.dirs then RemoveTree(l.disk, Tmp) else l.disk
  {
  }

  /** The disk the loop starts from: with `start_from_scratch`, the
      `repositories` tree is removed first. */
  function Wiped(d: Disk, startFromScratch: bool): (r: Disk)
    ensures !(startFromScratch && Repositories in d.dirs) ==> r == d
    ensures forall q :: q in r.dirs <==> q in d.dirs && !(startFromScratch && Repositories in d.dirs && Repositories <= q)
    ensures forall q :: q in r.files <==> q in d.files && !(startFromScratch && Repositories in d.dirs && Repositories <= q)
    ensures forall q :: q in r.files ==> r.files[q] == d.files[q]
  {
    if startFromScratch && Repositories in d.dirs then RemoveTree(d, Repositories) else d
  }

  /** A target collected during a run, after the targets before it raised
      nothing, keeps to the end of the run the files its collation put in
      its container. */
  lemma CollectedListingSurvivesRun(d: Disk, catalog: Option<seq<Row>>, name: string, starCountThreshold: int,
                                    accessToken: Option<string>, startFromScratch: bool,
                                    env: map<string, string>, net: Network, i: nat)
    requires Targets(catalog).Ok? && i < |Targets(catalog).value|
    ensures var ts := Targets(catalog).value;
            var before := Loop(Wiped(d, startFromScratch), ts[..i], env, net);
            var s := Collate(before.disk, ts[i], None, env, net);
            before.raised.None? && s.raised.None? ==>
              Listing(Run(d, catalog, name, starCountThreshold, accessToken, startFromScratch, env, net).disk, ContainerDir(ts[i]))
              == Listing(s.disk, ContainerDir(ts[i]))
  {
    var ts := Targets(catalog).value;
    var wiped := Wiped(d, startFromScratch);
    var before := Loop(wiped, ts[..i], env, net);
    var s := Collate(before.disk, ts[i], None, env, net);
    if before.raised.None? && s.raised.None? {
      Strings.SplitAround(ts, i);
      LoopSplits(wiped, ts[..i], [ts[i]] + ts[i + 1..], env, net);
      CollectedListingSurvivesLoop(before.disk, ts[i], ts[i + 1..], env, net);
      var l := Loop(wiped, ts, env, net);
      RunReportsTheLoop(d, catalog, name, starCountThreshold, accessToken, startFromScratch, env, net);
      ContainerOutsideTmp(ts[i]);
      CleanupKeepsListing(l.disk, ContainerDir(ts[i]));
    }
  }

  /** Removing `tmp` leaves the listing of a directory outside it alone. */
  lemma CleanupKeepsListing(l: Disk, dir: Path)
    requires |dir| > 0 && dir[0] != Tmp[0]
    ensures Listing(RemoveTree(l, Tmp), dir) == Listing(l, dir)
  {
    forall k ensures !(Tmp <= dir + [k]) {
      assert (dir + [k])[0] == dir[0];
    }
    SameListing(RemoveTree(l, Tmp), l, dir);
  }

  /** Removing `tmp` keeps every target's directories. */
  lemma CleanupKeepsTargets(d: Disk, ts: seq<Target>, ws: seq<Warning>)
    requires forall i :: 0 <= i < |ts| ==> Materialized(d, ts[i]) || Warned(ws, ts[i])
    ensures forall i :: 0 <= i < |ts| ==> Materialized(RemoveTree(d, Tmp), ts[i]) || Warned(ws, ts[i])
    ensures forall q :: q in d.dirs && !(Tmp <= q) ==> q in RemoveTree(d, Tmp).dirs
  {
    forall i | 0 <= i < |ts| && Materialized(d, ts[i])
      ensures Materialized(RemoveTree(d, Tmp), ts[i])
    {
      var t := ts[i];
      assert ContainerDir(t)[0] == UserDir(t.user)[0] == Repositories[0] != Tmp[0];
    }
  }

  /** The name, the threshold and the token given to `download_dataset` have
      no effect: the catalog is always read with its defaults and every target
      is collated with no token. */
  lemma RunIgnoresItsParameters(d: Disk, catalog: Option<seq<Row>>, startFromScratch: bool,
                                env: map<string, string>, net: Network,
                                name1: string, threshold1: int, token1: Option<string>,
                                name2: string, threshold2: int, token2: Option<string>)
    ensures Run(d, catalog, name1, threshold1, token1, startFromScratch, env, net) ==
            Run(d, catalog, name2, threshold2, token2, startFromScratch, env, net)
  {
  }

  /** With every target already in place and `tmp` present, the loop changes
      nothing and warns about nothing, whatever the network does. */
  lemma {:induction false} LoopOverMaterialized(d: Disk, ts: seq<Target>, env: map<string, string>, net: Network)
    requires forall i :: 0 <= i < |ts| ==> Materialized(d, ts[i])
    requires Tmp in d.dirs
    ensures Loop(d, ts, env, net) == RunResult(d, [], None)
    decreases |ts|
  {
    if ts != [] {
      assert Collate(d, ts[0], None, env, net) == Step(d, None);
      LoopOverMaterialized(d, ts[1..], env, net);
    }
  }

  /** A second run without a fresh start, after a run that collected every
      target cleanly, finds every container in place: it downloads nothing,
      warns about nothing and leaves the disk as it was. */
  lemma RerunChangesNothing(d: Disk, catalog: Option<seq<Row>>, startFromScratch: bool,
                            name1: string, threshold1: int, token1: Option<string>,
                            env1: map<string, string>, net1: Network,
                            name2: string, threshold2: int, token2: Option<string>,
                            env2: map<string, string>, net2: Network)
    requires var r1 := Run(d, catalog, name1, threshold1, token1, startFromScratch, env1, net1);
             r1.raised.None? && r1.warnings == []
    ensures var r1 := Run(d, catalog, name1, threshold1, token1, startFromScratch, env1, net1);
            Run(r1.disk, catalog, name2, threshold2, token2, false, env2, net2) == RunResult(r1.disk, [], None)
  {
    var r1 := Run(d, catalog, name1, threshold1, token1, startFromScratch, env1, net1);
    var ts := Targets(catalog).value;
    if ts != [] {
      assert forall i :: 0 <= i < |ts| ==> !Warned(r1.warnings, ts[i]);
      RerunOnReady(r1.disk, ts, env2, net2);
      RemoveAddedTree(r1.disk, Tmp);
    }
  }

  /** On a disk where every target is in place and nothing lies under `tmp`,
      the loop only creates `tmp`. */
  lemma RerunOnReady(e: Disk, ts: seq<Target>, env: map<string, string>, net: Network)
    requires ts != [] && forall i :: 0 <= i < |ts| ==> Materialized(e, ts[i])
    requires forall q :: q in e.dirs || q in e.files ==> !(Tmp <= q)
    ensures Loop(e, ts, env, net) == RunResult(e.(dirs := e.dirs + {Tmp}), [], None)
  {
    var again := e.(dirs := e.dirs + {Tmp});
    assert Collate(e, ts[0], None, env, net) == Step(again, None);
    LoopOverMaterialized(again, ts[1..], env, net);
  }

  /** After a run with a fresh start, whatever it raised, every directory and
      file under `repositories` belongs to a target of the catalog: the
      collections of earlier runs are gone. */
  lemma FreshRunForgetsOldRepositories(d: Disk, catalog: Option<seq<Row>>, name: string, threshold: int,
                                       token: Option<string>, env: map<string, string>, net: Network)
    requires Targets(catalog).Ok?
    requires WellFormed(d) && Repositories !in d.files
    ensures var r := Run(d, catalog, name, threshold, token, true, env, net);
            && (forall q :: q in r.disk.dirs && Repositories <= q ==> MadeForSome(Targets(catalog).value, q))
            && (forall q :: q in r.disk.files && Repositories <= q ==> CollectedForSome(Targets(catalog).value, r.disk, q))
  {
    var ts := Targets(catalog).value;
    var wiped := Wiped(d, true);
    WipedClearsRepositories(d);
    var looped := Loop(wiped, ts, env, net);
    LoopFillsClearedRepositories(wiped, ts, env, net);
    RunReportsTheLoop(d, catalog, name, threshold, token, true, env, net);
  }

  /** On a well-formed disk, a fresh start leaves nothing under `repositories`. */
  lemma WipedClearsRepositories(d: Disk)
    requires WellFormed(d) && Repositories !in d.files
    ensures forall q :: q in Wiped(d, true).dirs || q in Wiped(d, true).files ==> !(Repositories <= q)
  {
    var wiped := Wiped(d, true);
    forall q | (q in wiped.dirs || q in wiped.files) && Repositories <= q
      ensures false
    {
      if q != Repositories {
        AncestorIsDir(d, q, Repositories);
      }
    }
  }

  /** Removing `tmp` keeps what lies under `repositories` as it was. */
  lemma CleanupKeepsRepositories(l: Disk, ts: seq<Target>)
    requires forall q :: q in l.dirs && Repositories <= q ==> MadeForSome(ts, q)
    requires forall q :: q in l.files && Repositories <= q ==> CollectedForSome(ts, l, q)
    ensures var c := RemoveTree(l, Tmp);
            && (forall q :: q in c.dirs && Repositories <= q ==> MadeForSome(ts, q))
            && (forall q :: q in c.files && Repositories <= q ==> CollectedForSome(ts, c, q))
  {
    var c := RemoveTree(l, Tmp);
    forall q | q in c.files && Repositories <= q
      ensures CollectedForSome(ts, c, q)
    {
      assert CollectedForSome(ts, l, q);
      var i :| 0 <= i < |ts| && ContainerDir(ts[i]) <= q && l.files[q].SourceFile? && l.files[q].origin == ts[i];
      assert c.files[q] == l.files[q];
    }
  }

  /** A loop that starts with nothing under `repositories` leaves there only
      the directories of its targets and the files it collected for them,
      and so does the removal of `tmp` after it. */
  lemma LoopFillsClearedRepositories(e: Disk, ts: seq<Target>, env: map<string, string>, net: Network)
    requires forall q :: (q in e.dirs || q in e.files) ==> !(Repositories <= q)
    ensures var l := Loop(e, ts, env, net);
            && (forall q :: q in l.disk.dirs && Repositories <= q ==> MadeForSome(ts, q))
            && (forall q :: q in l.disk.files && Repositories <= q ==> CollectedForSome(ts, l.disk, q))
    ensures var c := RemoveTree(Loop(e, ts, env, net).disk, Tmp);
            && (forall q :: q in c.dirs && Repositories <= q ==> MadeForSome(ts, q))
            && (forall q :: q in c.files && Repositories <= q ==> CollectedForSome(ts, c, q))
  {
    var l := Loop(e, ts, env, net);
    LoopFillsRepositories(e, ts, env, net);
    CleanupKeepsRepositories(l.disk, ts);
  }

  lemma LoopFillsRepositories(e: Disk, ts: seq<Target>, env: map<string, string>, net: Network)
    requires forall q :: (q in e.dirs || q in e.files) ==> !(Repositories <= q)
    ensures var l := Loop(e, ts, env, net);
            && (forall q :: q in l.disk.dirs && Repositories <= q ==> MadeForSome(ts, q))
            && (forall q :: q in l.disk.files && Repositories <= q ==> CollectedForSome(ts, l.disk, q))
  {
    var l := Loop(e, ts, env, net);
    forall q | q in l.disk.dirs && Repositories <= q
      ensures MadeForSome(ts, q)
    {
      assert q[0] != Tmp[0];
    }
    forall q | q in l.disk.files && Repositories <= q
      ensures CollectedForSome(ts, l.disk, q)
    {
      assert q[0] != Tmp[0];
      assert Written(e, l.disk, q);
    }
  }
}
