# Python-source dataset downloader, modelled in Dafny

`download_dataset.py` builds a corpus of Python source files from popular
GitHub repositories. It reads a catalog (`repositories.csv`: a header row,
then `owner/repo,stars` rows sorted by stars) and keeps every repository
before the first one below the star threshold. For each kept repository it
asks the GitHub API for the default branch and downloads that branch as a zip
archive into `tmp/`. It unpacks the archive and walks the archive's first
top-level directory (the project root). Test directories are pruned. Every
`.py` file that the exclusion pattern does not reject is moved, by base name,
into `repositories/<owner>/<repo>/`. A repository whose directory already
exists is skipped, so a run can be resumed. An `OSError` during one
repository becomes a warning and the run goes on. Any other exception ends
the run.

The model is split into one module per concern:

| module | file | models |
|---|---|---|
| `Exceptions` | exceptions.dfy | the Python exceptions that matter and a failure-propagating `Result` |
| `Strings` | strings.dfy | `startswith`, `endswith`, `str.split` / `str.join` on one character |
| `Catalog` | catalog.dfy | `get_repo_list`: header skip, prefix scan, `owner/repo` split |
| `NameFilter` | name_filter.dfy | `EXCLUDED_PATTERN` under `re.match`, and the test-directory prune |
| `SourceTree` | source_tree.dfy | the pruned `os.walk` of the project root, and flattening by base name |
| `Disk` | disk.dfy | the part of the file system the script touches: `mkdir`, `rmtree`, `listdir`, path building |
| `Extraction` | extraction.dfy | `extract_python_src_files` |
| `GitHub` | github.dfy | the URL templates, `get_header_for_auth`, `get_latest_release_tarball_url` |
| `Pipeline` | pipeline.dfy | `download_latest_release`, `collate_python_files`, `download_dataset` |

A disk is a set of directory paths and a map from file paths to contents.
A path is a list of components. Empty components are dropped, as
`os.path.join` and the file system do with `'repositories/' + '' + '/x'`.
Every operation that can fail returns the disk as it stands at the failure
together with the exception raised, so partial work stays visible. The
network is a parameter of the model: what the API answers for a URL and a
header, and what downloading an archive URL yields. The environment is a map
of variables. The catalog file is given by its parsed rows (`None` when it is
missing).

The model follows the code as written:

- The project root is the first top-level directory, even if there are several.
- An archive whose top level holds no directory raises `IndexError`. This is
  not an `OSError`, so it ends the whole run.
- An archive with no entries at all leaves no unpack directory behind (the
  zip unpacker only creates directories for the entries it writes), so
  listing it raises `FileNotFoundError`. That is an `OSError`: the
  repository is warned about and the run goes on.
- The owner or the repository name may be empty.
- A failed HTTP request raises a `requests` exception, which is an `OSError`.
  It is caught per repository.
- A non-200 API reply (`AssertionError`) or a reply without `default_branch`
  (`KeyError`) ends the run.
- `download_dataset` ignores its `name` and `star_count_threshold`
  parameters: the catalog is always read with the defaults.
- Every repository is collated with no access token, whatever token was
  given.

## Model

| member | source | states |
|---|---|---|
| `Strings.Split` | download_dataset.py:68 | `str.split` on one separator: one more part than there are separators, no part holds the separator, and joining the parts gives the string back |
| `Strings.SplitJoin` | download_dataset.py:68 | splitting the join of separator-free parts gives exactly those parts back |
| `Catalog.SplitRepoName` | download_dataset.py:68 | the `owner/repo` unpacking succeeds exactly when the name holds one `/`; the two parts are then `/`-free and rebuild the name; otherwise `ValueError` |
| `Catalog.SplitRepoNameInverse` | download_dataset.py:68-69 | a target whose parts hold no `/` is recovered from its full name |
| `Catalog.ScanRowsSpec` | download_dataset.py:66-74 | the scan returns the accepted rows before the first row below the threshold, each split from its row's name; when it raises, it raises `ValueError` at a malformed row or a qualifying row that does not name `owner/repo`, and only accepted rows come before that row |
| `Catalog.GetRepoList` | download_dataset.py:47-76 | a missing catalog raises `FileNotFoundError("\"<filename>\" does not exist.")`; an empty file raises `StopIteration` from skipping the header; otherwise the result is the accepted rows after the header up to the first row below the threshold (or the end), or `ValueError` at a failing row that only accepted rows precede |
| `Catalog.ScanStopsAtFirstLowRow` | download_dataset.py:70-74 | rows after the first row below the threshold never change the result, even rows that would qualify |
| `Catalog.SortedScanReturnsAllQualifying` | download_dataset.py:70-74 | on a catalog sorted by stars with well-formed names, the scan returns exactly the repositories reaching the threshold, in order |
| `NameFilter.AnyThenPyMatchesRegex` | download_dataset.py:15 | the matcher for `.*\.py` accepts a string exactly when `.py` occurs in it with no newline before it |
| `NameFilter.ExcludedMatchIsPattern` | download_dataset.py:15 | `re.match` of the exclusion pattern holds exactly for names starting with `__init__.py`, or with `test_`, at least one non-newline character, then `.py` |
| `NameFilter.TestModulesExcluded` | download_dataset.py:180 | every one-line name `test_<x>.py` with a non-empty `<x>` is never moved |
| `NameFilter.FilterEdgeCases` | download_dataset.py:176-180 | `test_.py`, `test.py`, `conftest.py` and a name with a newline after `test_` are kept; `__init__.py` and `__init__.py.py` are not; `tests` and `testing` are pruned, `pytest` is not |
| `SourceTree.WalkReachesUnprunedFiles` | download_dataset.py:173-177 | the walk reaches a file exactly when the file is in the tree and no directory on its path starts with `test` |
| `SourceTree.Flatten` | download_dataset.py:179-183 | after the moves, a base name is present exactly when some walked file of that name passes the filter, and it holds the last such file the walk reached |
| `SourceTree.FlattenedWalk` | download_dataset.py:172-183 | a base name ends up in the destination exactly when some unpruned file of the tree has it and passes the filter, and it holds such a file |
| `Disk.MakeDir` | download_dataset.py:81-82 | `os.mkdir` succeeds exactly when the path is not a file and its parent exists, and then adds only that directory; on failure it raises an `OSError` and changes nothing |
| `Disk.EnsureDir` | download_dataset.py:86-87 | it succeeds exactly when the path is a directory already or `os.mkdir` can create it, and then only that directory is added; otherwise an `OSError` with the disk unchanged; an existing directory is left alone |
| `Disk.RemoveTree` | download_dataset.py:187 | `shutil.rmtree` removes exactly the path and everything below it and keeps every other file's content |
| `Disk.ScratchNamesCollide` | download_dataset.py:99-100 | `a_b/c` and `a/b_c` share their archive path and their unpack directory |
| `Disk.EmptyPartsAlias` | download_dataset.py:94 | a repository with an empty name has its owner's directory as its container, and one with an empty owner shares the owner directory of its name |
| `Extraction.ProjectRoot` | download_dataset.py:169-170 | the root is the first directory among the top-level entries, and there is none exactly when no entry is a directory |
| `Extraction.Place` | download_dataset.py:179-183 | every kept base name becomes a file of the container holding its source file; no other file changes and no directory is added |
| `Extraction.Extract` | download_dataset.py:153-187 | a path that is not a `.zip` file fails the assertion with the disk unchanged; on success the archive is deleted, the container and the unpack directory exist and nothing of the project root remains; after `IndexError` the archive and the container are still there; only `OSError`, that assertion and `IndexError` are raised; no directory outside the scratch area is lost; every file outside `tmp` other than the archive is still there; only source files of this repository strictly inside its container are written |
| `Extraction.ExtractOutcome` | download_dataset.py:158-170 | a `.zip` file that is not a zip archive raises `shutil.ReadError` (an `OSError`) with the disk unchanged; extraction succeeds exactly when the path is a zip archive with a project root and the container exists or can be made; it raises `IndexError` exactly when the archive is listed (it has entries, or its unpack directory existed), the container can be made, and no top-level entry is a directory; an empty archive with no unpack directory raises `FileNotFoundError` |
| `Extraction.Unpack` | download_dataset.py:159-160 | unpacking writes no file, keeps every directory, adds directories only under the unpack directory, and creates the unpack directory exactly when the archive has an entry (or it existed) |
| `Extraction.ExtractZip` | download_dataset.py:158-170 | on a zip archive, extraction succeeds exactly when there is a project root and the container can be made; an empty archive without an unpack directory raises `FileNotFoundError`; `IndexError` is raised exactly when the unpack directory is listed, the container can be made and no entry is a directory; only `OSError` and `IndexError` are raised; every file outside `tmp` other than the archive is still there, and only source files of this repository strictly inside its container are written |
| `Extraction.Collect` | download_dataset.py:172-187 | after the moves and deletions the archive is gone, no directory of the project root remains, the container and unpack directory remain, only source files of this target strictly inside the container are written, and every other file outside the project root except the archive is still there |
| `Extraction.ExtractPlacesKeptFiles` | download_dataset.py:159-187 | on an empty container, a successful extraction leaves exactly the base names of the kept, unpruned `.py` files below the project root, each holding the last file of that name the walk reached |
| `GitHub.ApiUrlRoundTrip` | download_dataset.py:118-119 | the repository API URL names its owner and repository unambiguously |
| `GitHub.ZipUrlRoundTrip` | download_dataset.py:131 | the archive URL names its owner, repository and branch unambiguously, even for a branch holding `/` |
| `GitHub.AuthHeader` | download_dataset.py:190-199 | the header carries the given token, else `GITHUB_ACCESS_TOKEN`; `EnvironmentError` with the exact message exactly when neither exists |
| `GitHub.TarballUrl` | download_dataset.py:118-131 | an authentication error propagates; a failed request raises an `OSError`; a non-200 reply raises `AssertionError` with the reply's text, and only then; a 200 reply without `default_branch` raises `KeyError`; a 200 reply naming branch `b` gives the archive URL of `b`, which parses back to the target and `b` |
| `Pipeline.Download` | download_dataset.py:134-150 | the archive is written to the path exactly when the URL resolves, the download answers and the path can be opened; nothing else changes; an error resolving the URL is raised as is, and once the URL resolves only an `OSError` can follow; an `AssertionError` comes only from a rejected API request |
| `Pipeline.Collate` | download_dataset.py:79-102 | a repository whose directories exist is skipped (only `tmp` may be made) and writes no file; on success its directories and `tmp` exist; directories outside the scratch area survive; only its directories and directories under `tmp` are created; only files strictly inside its container, or under `tmp`, are written, and every file outside `tmp` is still there; only `OSError`, `AssertionError` from a rejected API request, `KeyError('default_branch')` and `IndexError` are raised |
| `Pipeline.CollateOutcome` | download_dataset.py:79-102 | for a new repository with a non-empty name whose paths are not blocked: it is collected exactly when the API resolves its archive URL and the download is a zip archive with a project root; an error resolving the URL (a missing token among them) is raised as is; `IndexError` is raised exactly when the downloaded zip archive is listed but holds no top-level directory; once the URL resolves, every other failure is an `OSError` |
| `Pipeline.Prepare` | download_dataset.py:80-91 | `repositories`, the owner's directory and `tmp` exist afterwards unless an `OSError` is raised, and none of them fails when none is blocked by a file; no file changes and no other directory is made |
| `Pipeline.Fetch` | download_dataset.py:98-102 | on success the container exists; directories outside the scratch area survive; only the container and directories under `tmp` are created; only source files of this repository in the container, or files under `tmp`, are written; every file outside `tmp` is still there; only `OSError`, `AssertionError`, `KeyError('default_branch')` and `IndexError` are raised, and an `AssertionError` comes only from a rejected API request |
| `Pipeline.FetchOutcome` | download_dataset.py:98-102 | an error resolving the URL is raised with the disk unchanged; once the URL resolves only `OSError` or `IndexError` can follow; with a free archive path and a container that can be made, the fetch succeeds exactly when the download is a zip archive with a project root, and raises `IndexError` exactly when the listed archive holds no top-level directory |
| `Pipeline.ExtractDownloaded` | download_dataset.py:101-102 | the extraction of the saved archive raises only `OSError` or `IndexError`; on success the container exists; only source files of this repository strictly inside the container are written, and every file outside `tmp` is still there |
| `Pipeline.CollateCollectsSources` | download_dataset.py:93-102 | a collation of a new repository that succeeds (when it does is stated by `Pipeline.CollateOutcome`) fills its container with exactly the kept `.py` files of the downloaded default-branch archive, each base name holding the last such file the walk reached |
| `Pipeline.MissingTokenIsWarned` | download_dataset.py:31-40 | without `GITHUB_ACCESS_TOKEN`, a new repository fails with the header's `EnvironmentError`, which the loop turns into a warning and goes on |
| `Pipeline.Loop` | download_dataset.py:31-40 | every warning is an `OSError` naming a catalog target; an exception that ends the loop is never an `OSError`; when none ends it, every target is in place or warned about; directories outside the scratch area and files outside `tmp` survive, and outside `tmp` only targets' directories and collected files appear |
| `Pipeline.CollateKeepsListing` | download_dataset.py:93-96 | once a repository's directories exist, collating any repository leaves the files directly in its container unchanged |
| `Pipeline.LoopKeepsListing` | download_dataset.py:31-40 | once a repository's directories exist, the loop leaves the files directly in its container unchanged |
| `Pipeline.CollectedListingSurvivesLoop` | download_dataset.py:31-40 | what a successful collation of a repository put in its container is what the loop over it and the remaining repositories leaves there |
| `Pipeline.LoopSplits` | download_dataset.py:31-40 | a loop over two runs of repositories, the first of which ends normally, goes on over the second from the disk the first left |
| `Pipeline.LoopCatches` | download_dataset.py:31-40 | one iteration: a collation that succeeds goes on to the next target; an `OSError` is recorded as a warning about that target and the loop goes on; any other exception ends the loop at once, with no further warning |
| `Pipeline.LoopOutcomesFromCollations` | download_dataset.py:31-40 | there are at most as many warnings as targets; each warning carries an exception that a collation of its target raises; an exception that ends the loop is one a collation of some target raises |
| `Pipeline.IndexErrorEndsLoop` | download_dataset.py:31-40 | a new first target whose downloaded archive holds no top-level directory ends the loop with `IndexError` before any warning |
| `Pipeline.FetchedTargetIsCollected` | download_dataset.py:31-40 | a new first target whose archive is fetched and has a project root is collected without a warning, and the loop goes on from the disk it left |
| `Pipeline.FailedFetchIsWarned` | download_dataset.py:31-40 | a new first target whose URL resolves but whose archive cannot be fetched or extracted (and is not rootless) is warned about with an `OSError`, and the loop goes on |
| `Pipeline.Run` | download_dataset.py:18-44 | a catalog error ends the run before anything is deleted; an `OSError` escapes only from the catalog; a run that ends normally removes `tmp` and leaves every target in place or warned about, and after a run over a non-empty catalog with no warning nothing lies under `tmp`; every warning is an `OSError`; no directory outside the scratch area and `tmp` is lost and no file outside `tmp` is lost or changed, except what lies under `repositories` when a fresh start removes it; only a file under `repositories` may have new content |
| `Pipeline.Wiped` | download_dataset.py:27-29 | with a fresh start and an existing `repositories` directory, exactly that directory and everything below it are removed and every other file keeps its content; otherwise the disk is left as it is |
| `Pipeline.CollectedListingSurvivesRun` | download_dataset.py:28-44 | a repository collected during a run, after the repositories before it ended normally, keeps to the end of the run, past the removal of `tmp`, exactly the files its collation put in its container |
| `Pipeline.RunReportsTheLoop` | download_dataset.py:28-44 | the warnings and the exception of a run are those of its loop over the catalog's targets; `tmp` is removed only after a loop that raised nothing |
| `Pipeline.RunOutcomesFromCollations` | download_dataset.py:18-44 | with a readable catalog, a run has at most one warning per target, each carrying an exception a collation of its target raises, and an exception that ends it is one a collation of a catalog target raises |
| `Pipeline.RunIgnoresItsParameters` | download_dataset.py:24-36 | the name, the threshold and the access token given to the run have no effect on it |
| `Pipeline.LoopOverMaterialized` | download_dataset.py:89-96 | when every target is in place and `tmp` exists, the loop changes nothing and warns about nothing, whatever the network does |
| `Pipeline.RerunChangesNothing` | download_dataset.py:28-44 | a second run without a fresh start after a clean run downloads nothing, warns about nothing and leaves the disk as it was |
| `Pipeline.FreshRunForgetsOldRepositories` | download_dataset.py:27-29 | after a fresh-start run, every directory and file under `repositories` belongs to a target of the current catalog |

## Left out

- HTTP, JSON decoding and streaming are not modelled. The network is a
  parameter that answers each request. A JSON decoding error and a partly
  written archive after a broken stream are not modelled.
- `shutil.unpack_archive` is modelled by the archive's tree. Only the unpack
  directory and its top-level directories are recorded on the disk. Files
  below them are read from the tree by the walk.
- The order of `os.listdir` and `os.walk` is the order of the archive's
  entries. The file system does not fix that order.
- A collision of two repositories' unpack directories within one run is not
  modelled: the listing is the current archive's top level. Leftovers from
  the earlier repository are not modelled.
- CSV tokenising, UTF-8 repair and `int()` parsing are not modelled. A row
  is a name with a star count, or `Malformed`, which raises `ValueError`
  when the scan reaches it.
- The `tqdm` progress bar, the `fire` command line and the printed text are
  not modelled. A warning is recorded as the repository and its exception.
- The other scripts of the repository (`encode.py`, `finetune.py`,
  `interact.py`) are not part of this model.
- Disk.MakeDir: the messages of operating-system errors are not modelled; they are the empty string.
- `.` and `..` path components, symbolic links and permissions are not
  modelled.
- A `shutil.move` onto an existing directory of the same name in the
  container is not modelled. Moves only ever overwrite files.
- Extraction.Extract: the test directories that the walk deletes with
  `rmtree` are only pruned from the walk, since files below the project
  root are not recorded on the disk. The whole project root is deleted
  afterwards.
- Pipeline.FreshRunForgetsOldRepositories: holds for a well-formed disk on
  which `repositories`, if present, is a directory.
- Pipeline.CollateOutcome: when a collation succeeds, and when it raises
  `IndexError`, is stated only for a repository with a non-empty name whose
  paths are not blocked (no file where a directory is made, no directory at
  the archive's path). The other cases follow from the contracts of
  `Disk.EnsureDir`, `Pipeline.Download` and `Extraction.ExtractOutcome`.
- Pipeline.LoopOutcomesFromCollations: says which collation raised each
  reported exception, not on which disk it ran; the disk is the one the
  earlier targets left.
- Extraction.Unpack: an unpack directory blocked by a file, and archive
  entries that clash with existing paths, are not modelled.
- Pipeline.CollateCollectsSources: assumes a non-empty repository name and a
  container that does not exist yet and holds no files. A repository with an
  empty name has its owner's directory as its container, which already exists
  at the skip check.
