/**
 The GitHub side of the downloader as string templates: the repository API
 URL, the archive URL of a branch, the `Authorization` header, and the
 resolution of the archive URL from the API's reply.

 The HTTP exchange itself is a parameter: `api` maps the requested URL and
 the header sent to the reply the server gives (or to `ApiDown` when the
 request raises); JSON decoding is abstracted to the optional
 `default_branch` field of the reply.
 */
module GitHub {

  import opened Exceptions
  import opened Strings
  import opened Catalog

  const ApiBaseUrl := "https://api.github.com"
  const RepoInfoPrefix := "/repos/"
  const ArchiveHost := "https://github.com/"
  const ArchiveSuffix := ".zip"
  const TokenVariable := "GITHUB_ACCESS_TOKEN"
  const MissingTokenMessage := "ERROR - \"GITHUB_ACCESS_TOKEN\" variable not found!"

  /** `API_BASE_URL + REPO_INFO_API.format(user, name)`. */
  function ApiUrl(t: Target): string {
    ApiBaseUrl + RepoInfoPrefix + t.user + "/" + t.name
  }

  /** Reads the target back out of a repository API URL. */
  function ParseApiUrl(url: string): Option<Target> {
    var prefix := ApiBaseUrl + RepoInfoPrefix;
    if StartsWith(url, prefix) then
      match SplitRepoName(url[|prefix|..])
      case Ok(t) => Some(t)
      case Raise(_) => None
    else None
  }

  /** The API URL names its repository unambiguously. */
  lemma ApiUrlRoundTrip(t: Target)
    requires '/' !in t.user && '/' !in t.name
    ensures ParseApiUrl(ApiUrl(t)) == Some(t)
  {
    var prefix := ApiBaseUrl + RepoInfoPrefix;
    var url := ApiUrl(t);
    assert url == prefix + FullName(t);
    assert url[..|prefix|] == prefix;
    assert url[|prefix|..] == FullName(t);
    SplitRepoNameInverse(t);
  }

  /** `REPO_ZIP_URL.format(user, name, default_branch)`. */
  function ZipUrl(t: Target, branch: string): string {
    ArchiveHost + ZipPath(t, branch) + ArchiveSuffix
  }

  /** The part of the archive URL between the host and `.zip`. */
  function ZipPath(t: Target, branch: string): string {
    t.user + "/" + t.name + "/archive/" + branch
  }

  /** Reads the target and the branch back out of an archive URL. The branch
      may itself hold `/`. */
  function ParseZipUrl(url: string): Option<(Target, string)> {
    if StartsWith(url, ArchiveHost) && |url| >= |ArchiveHost| + |ArchiveSuffix| && EndsWith(url, ArchiveSuffix) then
      ParseZipPath(url[|ArchiveHost|..|url| - |ArchiveSuffix|])
    else None
  }

  /** Reads the target and the branch back out of the path of an archive URL. */
  function ParseZipPath(path: string): Option<(Target, string)> {
    var parts := Split(path, '/');
    if |parts| >= 4 && parts[2] == "archive" then
      Some((Target(parts[0], parts[1]), Join(parts[3..], '/')))
    else None
  }

  /** Slicing a known prefix and suffix off a string leaves the middle. */
  lemma StripAffixes(prefix: string, middle: string, suffix: string)
    ensures var s := prefix + middle + suffix;
            StartsWith(s, prefix) && EndsWith(s, suffix) && |s| >= |prefix| + |suffix| &&
            s[|prefix|..|s| - |suffix|] == middle
  {
    var s := prefix + middle + suffix;
    assert s[..|prefix|] == prefix;
    assert s[|s| - |suffix|..] == suffix;
    assert s[|prefix|..|s| - |suffix|] == middle;
  }

  /** The owner, the name and `archive`, joined by `/`. */
  lemma ZipPathHead(t: Target)
    ensures Join([t.user, t.name, "archive"], '/') == t.user + "/" + t.name + "/archive"
  {
    var head := [t.user, t.name, "archive"];
    assert head[1..][1..] == ["archive"];
    assert Join(head[1..], '/') == t.name + "/" + "archive";
  }

  /** The path of an archive URL is the join of its pieces. */
  lemma ZipPathJoins(t: Target, branch: string)
    ensures Join([t.user, t.name, "archive"] + Split(branch, '/'), '/') == ZipPath(t, branch)
  {
    ZipPathHead(t);
    JoinAppend([t.user, t.name, "archive"], Split(branch, '/'), '/');
    assert "/archive" + "/" == "/archive/";
    assert (t.user + "/" + t.name + "/archive") + "/" + branch == t.user + "/" + t.name + "/archive/" + branch;
  }

  /** None of the pieces of an archive URL's path holds `/`. */
  lemma ZipPathPiecesPlain(t: Target, branch: string)
    requires '/' !in t.user && '/' !in t.name
    ensures var parts := [t.user, t.name, "archive"] + Split(branch, '/');
            forall i :: 0 <= i < |parts| ==> '/' !in parts[i]
  {
    var tail := Split(branch, '/');
    var parts := [t.user, t.name, "archive"] + tail;
    assert '/' !in "archive" by {
      forall j | 0 <= j < |"archive"|
        ensures "archive"[j] != '/'
      {
      }
    }
    forall i | 0 <= i < |parts|
      ensures '/' !in parts[i]
    {
      if i < 3 {
        assert parts[i] in [t.user, t.name, "archive"];
      } else {
        assert parts[i] == tail[i - 3];
      }
    }
  }

  /** The path of an archive URL, split at `/`: owner, name, `archive`, then
      the pieces of the branch. */
  lemma ZipPathSplits(t: Target, branch: string)
    requires '/' !in t.user && '/' !in t.name
    ensures Split(ZipPath(t, branch), '/') == [t.user, t.name, "archive"] + Split(branch, '/')
  {
    ZipPathJoins(t, branch);
    ZipPathPiecesPlain(t, branch);
    SplitJoin([t.user, t.name, "archive"] + Split(branch, '/'), '/');
  }

  /** The archive URL names its repository and branch unambiguously, whatever
      the branch name. */
  lemma ZipUrlRoundTrip(t: Target, branch: string)
    requires '/' !in t.user && '/' !in t.name
    ensures ParseZipUrl(ZipUrl(t, branch)) == Some((t, branch))
  {
    var url := ZipUrl(t, branch);
    StripAffixes(ArchiveHost, ZipPath(t, branch), ArchiveSuffix);
    assert url[|ArchiveHost|..|url| - |ArchiveSuffix|] == ZipPath(t, branch);
    ZipPathRoundTrip(t, branch);
  }

  /** The path of an archive URL reads back as its target and branch. */
  lemma ZipPathRoundTrip(t: Target, branch: string)
    requires '/' !in t.user && '/' !in t.name
    ensures ParseZipPath(ZipPath(t, branch)) == Some((t, branch))
  {
    ZipPathSplits(t, branch);
    var pieces := Split(branch, '/');
    var parts := [t.user, t.name, "archive"] + pieces;
    assert parts[0] == t.user && parts[1] == t.name && parts[2] == "archive";
    assert parts[3..] == pieces;
    assert Join(pieces, '/') == branch;
  }

  /** An HTTP header: `{key: value}`. */
  datatype Header = Header(key: string, value: string)

  /** The token an `Authorization` header carries. */
  function TokenOf(h: Header): Option<string> {
    if h.key == "Authorization" && StartsWith(h.value, "token ") then Some(h.value[6..]) else None
  }

  /** `get_header_for_auth(access_token)`: the argument token, or else the
      `GITHUB_ACCESS_TOKEN` environment variable, or else `EnvironmentError`.
      An empty token is still a token; only `None` falls back. */
  function AuthHeader(token: Option<string>, env: map<string, string>): (r: Result<Header>)
    ensures r.Raise? <==> token.None? && TokenVariable !in env
    ensures r.Raise? ==> r.exc == OSError(Plain, MissingTokenMessage)
    ensures token.Some? ==> r.Ok? && TokenOf(r.value) == token
    ensures token.None? && TokenVariable in env ==> r.Ok? && TokenOf(r.value) == Some(env[TokenVariable])
  {
    var chosen :- match token
      case Some(t) => Ok(t)
      case None =>
        if TokenVariable in env then Ok(env[TokenVariable]) else Raise(OSError(Plain, MissingTokenMessage));
    var value := "token " + chosen;
    assert value[..6] == "token " && value[6..] == chosen;
    Ok(Header("Authorization", value))
  }

  /** The reply to the repository API request. */
  datatype ApiReply =
    | ApiDown                                                           // the request raised
    | ApiReply(status: int, text: string, defaultBranch: Option<string>)

  /** The reply rejected the request: the API was reached and answered with
      the given body and a status other than 200. */
  predicate Rejected(t: Target, token: Option<string>, env: map<string, string>,
                     api: (string, Header) -> ApiReply, message: string)
  {
    var h := AuthHeader(token, env);
    h.Ok? && var reply := api(ApiUrl(t), h.value);
    reply.ApiReply? && reply.status != 200 && reply.text == message
  }

  /** The API answered 200 with a default branch, and the URL is the archive
      URL of that branch of the target. */
  predicate Resolved(t: Target, token: Option<string>, env: map<string, string>,
                     api: (string, Header) -> ApiReply, url: string)
  {
    var h := AuthHeader(token, env);
    h.Ok? && var reply := api(ApiUrl(t), h.value);
    reply.ApiReply? && reply.status == 200 && reply.defaultBranch.Some? &&
    ParseZipUrl(url) == Some((t, reply.defaultBranch.value))
  }

  /** `get_latest_release_tarball_url(user, name, access_token)`. */
  function TarballUrl(t: Target, token: Option<string>, env: map<string, string>,
                      api: (string, Header) -> ApiReply): (r: Result<string>)
    ensures AuthHeader(token, env).Raise? ==> r == Raise(AuthHeader(token, env).exc)
    ensures r.Raise? && r.exc.AssertionError? ==> Rejected(t, token, env, api, r.exc.message)
    ensures forall m :: Rejected(t, token, env, api, m) ==> r == Raise(AssertionError(m))
    ensures r.Ok? && '/' !in t.user && '/' !in t.name ==> Resolved(t, token, env, api, r.value)
    ensures AuthHeader(token, env).Ok? ==>
              var reply := api(ApiUrl(t), AuthHeader(token, env).value);
              && (reply.ApiDown? ==> r == Raise(OSError(RequestFailed, "")))
              && (reply.ApiReply? && reply.status == 200 && reply.defaultBranch.None? ==>
                    r == Raise(KeyError("default_branch")))
              && (reply.ApiReply? && reply.status == 200 && reply.defaultBranch.Some? ==>
                    r == Ok(ZipUrl(t, reply.defaultBranch.value)))
  {
    var header :- AuthHeader(token, env);
    match api(ApiUrl(t), header)
    case ApiDown => Raise(OSError(RequestFailed, ""))
    case ApiReply(status, text, defaultBranch) =>
      if status != 200 then Raise(AssertionError(text))
      else match defaultBranch
        case None => Raise(KeyError("default_branch"))
        case Some(branch) =>
          assert '/' !in t.user && '/' !in t.name ==> ParseZipUrl(ZipUrl(t, branch)) == Some((t, branch)) by {
            if '/' !in t.user && '/' !in t.name {
              ZipUrlRoundTrip(t, branch);
            }
          }
          Ok(ZipUrl(t, branch))
  }
}
