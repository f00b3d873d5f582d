/** The parsed package.json the plugin reads, and the repository helpers `getRepo` and
    `getActualUrl` of src/plugin.ts. Reading the file is not modelled: its contents are
    an input value. */
module PackageJson {
  import opened Wrappers
  import opened JsString
  import opened Record

  /** The `repository` field: absent, a plain string, or an object whose `url` is a
      string or missing. A `repository` of any other JSON value behaves like an object
      without `url`; a `url` that is present but not a string is not modelled. */
  datatype Repository = NoRepository | RepoString(text: string) | RepoObject(url: Option<string>)

  /** The fields of package.json the plugin reads: `userscriptMetadata` (absent or an
      object), the top-level fields copied by name, `repository` and `main`. */
  datatype Package = Package(
    userscriptMetadata: Option<Record>,
    fields: Record,
    repository: Repository,
    main: MetaValue)

  /** The repository URL before clean-up: the string itself, or the object's `url`. */
  function RepositoryUrl(repository: Repository): (r: Option<string>)
    ensures r.None? <==> repository.NoRepository? || repository == RepoObject(None)
  {
    match repository
    case NoRepository => None
    case RepoString(s) => Some(s)
    case RepoObject(u) => u
  }

  /** `url.replace(/(^git\+|\.git$)/g, "")`. The two alternatives cannot overlap (one
      ends in `+`, the other starts with `.`), so at most one leading `git+` and at most
      one trailing `.git` of what remains is removed. */
  function StripGit(url: string): (r: string)
    ensures var p := if StartsWith(url, "git+") then "git+" else "";
      url == p + r + (if EndsWith(url[|p|..], ".git") then ".git" else "")
  {
    var rest := if StartsWith(url, "git+") then url[4..] else url;
    if EndsWith(rest, ".git") then rest[..|rest| - 4] else rest
  }

  lemma StripGitRoundTrip(u: string)
    ensures StripGit("git+" + u + ".git") == u
  {
    var url := "git+" + u + ".git";
    assert StartsWith(url, "git+");
    assert url[4..] == u + ".git";
  }

  lemma StripGitClean(u: string)
    requires !StartsWith(u, "git+") && !EndsWith(u, ".git")
    ensures StripGit(u) == u
  {
  }

  /** `getRepo(packageJson)`: `null` when there is no repository URL, else the URL with
      `git+` and `.git` removed. */
  function GetRepo(pack: Package): (r: Option<string>)
    ensures r.None? <==> RepositoryUrl(pack.repository).None?
    ensures r.Some? ==> r.value == StripGit(RepositoryUrl(pack.repository).value)
  {
    match RepositoryUrl(pack.repository)
    case None => None
    case Some(url) => Some(StripGit(url))
  }

  /** JavaScript truthiness of `getRepo`'s result: `null` and `""` are falsy. */
  predicate RepoTruthy(repo: Option<string>) {
    repo.Some? && repo.value != ""
  }

  /** `getActualUrl(url, packageJson)`. */
  function GetActualUrl(url: string, pack: Package): (r: string)
    ensures StartsWith(url, "http") || !RepoTruthy(GetRepo(pack)) ==> r == url
    ensures !StartsWith(url, "http") && RepoTruthy(GetRepo(pack)) ==> r == GetRepo(pack).value + "/" + url
  {
    var repo := GetRepo(pack);
    if StartsWith(url, "http") || !RepoTruthy(repo) then url else repo.value + "/" + url
  }

  /** The reference is always the tail of the resolved URL. */
  lemma ActualUrlEndsWithReference(url: string, pack: Package)
    ensures EndsWith(GetActualUrl(url, pack), url)
  {
    var r := GetActualUrl(url, pack);
    if r != url {
      var prefix := GetRepo(pack).value + "/";
      assert r == prefix + url;
      assert r[|r| - |url|..] == url;
    }
  }

  /** With a repository URL that is itself absolute, resolving twice is resolving once. */
  lemma ActualUrlIdempotent(url: string, pack: Package)
    requires GetRepo(pack).Some? && StartsWith(GetRepo(pack).value, "http")
    ensures GetActualUrl(GetActualUrl(url, pack), pack) == GetActualUrl(url, pack)
  {
    var repo := GetRepo(pack).value;
    var r := GetActualUrl(url, pack);
    if r != url {
      assert r == repo + "/" + url;
      assert r[..4] == repo[..4];
    }
  }
}
