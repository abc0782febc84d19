/** internal/dependency.go: a dependency of a project, which is a Go package,
    a container image or a git repository, and the image name it is built as. */
module Dependencies {
  import opened Errors
  import opened Text
  import opened Utils
  import opened GitRevisions
  import Images

  /** The handle of a git repository. Its declaration is not part of this
      model; the core reads its remote URL and writes the work branch and the
      remote head hash that `scanRemoteDeps` resolves. */
  class Git {
    const url: string
    var workBranch: string
    var remoteHash: string

    constructor (url: string)
      ensures this.url == url && workBranch == "" && remoteHash == ""
    {
      this.url := url;
      workBranch := "";
      remoteHash := "";
    }
  }

  /** `Dependency`: `git` is `null` for a package or an image dependency. */
  datatype Dependency = Dependency(clone: bool, git: Git?, image: string, pull: bool, package: string)

  /** A dependency that is neither a package nor an image carries a git handle;
      Go dereferences `Git` in that case. */
  predicate WellFormed(dep: Dependency) {
    dep.package == "" && dep.image == "" ==> dep.git != null
  }

  /** `Dependency.String`: the package, else the image, else the git URL. */
  function String(dep: Dependency): (s: string)
    requires WellFormed(dep)
    ensures dep.package != "" ==> s == dep.package
    ensures dep.package == "" && dep.image != "" ==> s == dep.image
    ensures dep.package == "" && dep.image == "" ==> s == dep.git.url
  {
    if dep.package != "" then dep.package
    else if dep.image != "" then dep.image
    else dep.git.url
  }

  /** `Dependency.GetImageName`. `headRevision(url)` stands for
      `GetHeadRevision` on the clone of `url`, and `urlPath` for the URL parser
      `LastDir` relies on. The Go error messages wrap the underlying error; the
      model returns that error. */
  function GetImageName(dep: Dependency, imageRegistry: string,
                        headRevision: string -> Result<GitRevision>,
                        urlPath: string -> Result<string>): (r: Result<string>)
    requires dep.image == "" ==> dep.git != null
    requires dep.image == "" && headRevision(dep.git.url).Ok? ==> Describable(headRevision(dep.git.url).value)
    ensures dep.image != "" ==> r == Ok(dep.image)
    ensures dep.image == "" && headRevision(dep.git.url).Err? ==> r == Err(headRevision(dep.git.url).error)
    ensures dep.image == "" && headRevision(dep.git.url).Ok? && LastDir(dep.git.url, urlPath).Err? ==>
      r == Err(LastDir(dep.git.url, urlPath).error)
    ensures r.Err? <==> dep.image == "" && (headRevision(dep.git.url).Err? || LastDir(dep.git.url, urlPath).Err?)
    ensures r.Ok? && dep.image == "" ==>
      && HasPrefix(r.value, imageRegistry + "/")
      && r.value[|imageRegistry| + 1..] ==
           LastDir(dep.git.url, urlPath).value + ":" + GetVersion(headRevision(dep.git.url).value)
  {
    if dep.image != "" then Ok(dep.image)
    else
      var rev :- headRevision(dep.git.url);
      var depName :- LastDir(dep.git.url, urlPath);
      var reference := depName + ":" + GetVersion(rev);
      RegistryPrefix(imageRegistry, reference);
      Ok(imageRegistry + "/" + reference)
  }

  /** `registry/rest` starts with `registry/`, followed by `rest`. */
  lemma RegistryPrefix(registry: string, rest: string)
    ensures HasPrefix(registry + "/" + rest, registry + "/")
    ensures (registry + "/" + rest)[|registry| + 1..] == rest
  {
    assert (registry + "/" + rest)[..|registry| + 1] == registry + "/";
  }

  /** A git dependency whose repository name has no upper-case letter gets the
      URL of the image named after it in the registry, tagged with its head
      version. */
  lemma GetImageNameIsImageUrl(dep: Dependency, imageRegistry: string,
                               headRevision: string -> Result<GitRevision>,
                               urlPath: string -> Result<string>)
    requires dep.image == "" && dep.git != null
    requires headRevision(dep.git.url).Ok? && Describable(headRevision(dep.git.url).value)
    requires LastDir(dep.git.url, urlPath).Ok?
    requires forall k :: 0 <= k < |LastDir(dep.git.url, urlPath).value| ==>
      !IsAsciiUpper(LastDir(dep.git.url, urlPath).value[k])
    ensures GetImageName(dep, imageRegistry, headRevision, urlPath) ==
      Ok(Images.Url(Images.Image(false, imageRegistry, LastDir(dep.git.url, urlPath).value,
                                 GetVersion(headRevision(dep.git.url).value), "")))
  {
    var name := LastDir(dep.git.url, urlPath).value;
    var version := GetVersion(headRevision(dep.git.url).value);
    assert ToLower(name) == name;
    Images.UrlParts(Images.Image(false, imageRegistry, name, version, ""));
    assert GetImageName(dep, imageRegistry, headRevision, urlPath) == Ok(imageRegistry + "/" + (name + ":" + version));
  }
}
