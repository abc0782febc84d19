/** internal/project.go: a project is the main git repository together with its
    source directories, its image and its selected dependencies. This module
    models how a project is built from its configuration, how the work branch
    of every git dependency is resolved against its remote, and how the name,
    tag and registry of the project image are chosen. */
module Projects {
  import opened Errors
  import opened FilePaths
  import opened Labels
  import opened GitRevisions
  import opened Dependencies
  import opened Images
  import GitGraph = Git
  import GitRepository

  type Hash = GitGraph.Hash

  /** One entry of the `dependencies` list of the configuration file. */
  datatype DepConfig = DepConfig(url: string, clone: bool, pull: bool, image: string, package: string, labels: LabelSet)

  /** The configuration file of the main repository (internal/config.go is not
      part of this model: reading it is an input of `NewCoreProject`). */
  datatype ProjConfig = ProjConfig(sourcePathes: seq<string>, registry: string, dependencies: seq<DepConfig>)

  /** The two results of `GetBranch` on the main repository: Go assigns the
      branch before it looks at the error. */
  datatype BranchLookup = BranchLookup(branch: string, failure: Option<Error>)

  /** What the remote of a dependency answers, by URL: `LsRemote` (an error or
      none), `HasBranch` (whether a branch exists there, and its head hash) and
      `MainBranch` (the default branch and its head hash). */
  datatype Remotes = Remotes(
    lsRemote: string -> Option<Error>,
    hasBranch: (string, string) -> Result<(bool, Hash)>,
    mainBranch: string -> Result<(string, Hash)>)

  /** What `GetImageName` reads from the main repository: `Head()`, the commit
      graph with its patches, the worktree root and its directory probe,
      `GetRevision(hash)`, `GetHeadRevision()` and `GetName()`. */
  datatype MainRepository = MainRepository(
    head: Result<Hash>,
    history: GitRepository.History,
    root: string,
    isDirectory: string -> Result<bool>,
    revisionOf: Hash -> Result<GitRevision>,
    headRevision: Result<GitRevision>,
    name: Result<string>)

  // ---------------------------------------------------------------------------
  // Source paths

  /** A source path the project accepts: relative and already clean. */
  predicate ValidSourcePath(p: string) {
    !IsAbs(p) && Clean(p) == p
  }

  /** The error `NewCoreProject` reports for a refused source path. */
  function SourcePathRefusal(p: string): Error {
    if IsAbs(p) then Config("source path " + p + " must be relative")
    else Config("source path " + p + " must be clean")
  }

  /** The refusal of the first refused source path, if any. */
  function SourcePathError(paths: seq<string>): (r: Option<Error>)
    ensures r.None? <==> forall i :: 0 <= i < |paths| ==> ValidSourcePath(paths[i])
    ensures r.Some? ==> exists i :: 0 <= i < |paths| && !ValidSourcePath(paths[i]) && r == Some(SourcePathRefusal(paths[i]))
  {
    if paths == [] then None
    else if !ValidSourcePath(paths[0]) then Some(SourcePathRefusal(paths[0]))
    else SourcePathError(paths[1..])
  }

  /** The loop of `NewCoreProject` over the configured source paths. */
  method ValidateSourcePathes(paths: seq<string>) returns (err: Option<Error>)
    ensures err == SourcePathError(paths)
  {
    var i := 0;
    while i < |paths|
      invariant 0 <= i <= |paths|
      invariant SourcePathError(paths) == SourcePathError(paths[i..])
    {
      var path := paths[i];
      assert paths[i..][1..] == paths[i + 1..];
      if IsAbs(path) {
        return Some(Config("source path " + path + " must be relative"));
      }
      if path != Clean(path) {
        return Some(Config("source path " + path + " must be clean"));
      }
      i := i + 1;
    }
    return None;
  }

  /** The paths are accepted exactly when every one is relative and clean; a
      refusal names the first path that is not, and says why. */
  lemma {:induction false} SourcePathErrorMeaning(paths: seq<string>)
    ensures SourcePathError(paths).None? <==> forall i :: 0 <= i < |paths| ==> ValidSourcePath(paths[i])
    ensures SourcePathError(paths).Some? ==>
      exists i :: 0 <= i < |paths| && FirstRefused(paths, i) && SourcePathError(paths) == Some(SourcePathRefusal(paths[i]))
  {
    if paths != [] {
      SourcePathErrorMeaning(paths[1..]);
      if ValidSourcePath(paths[0]) && SourcePathError(paths).Some? {
        var i :| 0 <= i < |paths[1..]| && FirstRefused(paths[1..], i)
          && SourcePathError(paths[1..]) == Some(SourcePathRefusal(paths[1..][i]));
        assert FirstRefused(paths, i + 1);
      } else if !ValidSourcePath(paths[0]) {
        assert FirstRefused(paths, 0);
      }
    }
  }

  /** `paths[i]` is refused and every path before it is accepted. */
  ghost predicate FirstRefused(paths: seq<string>, i: int)
    requires 0 <= i < |paths|
  {
    !ValidSourcePath(paths[i]) && forall j :: 0 <= j < i ==> ValidSourcePath(paths[j])
  }

  /** The clean form of any relative path is accepted. */
  lemma CleanedRelativePathAccepted(p: string)
    requires !IsAbs(p)
    ensures ValidSourcePath(Clean(p))
    ensures SourcePathError([Clean(p)]) == None
  {
    CleanKeepsRootedness(p);
    CleanIdempotent(p);
  }

  // ---------------------------------------------------------------------------
  // Dependencies

  /** The dependency `NewProject` builds from a configuration entry: a package
      if one is named, else an image if one is named, else a git repository
      carrying the URL and the clone and pull flags. */
  predicate Realizes(dep: Dependency, c: DepConfig) {
    if c.package != "" then dep == Dependency(false, null, "", false, c.package)
    else if c.image != "" then dep == Dependency(false, null, c.image, false, "")
    else (dep.git != null && dep.git.url == c.url && dep.clone == c.clone && dep.pull == c.pull &&
          dep.image == "" && dep.package == "")
  }

  predicate RealizesAll(deps: seq<Dependency>, cs: seq<DepConfig>) {
    |deps| == |cs| && forall i :: 0 <= i < |deps| ==> Realizes(deps[i], cs[i])
  }

  /** Every built dependency is of exactly one kind, and its printed form is the
      package, the image or the URL of its entry. */
  lemma RealizedDependencyKind(dep: Dependency, c: DepConfig)
    requires Realizes(dep, c)
    ensures dep.package != "" ==> dep.image == "" && dep.git == null
    ensures dep.image != "" ==> dep.package == "" && dep.git == null
    ensures dep.git != null ==> dep.package == "" && dep.image == ""
    ensures dep.package != "" || dep.image != "" || dep.git != null
    ensures WellFormed(dep)
    ensures Dependencies.String(dep) == if c.package != "" then c.package else if c.image != "" then c.image else c.url
  {
  }

  /** The entries whose labels the selector matches, in configuration order. */
  function Selected(cs: seq<DepConfig>, selector: Selector): (r: seq<DepConfig>)
    ensures |r| <= |cs|
    ensures forall i :: 0 <= i < |r| ==> selector.matches(r[i].labels)
  {
    if cs == [] then []
    else
      var last := cs[|cs| - 1];
      Selected(cs[..|cs| - 1], selector) + (if selector.matches(last.labels) then [last] else [])
  }

  /** `Selected` keeps exactly the matching entries. */
  lemma {:induction false} SelectedMeaning(cs: seq<DepConfig>, selector: Selector)
    ensures forall c :: c in Selected(cs, selector) <==> c in cs && selector.matches(c.labels)
    ensures |Selected(cs, selector)| <= |cs|
  {
    if cs != [] {
      var init := cs[..|cs| - 1];
      SelectedMeaning(init, selector);
      assert cs == init + [cs[|cs| - 1]];
    }
  }

  /** `Selected` keeps the configuration order. */
  lemma {:induction false} SelectedInOrder(cs: seq<DepConfig>, selector: Selector)
    ensures OrderedIn(Selected(cs, selector), cs)
  {
    if cs == [] {
      assert EmbedsAt([], cs, []);
    } else {
      var init := cs[..|cs| - 1];
      var last := cs[|cs| - 1];
      SelectedInOrder(init, selector);
      var f := Selected(init, selector);
      var pos :| EmbedsAt(f, init, pos);
      if selector.matches(last.labels) {
        assert EmbedsAt(f + [last], cs, pos + [|cs| - 1]);
      } else {
        assert Selected(cs, selector) == f + [] == f;
        assert EmbedsAt(f, cs, pos);
      }
    }
  }

  /** `sub` is a subsequence of `s`: its elements occur in `s` at increasing
      positions `pos`. */
  ghost predicate EmbedsAt(sub: seq<DepConfig>, s: seq<DepConfig>, pos: seq<int>) {
    && |pos| == |sub|
    && (forall k :: 0 <= k < |pos| ==> 0 <= pos[k] < |s| && s[pos[k]] == sub[k])
    && (forall k, l :: 0 <= k < l < |pos| ==> pos[k] < pos[l])
  }

  ghost predicate OrderedIn(sub: seq<DepConfig>, s: seq<DepConfig>) {
    exists pos :: EmbedsAt(sub, s, pos)
  }

  /** An empty selector string stands for `labels.Everything()`, which keeps
      every entry. */
  lemma SelectedEverything(cs: seq<DepConfig>)
    ensures Selected(cs, Everything()) == cs
  {
    SelectedAllMatching(cs, Everything());
  }

  /** A selector matching every entry keeps them all. */
  lemma {:induction false} SelectedAllMatching(cs: seq<DepConfig>, selector: Selector)
    requires forall i :: 0 <= i < |cs| ==> selector.matches(cs[i].labels)
    ensures Selected(cs, selector) == cs
  {
    if cs != [] {
      var init, last := cs[..|cs| - 1], cs[|cs| - 1];
      assert forall i :: 0 <= i < |init| ==> init[i] == cs[i];
      SelectedAllMatching(init, selector);
      assert selector.matches(last.labels);
      assert init + [last] == cs;
    }
  }

  /** The selector `NewProject` filters with. */
  function SelectorOf(labelSelector: string, parse: string -> Option<Selector>): Selector
    requires labelSelector != "" ==> parse(labelSelector).Some?
  {
    if labelSelector == "" then Everything() else parse(labelSelector).value
  }

  /** The git handles of the dependencies. */
  function GitsOf(deps: seq<Dependency>): set<Git> {
    set i | 0 <= i < |deps| && deps[i].git != null :: deps[i].git
  }

  /** The git handles of the dependencies, in order. */
  function GitList(deps: seq<Dependency>): (gits: seq<Git>)
    ensures |gits| <= |deps|
  {
    if deps == [] then []
    else
      var last := deps[|deps| - 1];
      GitList(deps[..|deps| - 1]) + (if last.git != null then [last.git] else [])
  }

  /** `GitList` lists every git handle, each as often as it occurs, in order. */
  lemma {:induction false} GitListMeaning(deps: seq<Dependency>)
    ensures forall g :: g in GitList(deps) <==> g in GitsOf(deps)
    ensures (forall i, j :: 0 <= i < j < |deps| && deps[i].git != null ==> deps[i].git != deps[j].git) ==>
      forall i, j :: 0 <= i < j < |GitList(deps)| ==> GitList(deps)[i] != GitList(deps)[j]
  {
    if deps != [] {
      var init := deps[..|deps| - 1];
      GitListMeaning(init);
      assert forall i :: 0 <= i < |init| ==> init[i] == deps[i];
      assert GitsOf(deps) == GitsOf(init) + (if deps[|deps| - 1].git != null then {deps[|deps| - 1].git} else {});
    }
  }

  // ---------------------------------------------------------------------------
  // Work branches

  /** The branch and remote hash `scanRemoteDeps` chooses for the dependency at
      `url` when the main work branch is `branch`: that branch when the remote
      has it, else the remote's main branch. */
  function Resolve(url: string, branch: string, remotes: Remotes): (r: Result<(string, Hash)>)
    ensures remotes.lsRemote(url).Some? ==> r == Err(remotes.lsRemote(url).value)
    ensures r.Ok? ==> remotes.lsRemote(url).None? && remotes.hasBranch(url, branch).Ok?
    ensures r.Ok? && remotes.hasBranch(url, branch).value.0 ==> r == Ok((branch, remotes.hasBranch(url, branch).value.1))
    ensures r.Ok? && !remotes.hasBranch(url, branch).value.0 ==> r == remotes.mainBranch(url)
    ensures remotes.lsRemote(url).None? && remotes.hasBranch(url, branch).Err? ==>
      r == Err(remotes.hasBranch(url, branch).error)
    ensures remotes.lsRemote(url).None? && remotes.hasBranch(url, branch).Ok? && !remotes.hasBranch(url, branch).value.0 ==>
      remotes.mainBranch(url).Err? ==> r == Err(remotes.mainBranch(url).error)
    ensures r.Err? <==>
      || remotes.lsRemote(url).Some?
      || remotes.hasBranch(url, branch).Err?
      || (!remotes.hasBranch(url, branch).value.0 && remotes.mainBranch(url).Err?)
  {
    if remotes.lsRemote(url).Some? then Err(remotes.lsRemote(url).value)
    else match remotes.hasBranch(url, branch)
      case Err(e) => Err(e)
      case Ok((found, hash)) => if found then Ok((branch, hash)) else remotes.mainBranch(url)
  }

  /** One iteration of the loop of `scanRemoteDeps`: list the remote, then
      take the main work branch if the remote has it, else the remote's main
      branch, and record the head hash of the same lookup. */
  method ResolveWorkBranch(g: Git, branch: string, remotes: Remotes) returns (failure: Option<Error>)
    modifies g
    ensures Resolve(g.url, branch, remotes).Err? ==>
      failure == Some(Resolve(g.url, branch, remotes).error) && unchanged(g)
    ensures Resolve(g.url, branch, remotes).Ok? ==>
      && failure == None
      && g.workBranch == Resolve(g.url, branch, remotes).value.0
      && g.remoteHash == Resolve(g.url, branch, remotes).value.1
  {
    failure := remotes.lsRemote(g.url);
    if failure.Some? {
      return;
    }
    var hash;
    match remotes.hasBranch(g.url, branch) {
      case Err(e) =>
        return Some(e);
      case Ok((hasBranch, h)) =>
        hash := h;
        if hasBranch {
          g.workBranch := branch;
        } else {
          match remotes.mainBranch(g.url) {
            case Err(e) =>
              return Some(e);
            case Ok((main, mh)) =>
              hash := mh;
              g.workBranch := main;
          }
        }
    }
    g.remoteHash := hash;
  }

  /** The dependency at `i` is a git repository whose resolution fails. */
  predicate FailsAt(deps: seq<Dependency>, branch: string, remotes: Remotes, i: int)
    requires 0 <= i < |deps|
  {
    deps[i].git != null && Resolve(deps[i].git.url, branch, remotes).Err?
  }

  /** Where the loop of `scanRemoteDeps` stops: the first failing git
      dependency, or the end of the list. */
  function FirstFailure(deps: seq<Dependency>, branch: string, remotes: Remotes): (k: nat)
    ensures k <= |deps|
    ensures forall i :: 0 <= i < k ==> !FailsAt(deps, branch, remotes, i)
    ensures k < |deps| ==> FailsAt(deps, branch, remotes, k)
  {
    if deps == [] then 0
    else if FailsAt(deps, branch, remotes, 0) then 0
    else
      var k := 1 + FirstFailure(deps[1..], branch, remotes);
      assert forall i :: 1 <= i < |deps| ==> FailsAt(deps, branch, remotes, i) == FailsAt(deps[1..], branch, remotes, i - 1);
      k
  }

  /** The git dependencies before `k` hold the branch and hash `Resolve`
      chose for them. */
  ghost predicate ResolvedUpTo(deps: seq<Dependency>, branch: string, remotes: Remotes, k: int)
    reads GitsOf(deps)
  {
    forall i :: 0 <= i < k && i < |deps| && deps[i].git != null ==>
      && Resolve(deps[i].git.url, branch, remotes).Ok?
      && deps[i].git.workBranch == Resolve(deps[i].git.url, branch, remotes).value.0
      && deps[i].git.remoteHash == Resolve(deps[i].git.url, branch, remotes).value.1
  }

  /** Resolution per dependency: a git dependency takes the main work branch
      when its remote has it, else the remote's main branch, with the hash from
      the same lookup. */
  lemma ResolvedMeaning(deps: seq<Dependency>, branch: string, remotes: Remotes, k: int, i: int)
    requires 0 <= i < k && i < |deps| && deps[i].git != null
    requires ResolvedUpTo(deps, branch, remotes, k)
    ensures remotes.hasBranch(deps[i].git.url, branch).Ok?
    ensures var found := remotes.hasBranch(deps[i].git.url, branch).value;
      if found.0 then deps[i].git.workBranch == branch && deps[i].git.remoteHash == found.1
      else remotes.mainBranch(deps[i].git.url) == Ok((deps[i].git.workBranch, deps[i].git.remoteHash))
  {
  }

  /** The main work branch `scanRemoteDeps` settles on. */
  function MainWorkBranch(forcedBranch: string, checkedOut: BranchLookup): (b: string)
    ensures forcedBranch != "" ==> b == forcedBranch
    ensures forcedBranch == "" ==> b == checkedOut.branch
  {
    if forcedBranch == "" then checkedOut.branch else forcedBranch
  }

  /** How many dependencies `scanRemoteDeps` gets through: none when the
      checked-out branch cannot be read, else up to the first failure. */
  function ScannedCount(deps: seq<Dependency>, forcedBranch: string, checkedOut: BranchLookup, remotes: Remotes): nat {
    if forcedBranch == "" && checkedOut.failure.Some? then 0
    else FirstFailure(deps, MainWorkBranch(forcedBranch, checkedOut), remotes)
  }

  // ---------------------------------------------------------------------------
  // Project image

  /** The image name: the repository name, with "-" and the suffix appended
      when a suffix is given. */
  function ImageName(name: string, suffix: string): string {
    if |suffix| > 0 then name + "-" + suffix else name
  }

  /** `image` tagged with the version of the commit `h`. */
  function TaggedFor(image: Image, h: Hash, revisionOf: Hash -> Result<GitRevision>): Image
    requires forall x :: revisionOf(x).Ok? ==> Describable(revisionOf(x).value)
    requires revisionOf(h).Ok?
  {
    assert Describable(revisionOf(h).value);
    image.(tag := GetVersion(revisionOf(h).value))
  }

  /** The loop of `findInRegistryImage`: the first hash whose image the registry
      holds, `None` when there is none, or the first description error. */
  function Probe(image: Image, hashes: seq<Hash>, revisionOf: Hash -> Result<GitRevision>,
                 described: Image -> bool): (r: Result<Option<Image>>)
    requires forall x :: revisionOf(x).Ok? ==> Describable(revisionOf(x).value)
    ensures r.Ok? && r.value.Some? ==>
      && r.value.value.inRegistry && r.value.value.name == image.name
      && r.value.value.registry == image.registry && r.value.value.temporaryRegistry == image.temporaryRegistry
  {
    if hashes == [] then Ok(None)
    else match revisionOf(hashes[0])
      case Err(e) => Err(e)
      case Ok(_) =>
        var tagged := TaggedFor(image, hashes[0], revisionOf);
        if described(tagged) then Ok(Some(tagged.(inRegistry := true)))
        else Probe(image, hashes[1..], revisionOf, described)
  }

  /** The hash `h` is described and its image is not in the registry. */
  ghost predicate Misses(image: Image, h: Hash, revisionOf: Hash -> Result<GitRevision>, described: Image -> bool)
    requires forall x :: revisionOf(x).Ok? ==> Describable(revisionOf(x).value)
  {
    revisionOf(h).Ok? && !described(TaggedFor(image, h, revisionOf))
  }

  /** Every hash before `k` misses. */
  ghost predicate MissesBefore(image: Image, hashes: seq<Hash>, k: int,
                               revisionOf: Hash -> Result<GitRevision>, described: Image -> bool)
    requires forall x :: revisionOf(x).Ok? ==> Describable(revisionOf(x).value)
    requires 0 <= k <= |hashes|
  {
    forall j :: 0 <= j < k ==> Misses(image, hashes[j], revisionOf, described)
  }

  /** The registry holds the image of the hash at `k`, and of none before it;
      `found` is that image, marked as in the registry. */
  ghost predicate FoundAt(image: Image, hashes: seq<Hash>, k: int, revisionOf: Hash -> Result<GitRevision>,
                          described: Image -> bool, found: Image)
    requires forall x :: revisionOf(x).Ok? ==> Describable(revisionOf(x).value)
    requires 0 <= k < |hashes|
  {
    && MissesBefore(image, hashes, k, revisionOf, described)
    && revisionOf(hashes[k]).Ok?
    && described(TaggedFor(image, hashes[k], revisionOf))
    && found == TaggedFor(image, hashes[k], revisionOf).(inRegistry := true)
  }

  /** The probe finds the first hash, in list order, whose image the registry
      holds. */
  lemma {:induction false} ProbeFound(image: Image, hashes: seq<Hash>, revisionOf: Hash -> Result<GitRevision>,
                                      described: Image -> bool, found: Image)
    requires forall x :: revisionOf(x).Ok? ==> Describable(revisionOf(x).value)
    requires Probe(image, hashes, revisionOf, described) == Ok(Some(found))
    ensures exists k :: 0 <= k < |hashes| && FoundAt(image, hashes, k, revisionOf, described, found)
  {
    var rest := hashes[1..];
    if described(TaggedFor(image, hashes[0], revisionOf)) {
      assert FoundAt(image, hashes, 0, revisionOf, described, found);
    } else {
      ProbeFound(image, rest, revisionOf, described, found);
      var k :| 0 <= k < |rest| && FoundAt(image, rest, k, revisionOf, described, found);
      assert forall j :: 0 <= j < |rest| ==> rest[j] == hashes[j + 1];
      assert FoundAt(image, hashes, k + 1, revisionOf, described, found);
    }
  }

  /** The probe finds nothing exactly when every hash is described and none of
      their images is in the registry. */
  lemma {:induction false} ProbeNone(image: Image, hashes: seq<Hash>, revisionOf: Hash -> Result<GitRevision>,
                                     described: Image -> bool)
    requires forall x :: revisionOf(x).Ok? ==> Describable(revisionOf(x).value)
    ensures Probe(image, hashes, revisionOf, described) == Ok(None) <==>
      MissesBefore(image, hashes, |hashes|, revisionOf, described)
  {
    if hashes != [] {
      var rest := hashes[1..];
      ProbeNone(image, rest, revisionOf, described);
      assert forall j :: 0 <= j < |rest| ==> rest[j] == hashes[j + 1];
      if Misses(image, hashes[0], revisionOf, described) {
        assert MissesBefore(image, hashes, |hashes|, revisionOf, described) <==>
          MissesBefore(image, rest, |rest|, revisionOf, described);
      }
    }
  }

  /** The probe fails only with the error of the first hash that cannot be
      described, all hashes before it having missed. */
  lemma {:induction false} ProbeFails(image: Image, hashes: seq<Hash>, revisionOf: Hash -> Result<GitRevision>,
                                      described: Image -> bool)
    requires forall x :: revisionOf(x).Ok? ==> Describable(revisionOf(x).value)
    requires Probe(image, hashes, revisionOf, described).Err?
    ensures exists k :: (0 <= k < |hashes| &&
      MissesBefore(image, hashes, k, revisionOf, described) &&
      revisionOf(hashes[k]) == Err(Probe(image, hashes, revisionOf, described).error))
  {
    var rest := hashes[1..];
    if revisionOf(hashes[0]).Err? {
      assert MissesBefore(image, hashes, 0, revisionOf, described);
    } else {
      ProbeFails(image, rest, revisionOf, described);
      var k :| 0 <= k < |rest| && MissesBefore(image, rest, k, revisionOf, described) &&
        revisionOf(rest[k]) == Err(Probe(image, rest, revisionOf, described).error);
      assert forall j :: 0 <= j < |rest| ==> rest[j] == hashes[j + 1];
      assert MissesBefore(image, hashes, k + 1, revisionOf, described);
    }
  }

  /** The registry check of `GetImageName` does not give an image: it was not
      asked for, or the probe of the project image fails or finds nothing. */
  predicate NotFoundInRegistry(imageRegistry: string, suffix: string, checkRegistry: bool,
                               hashes: seq<Hash>, main: MainRepository, described: Image -> bool)
    requires main.name.Ok?
    requires forall x :: main.revisionOf(x).Ok? ==> Describable(main.revisionOf(x).value)
  {
    checkRegistry ==>
      var found := Probe(Image(false, imageRegistry, ImageName(main.name.value, suffix), "", ""), hashes, main.revisionOf, described);
      !(found.Ok? && found.value.Some?)
  }

  /** What `GetImageName` computes once the code-change list `hashes` is
      known. */
  function ImageForChanges(imageRegistry: string, temporaryRegistry: string, suffix: string, checkRegistry: bool,
                           hashes: seq<Hash>, main: MainRepository, described: Image -> bool): (r: Result<Image>)
    requires forall x :: main.revisionOf(x).Ok? ==> Describable(main.revisionOf(x).value)
    requires main.headRevision.Ok? ==> Describable(main.headRevision.value)
    ensures main.name.Err? ==> r == Err(main.name.error)
    ensures r.Ok? ==> main.name.Ok? && r.value.name == ImageName(main.name.value, suffix) && r.value.temporaryRegistry == ""
    ensures main.name.Ok? && main.headRevision.Err? && NotFoundInRegistry(imageRegistry, suffix, checkRegistry, hashes, main, described) ==>
      r == Err(main.headRevision.error)
    ensures main.name.Ok? && !NotFoundInRegistry(imageRegistry, suffix, checkRegistry, hashes, main, described) ==>
      r == Ok(Probe(Image(false, imageRegistry, ImageName(main.name.value, suffix), "", ""), hashes, main.revisionOf, described).value.value)
    ensures r.Err? <==>
      main.name.Err? || (NotFoundInRegistry(imageRegistry, suffix, checkRegistry, hashes, main, described) && main.headRevision.Err?)
  {
    var name :- main.name;
    var image := Image(false, imageRegistry, ImageName(name, suffix), "", "");
    var found := if checkRegistry then Probe(image, hashes, main.revisionOf, described) else Ok(None);
    if found.Ok? && found.value.Some? then Ok(found.value.value)
    else
      var rev :- main.headRevision;
      var registry := if temporaryRegistry != "" then temporaryRegistry else imageRegistry;
      Ok(image.(tag := GetVersion(rev), registry := registry))
  }

  /** `GetImageName` fails before it names the image: the code-change walk
      from `head` fails, or the newest commit of its result cannot be described. */
  ghost predicate ProjectImageFails(sourcePathes: seq<string>, head: Hash, main: MainRepository)
    requires GitRepository.Acyclic(main.history.parents)
  {
    var changes := GitRepository.CodeChangeOf(head, main.history, GitRepository.Scope(main.root, sourcePathes, main.isDirectory));
    changes.Err? || (|changes.value| != 0 && main.revisionOf(changes.value[0]).Err?)
  }

  /** What `GetImageName` computes before it assigns `project.Image`. */
  ghost function ProjectImage(imageRegistry: string, temporaryRegistry: string, sourcePathes: seq<string>,
                              suffix: string, checkRegistry: bool, main: MainRepository,
                              described: Image -> bool): (r: Result<Image>)
    requires GitRepository.Acyclic(main.history.parents)
    requires forall x :: main.revisionOf(x).Ok? ==> Describable(main.revisionOf(x).value)
    requires main.headRevision.Ok? ==> Describable(main.headRevision.value)
    ensures main.head.Err? ==> r == Err(main.head.error)
    ensures r.Ok? ==> main.name.Ok? && r.value.name == ImageName(main.name.value, suffix) && r.value.temporaryRegistry == ""
    ensures main.head.Ok? ==>
      var changes := GitRepository.CodeChangeOf(main.head.value, main.history, GitRepository.Scope(main.root, sourcePathes, main.isDirectory));
      && (changes.Err? ==> r == Err(changes.error))
      && (changes.Ok? && |changes.value| != 0 && main.revisionOf(changes.value[0]).Err? ==>
            r == Err(main.revisionOf(changes.value[0]).error))
    ensures r.Err? <==>
      || main.head.Err?
      || ProjectImageFails(sourcePathes, main.head.value, main)
      || main.name.Err?
      || (var changes := GitRepository.CodeChangeOf(main.head.value, main.history, GitRepository.Scope(main.root, sourcePathes, main.isDirectory));
          NotFoundInRegistry(imageRegistry, suffix, checkRegistry, changes.value, main, described) && main.headRevision.Err?)
  {
    var head :- main.head;
    var scope := GitRepository.Scope(main.root, sourcePathes, main.isDirectory);
    var hashes :- GitRepository.CodeChangeOf(head, main.history, scope);
    if |hashes| != 0 && main.revisionOf(hashes[0]).Err? then Err(main.revisionOf(hashes[0]).error)
    else ImageForChanges(imageRegistry, temporaryRegistry, suffix, checkRegistry, hashes, main, described)
  }

  /** The project image: its name is the repository name with the suffix; it is
      in the registry only when the registry was checked and holds it, and then
      it sits in the permanent registry; otherwise it carries the head version
      and goes to the temporary registry when one is set. */
  lemma ImageForChangesMeaning(imageRegistry: string, temporaryRegistry: string, suffix: string, checkRegistry: bool,
                               hashes: seq<Hash>, main: MainRepository, described: Image -> bool)
    requires forall x :: main.revisionOf(x).Ok? ==> Describable(main.revisionOf(x).value)
    requires main.headRevision.Ok? ==> Describable(main.headRevision.value)
    requires ImageForChanges(imageRegistry, temporaryRegistry, suffix, checkRegistry, hashes, main, described).Ok?
    ensures main.name.Ok?
    ensures var im := ImageForChanges(imageRegistry, temporaryRegistry, suffix, checkRegistry, hashes, main, described).value;
      im.name == ImageName(main.name.value, suffix) && im.temporaryRegistry == ""
    ensures var im := ImageForChanges(imageRegistry, temporaryRegistry, suffix, checkRegistry, hashes, main, described).value;
      im.inRegistry ==> checkRegistry && im.registry == imageRegistry && described(im.(inRegistry := false))
    ensures var im := ImageForChanges(imageRegistry, temporaryRegistry, suffix, checkRegistry, hashes, main, described).value;
      !im.inRegistry ==>
        && main.headRevision.Ok?
        && im.tag == GetVersion(main.headRevision.value)
        && im.registry == (if temporaryRegistry != "" then temporaryRegistry else imageRegistry)
  {
    var image := Image(false, imageRegistry, ImageName(main.name.value, suffix), "", "");
    var found := Probe(image, hashes, main.revisionOf, described);
    if checkRegistry && found.Ok? && found.value.Some? {
      ProbeFound(image, hashes, main.revisionOf, described, found.value.value);
    }
  }

  /** When the registry is checked and holds the image of some hash of the code
      change, the project image is the one of the first such hash. */
  lemma ImageForChangesFromRegistry(imageRegistry: string, temporaryRegistry: string, suffix: string,
                                    hashes: seq<Hash>, main: MainRepository, described: Image -> bool)
    requires forall x :: main.revisionOf(x).Ok? ==> Describable(main.revisionOf(x).value)
    requires main.headRevision.Ok? ==> Describable(main.headRevision.value)
    requires ImageForChanges(imageRegistry, temporaryRegistry, suffix, true, hashes, main, described).Ok?
    requires ImageForChanges(imageRegistry, temporaryRegistry, suffix, true, hashes, main, described).value.inRegistry
    ensures main.name.Ok?
    ensures exists k :: (0 <= k < |hashes| &&
      FoundAt(Image(false, imageRegistry, ImageName(main.name.value, suffix), "", ""), hashes, k, main.revisionOf, described,
              ImageForChanges(imageRegistry, temporaryRegistry, suffix, true, hashes, main, described).value))
  {
    var image := Image(false, imageRegistry, ImageName(main.name.value, suffix), "", "");
    var found := Probe(image, hashes, main.revisionOf, described);
    ProbeFound(image, hashes, main.revisionOf, described, found.value.value);
  }

  // ---------------------------------------------------------------------------
  // The project

  class Project {
    var gitMain: Git
    var sourcePathes: seq<string>
    var imageRegistry: string
    var image: Image
    var dependencies: seq<Dependency>
    var forcedBranch: string
    var temporaryRegistry: string
    var labelSelector: string

    /** The literal of `NewCoreProject`: no dependency, no image yet. */
    constructor (gitMain: Git, sourcePathes: seq<string>, imageRegistry: string, forcedBranch: string)
      ensures this.gitMain == gitMain && this.sourcePathes == sourcePathes
      ensures this.imageRegistry == imageRegistry && this.forcedBranch == forcedBranch
      ensures image == Image(false, "", "", "", "") && dependencies == []
      ensures temporaryRegistry == "" && labelSelector == "Core project"
    {
      this.gitMain := gitMain;
      this.sourcePathes := sourcePathes;
      this.imageRegistry := imageRegistry;
      this.forcedBranch := forcedBranch;
      image := Image(false, "", "", "", "");
      dependencies := [];
      temporaryRegistry := "";
      labelSelector := "Core project";
    }

    /** Every dependency is well formed, and the git handles of the dependencies
        are distinct from one another and from the main repository's. */
    ghost predicate Valid()
      reads this
    {
      && (forall i :: 0 <= i < |dependencies| ==> WellFormed(dependencies[i]) && dependencies[i].git != gitMain)
      && (forall i, j :: 0 <= i < j < |dependencies| && dependencies[i].git != null ==>
            dependencies[i].git != dependencies[j].git)
    }

    function DepGits(): set<Git>
      reads this
    {
      GitsOf(dependencies)
    }

    /** `scanRemoteDeps`: set the main work branch, then resolve the branch and
        remote hash of every git dependency in order, stopping at the first
        failure. */
    method ScanRemoteDeps(checkedOut: BranchLookup, remotes: Remotes) returns (err: Option<Error>)
      requires Valid()
      modifies {gitMain} + DepGits()
      ensures gitMain.workBranch == MainWorkBranch(forcedBranch, checkedOut)
      ensures gitMain.remoteHash == old(gitMain.remoteHash)
      ensures ResolvedUpTo(dependencies, gitMain.workBranch, remotes,
                           ScannedCount(dependencies, forcedBranch, checkedOut, remotes))
      ensures forall i ::
        (ScannedCount(dependencies, forcedBranch, checkedOut, remotes) <= i < |dependencies| && dependencies[i].git != null)
        ==> unchanged(dependencies[i].git)
      ensures forcedBranch == "" && checkedOut.failure.Some? ==> err == checkedOut.failure
      ensures !(forcedBranch == "" && checkedOut.failure.Some?) ==>
        err == if FirstFailure(dependencies, gitMain.workBranch, remotes) == |dependencies| then None
               else Some(Resolve(dependencies[FirstFailure(dependencies, gitMain.workBranch, remotes)].git.url,
                                 gitMain.workBranch, remotes).error)
    {
      if forcedBranch == "" {
        gitMain.workBranch := checkedOut.branch;
        if checkedOut.failure.Some? {
          return checkedOut.failure;
        }
      } else {
        gitMain.workBranch := forcedBranch;
      }
      var branch := gitMain.workBranch;
      assert gitMain !in DepGits();
      err := ResolveDependencies(branch, remotes);
    }

    /** The loop of `scanRemoteDeps`: resolve every git dependency in order
        against the main work branch, stopping at the first failure. */
    method ResolveDependencies(branch: string, remotes: Remotes) returns (err: Option<Error>)
      requires Valid()
      modifies DepGits()
      ensures ResolvedUpTo(dependencies, branch, remotes, FirstFailure(dependencies, branch, remotes))
      ensures forall i ::
        (FirstFailure(dependencies, branch, remotes) <= i < |dependencies| && dependencies[i].git != null)
        ==> unchanged(dependencies[i].git)
      ensures err == if FirstFailure(dependencies, branch, remotes) == |dependencies| then None
                     else Some(Resolve(dependencies[FirstFailure(dependencies, branch, remotes)].git.url,
                                       branch, remotes).error)
    {
      var deps := dependencies;
      ghost var stop := FirstFailure(deps, branch, remotes);
      var i := 0;
      while i < |deps|
        invariant 0 <= i <= stop
        invariant ResolvedUpTo(deps, branch, remotes, i)
        invariant forall j :: i <= j < |deps| && deps[j].git != null ==> unchanged(deps[j].git)
      {
        if deps[i].git != null {
          assert deps[i].git in DepGits();
        }
        var failure := ResolveAt(i, branch, remotes);
        if failure.Some? {
          assert i == stop;
          return failure;
        }
        i := i + 1;
      }
      assert stop == |deps|;
      return None;
    }

    /** One iteration of that loop: resolve dependency `i` when it is a git
        dependency, the ones before it being resolved already. */
    method ResolveAt(i: nat, branch: string, remotes: Remotes) returns (failure: Option<Error>)
      requires Valid() && i < |dependencies|
      requires ResolvedUpTo(dependencies, branch, remotes, i)
      modifies if dependencies[i].git != null then {dependencies[i].git} else {}
      ensures failure.Some? <==> FailsAt(dependencies, branch, remotes, i)
      ensures failure.Some? ==>
        && failure == Some(Resolve(dependencies[i].git.url, branch, remotes).error)
        && unchanged(dependencies[i].git)
      ensures failure.None? ==> ResolvedUpTo(dependencies, branch, remotes, i + 1)
    {
      var g := dependencies[i].git;
      if g == null {
        return None;
      }
      failure := ResolveWorkBranch(g, branch, remotes);
    }

    /** `GetGits`: the main repository first, then the git dependencies in
        order. */
    method GetGits() returns (gits: seq<Git>)
      ensures gits == [gitMain] + GitList(dependencies)
    {
      gits := [gitMain];
      var i := 0;
      while i < |dependencies|
        invariant 0 <= i <= |dependencies|
        invariant gits == [gitMain] + GitList(dependencies[..i])
      {
        assert dependencies[..i + 1][..i] == dependencies[..i];
        if dependencies[i].git != null {
          gits := gits + [dependencies[i].git];
        }
        i := i + 1;
      }
      assert dependencies[..i] == dependencies;
    }

    /** `findInRegistryImage`: probe the hashes in order and return the image of
        the first one the permanent registry holds. */
    method FindInRegistryImage(imageName: string, hashes: seq<Hash>, revisionOf: Hash -> Result<GitRevision>,
                               described: Image -> bool) returns (r: Result<Option<Image>>)
      requires forall x :: revisionOf(x).Ok? ==> Describable(revisionOf(x).value)
      ensures r == Probe(Image(false, imageRegistry, imageName, "", ""), hashes, revisionOf, described)
    {
      var base := Image(false, imageRegistry, imageName, "", "");
      var image := base;
      var i := 0;
      while i < |hashes|
        invariant 0 <= i <= |hashes|
        invariant Probe(base, hashes, revisionOf, described) == Probe(base, hashes[i..], revisionOf, described)
        invariant image == base.(tag := image.tag)
      {
        assert hashes[i..][1..] == hashes[i + 1..];
        match revisionOf(hashes[i]) {
          case Err(e) =>
            return Err(e);
          case Ok(rev) =>
            image := image.(tag := GetVersion(rev));
        }
        if described(image) {
          image := image.(inRegistry := true);
          break;
        }
        image := image.(inRegistry := false);
        i := i + 1;
      }
      if image.inRegistry {
        return Ok(Some(image));
      }
      return Ok(None);
    }

    /** The second half of `GetImageName`: the name, the registry probe and
        the fallback to the head version. */
    method ImageOfChanges(suffix: string, checkRegistry: bool, hashes: seq<Hash>, main: MainRepository,
                          described: Image -> bool) returns (r: Result<Image>)
      requires forall x :: main.revisionOf(x).Ok? ==> Describable(main.revisionOf(x).value)
      requires main.headRevision.Ok? ==> Describable(main.headRevision.value)
      ensures r == ImageForChanges(imageRegistry, temporaryRegistry, suffix, checkRegistry, hashes, main, described)
    {
      if main.name.Err? {
        return Err(main.name.error);
      }
      var imageName := main.name.value;
      if |suffix| > 0 {
        imageName := imageName + "-" + suffix;
      }
      var current := Image(false, imageRegistry, imageName, "", "");
      if checkRegistry {
        var inRegistryImage := FindInRegistryImage(imageName, hashes, main.revisionOf, described);
        if inRegistryImage.Err? || inRegistryImage.value.None? {
          current := current.(inRegistry := false);
        } else {
          current := inRegistryImage.value.value;
        }
      } else {
        current := current.(inRegistry := false);
      }
      if !current.inRegistry {
        if main.headRevision.Err? {
          return Err(main.headRevision.error);
        }
        current := current.(tag := GetVersion(main.headRevision.value));
        if temporaryRegistry != "" {
          current := current.(registry := temporaryRegistry);
        }
      }
      return Ok(current);
    }

    /** `GetImageName`: compute the project image and assign it; on an error
        the image is left as it was. */
    method GetImageName(suffix: string, checkRegistry: bool, main: MainRepository, described: Image -> bool)
      returns (err: Option<Error>)
      requires GitRepository.Acyclic(main.history.parents)
      requires forall x :: main.revisionOf(x).Ok? ==> Describable(main.revisionOf(x).value)
      requires main.headRevision.Ok? ==> Describable(main.headRevision.value)
      modifies this`image
      ensures ProjectImage(imageRegistry, temporaryRegistry, sourcePathes, suffix, checkRegistry, main, described).Ok? ==>
        err == None &&
        image == ProjectImage(imageRegistry, temporaryRegistry, sourcePathes, suffix, checkRegistry, main, described).value
      ensures ProjectImage(imageRegistry, temporaryRegistry, sourcePathes, suffix, checkRegistry, main, described).Err? ==>
        err == Some(ProjectImage(imageRegistry, temporaryRegistry, sourcePathes, suffix, checkRegistry, main, described).error) &&
        image == old(image)
    {
      if main.head.Err? {
        return Some(main.head.error);
      }
      var head := main.head.value;
      var scope := GitRepository.Scope(main.root, sourcePathes, main.isDirectory);
      var changes := GitRepository.FindCodeChange(main.history, head, scope);
      if changes.Err? {
        return Some(changes.error);
      }
      var hashes := changes.value;
      if |hashes| != 0 && main.revisionOf(hashes[0]).Err? {
        return Some(main.revisionOf(hashes[0]).error);
      }
      var computed := ImageOfChanges(suffix, checkRegistry, hashes, main, described);
      if computed.Err? {
        return Some(computed.error);
      }
      image := computed.value;
      return None;
    }
  }

  /** The project of `NewProject` once its dependencies are built and scanned:
      the main work branch is settled, the git dependencies the scan got
      through hold their resolved branch and hash, and the others are as built. */
  ghost predicate Scanned(p: Project, checkedOut: BranchLookup, remotes: Remotes)
    reads p, p.gitMain, p.DepGits()
  {
    var k := ScannedCount(p.dependencies, p.forcedBranch, checkedOut, remotes);
    && p.gitMain.workBranch == MainWorkBranch(p.forcedBranch, checkedOut)
    && ResolvedUpTo(p.dependencies, p.gitMain.workBranch, remotes, k)
    && (forall i :: k <= i < |p.dependencies| && p.dependencies[i].git != null ==>
          p.dependencies[i].git.workBranch == "" && p.dependencies[i].git.remoteHash == "")
  }

  /** `NewCoreProject`: open the main repository, read its configuration and
      refuse any source path that is absolute or not clean. `repository` and
      `config` are what `NewGit` and `NewConfig` return. */
  method NewCoreProject(repository: Result<Git>, config: Result<ProjConfig>, forcedBranch: string)
    returns (r: Result<Project>)
    ensures repository.Err? ==> r == Err(repository.error)
    ensures repository.Ok? && config.Err? ==> r == Err(config.error)
    ensures repository.Ok? && config.Ok? && SourcePathError(config.value.sourcePathes).Some? ==>
      r == Err(SourcePathError(config.value.sourcePathes).value)
    ensures r.Ok? <==> repository.Ok? && config.Ok? && SourcePathError(config.value.sourcePathes).None?
    ensures r.Ok? ==>
      && fresh(r.value)
      && r.value.gitMain == repository.value
      && r.value.sourcePathes == config.value.sourcePathes
      && r.value.imageRegistry == config.value.registry
      && r.value.forcedBranch == forcedBranch
      && r.value.image == Image(false, "", "", "", "")
      && r.value.dependencies == []
      && r.value.temporaryRegistry == ""
      && r.value.labelSelector == "Core project"
  {
    if repository.Err? {
      return Err(repository.error);
    }
    if config.Err? {
      return Err(config.error);
    }
    var refused := ValidateSourcePathes(config.value.sourcePathes);
    if refused.Some? {
      return Err(refused.value);
    }
    var p := new Project(repository.value, config.value.sourcePathes, config.value.registry, forcedBranch);
    return Ok(p);
  }

  /** The loop of `NewProject` that builds one dependency per configuration
      entry and keeps those whose labels the selector matches. */
  method BuildDependencies(cs: seq<DepConfig>, selector: Selector) returns (deps: seq<Dependency>)
    ensures RealizesAll(deps, Selected(cs, selector))
    ensures forall j :: 0 <= j < |deps| && deps[j].git != null ==>
      fresh(deps[j].git) && deps[j].git.workBranch == "" && deps[j].git.remoteHash == ""
    ensures forall j, k :: 0 <= j < k < |deps| && deps[j].git != null ==> deps[j].git != deps[k].git
  {
    deps := [];
    var i := 0;
    while i < |cs|
      invariant 0 <= i <= |cs|
      invariant RealizesAll(deps, Selected(cs[..i], selector))
      invariant forall j :: 0 <= j < |deps| && deps[j].git != null ==>
        fresh(deps[j].git) && deps[j].git.workBranch == "" && deps[j].git.remoteHash == ""
      invariant forall j, k :: 0 <= j < k < |deps| && deps[j].git != null ==> deps[j].git != deps[k].git
    {
      var c := cs[i];
      assert cs[..i + 1][..i] == cs[..i];
      var dep: Dependency;
      if c.package != "" {
        dep := Dependency(false, null, "", false, c.package);
      } else if c.image != "" {
        dep := Dependency(false, null, c.image, false, "");
      } else {
        var g := new Git(c.url);
        dep := Dependency(c.clone, g, "", c.pull, "");
      }
      if selector.matches(c.labels) {
        deps := deps + [dep];
      }
      i := i + 1;
    }
    assert cs[..i] == cs;
  }

  /** The label text and the dependencies of a project built by `NewProject`. */
  ghost predicate SelectionOf(p: Project, cs: seq<DepConfig>, mainProjectOnly: bool, labelSelector: string,
                              parse: string -> Option<Selector>)
    requires !mainProjectOnly && labelSelector != "" ==> parse(labelSelector).Some?
    reads p
  {
    && p.labelSelector ==
         (if mainProjectOnly || labelSelector == "" then "Core project"
          else "Label selectors: " + parse(labelSelector).value.text)
    && (mainProjectOnly ==> p.dependencies == [])
    && (!mainProjectOnly ==> RealizesAll(p.dependencies, Selected(cs, SelectorOf(labelSelector, parse))))
  }

  /** The middle of `NewProject`: parse the label selector and build the
      selected dependencies. */
  method SelectDependencies(p: Project, cs: seq<DepConfig>, mainProjectOnly: bool, labelSelector: string,
                            parse: string -> Option<Selector>) returns (failure: Option<Error>)
    requires p.labelSelector == "Core project" && p.dependencies == []
    modifies p
    ensures failure ==
      if !mainProjectOnly && labelSelector != "" && parse(labelSelector).None? then Some(SelectorParse(labelSelector))
      else None
    ensures p.gitMain == old(p.gitMain) && p.sourcePathes == old(p.sourcePathes)
    ensures p.imageRegistry == old(p.imageRegistry) && p.forcedBranch == old(p.forcedBranch)
    ensures p.image == old(p.image) && p.temporaryRegistry == old(p.temporaryRegistry)
    ensures failure.None? ==> SelectionOf(p, cs, mainProjectOnly, labelSelector, parse)
    ensures forall j :: 0 <= j < |p.dependencies| && p.dependencies[j].git != null ==>
      fresh(p.dependencies[j].git) && p.dependencies[j].git.workBranch == "" && p.dependencies[j].git.remoteHash == ""
    ensures forall j, k :: 0 <= j < k < |p.dependencies| && p.dependencies[j].git != null ==>
      p.dependencies[j].git != p.dependencies[k].git
    ensures forall j :: 0 <= j < |p.dependencies| ==> WellFormed(p.dependencies[j])
  {
    if mainProjectOnly {
      return None;
    }
    var selector := Everything();
    if |labelSelector| > 0 {
      var parsed := parse(labelSelector);
      if parsed.None? {
        return Some(SelectorParse(labelSelector));
      }
      selector := parsed.value;
      p.labelSelector := "Label selectors: " + selector.text;
    }
    var deps := BuildDependencies(cs, selector);
    p.dependencies := deps;
    forall j | 0 <= j < |deps| ensures WellFormed(deps[j]) {
      RealizedDependencyKind(deps[j], Selected(cs, selector)[j]);
    }
    return None;
  }

  /** `NewProject`: the core project, then (unless only the main project is
      wanted) the dependencies whose labels the selector matches, then the scan
      of their work branches, whose error is discarded. `parse` stands for
      `labels.Parse`. */
  method NewProject(repository: Result<Git>, config: Result<ProjConfig>, forcedBranch: string,
                    mainProjectOnly: bool, labelSelector: string, parse: string -> Option<Selector>,
                    checkedOut: BranchLookup, remotes: Remotes)
    returns (r: Result<Project>)
    modifies if repository.Ok? then {repository.value} else {}
    ensures repository.Err? ==> r == Err(repository.error)
    ensures repository.Ok? && config.Err? ==> r == Err(config.error)
    ensures repository.Ok? && config.Ok? && SourcePathError(config.value.sourcePathes).Some? ==>
      r == Err(SourcePathError(config.value.sourcePathes).value)
    ensures repository.Ok? && config.Ok? && SourcePathError(config.value.sourcePathes).None? ==>
      (r.Err? <==> !mainProjectOnly && labelSelector != "" && parse(labelSelector).None?)
    ensures r.Err? && repository.Ok? && config.Ok? && SourcePathError(config.value.sourcePathes).None? ==>
      r == Err(SelectorParse(labelSelector))
    ensures r.Ok? ==>
      && repository.Ok? && config.Ok?
      && fresh(r.value)
      && r.value.gitMain == repository.value
      && r.value.sourcePathes == config.value.sourcePathes
      && r.value.imageRegistry == config.value.registry
      && r.value.forcedBranch == forcedBranch
      && r.value.image == Image(false, "", "", "", "")
      && r.value.temporaryRegistry == ""
      && r.value.gitMain.remoteHash == old(repository.value.remoteHash)
      && SelectionOf(r.value, config.value.dependencies, mainProjectOnly, labelSelector, parse)
      && r.value.Valid()
      && (forall g :: g in r.value.DepGits() ==> fresh(g))
      && Scanned(r.value, checkedOut, remotes)
  {
    var core := NewCoreProject(repository, config, forcedBranch);
    if core.Err? {
      return Err(core.error);
    }
    var p := core.value;
    var failure := SelectDependencies(p, config.value.dependencies, mainProjectOnly, labelSelector, parse);
    if failure.Some? {
      return Err(failure.value);
    }
    assert p.DepGits() == GitsOf(p.dependencies);
    var _ := p.ScanRemoteDeps(checkedOut, remotes);
    return Ok(p);
  }
}
