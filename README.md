# ciux core, modelled in Dafny

ciux is a command-line helper for continuous integration of a project that lives in a git repository. Its core is covered here:

- **Describing a commit.** `GitTagMap` and `GitDescribe` find the latest semantic-version tag and the distance to it. `GitRevision.GetVersion` renders a `git describe`-like version. `GitRevision.UpgradeTag` computes the next release-candidate tag.
- **Finding code changes.** `HasDiff` and `FindCodeChange` walk the first-parent chain back from a commit. They stop at the newest commit that changes a file under the configured source paths.
- **Path helpers.** `IsFileInSourcePathes`, `IsPathInSubdirectory`, `LastDir` and `LabelSelectorToFileName` decide which files count as source and name things.
- **Image names.** `Image.Url`, `Image.String` and `GetImageEnVarPrefix` name container images. `Dependency.GetImageName` builds the image reference of a dependency.
- **Projects.** `NewCoreProject` and `NewProject` build a project from its configuration, filtering the dependencies through a label selector. `scanRemoteDeps` resolves the work branch of every git dependency against its remote. `GetGits` lists the git handles. `Project.GetImageName` and `findInRegistryImage` choose the name, tag and registry of the project image, reusing an image already in the registry when one matches a recent commit.
- **Cluster names.** `get clustername` derives a Kubernetes-friendly cluster name from the user, the branch and the head hash.

One Dafny module per Go file:

| Go file | Dafny module (file) |
|---|---|
| internal/gitrevision.go | `GitRevisions` (gitrevision.dfy) |
| internal/git.go | `Git` (git.dfy) |
| internal/git_repository.go | `GitRepository` (git_repository.dfy) |
| internal/utils.go | `Utils` (utils.dfy) |
| internal/image.go | `Images` (image.dfy) |
| internal/dependency.go | `Dependencies` (dependency.dfy) |
| internal/project.go | `Projects` (project.dfy) |
| cmd/get_clustername.go | `ClusterNames` (clustername.dfy) |

Supporting modules:

- `Errors`: the error kinds and the `Result` and `Option` types.
- `Text`: ASCII case mapping, replacement, prefixes and decimal formatting from Go's `strings` and `fmt`.
- `FilePaths`: Go's lexical `filepath.IsAbs`, `filepath.Clean`, `filepath.Join` and `path.Base` on Unix.
- `Labels`: a label selector, kept abstract as its text and its matching predicate.
- `SemVers`: semantic versions, with the parser, renderer and release-candidate reader supplied by the caller.

How the Go code is shaped in Dafny:

- **Imperative code stays imperative.** Go code that updates state or loops is written as methods with loops and invariants. Each method is proved equal to a specification function, and that function's properties are proved as lemmas.
- **Classes.** `Git` is a class whose `workBranch` and `remoteHash` are updated in place. `Project` is a class whose methods update its fields.
- **Outside world as inputs.** Everything read from the outside world is passed in as a value or a function: the filesystem, go-git's repository objects, the remote, the registry and `$USER`.

## Model

| member | source | states |
|---|---|---|
| Text.ToLower | internal/image.go:25 | lowering keeps the length and maps every character through the ASCII lower-case map |
| Text.ToUpper | internal/image.go:60 | upper-casing keeps the length and maps every character through the ASCII upper-case map |
| Text.ToLowerIdempotent | internal/image.go:25 | lower-casing an already lower-cased string changes nothing |
| Text.ReplaceChar | internal/utils.go:42-43 | replacing one character by another keeps the length, changes exactly the occurrences of the first, and leaves every other position alone |
| Text.Take | cmd/get_clustername.go:48 | `%.Ns` keeps the first `min(n, len)` characters: the result is a prefix of exactly that length |
| Text.NatToString | internal/gitrevision.go:22 | `%d` of a natural number is a non-empty string of decimal digits |
| Text.NatToStringRoundTrip | internal/gitrevision.go:22 | reading back the printed digits gives the number again |
| Text.NatToStringInjective | internal/gitrevision.go:22 | distinct numbers print differently, and no printed number except 0 starts with '0' |
| Text.IntToStringShape | internal/gitrevision.go:22 | `%d` of an int starts with '-' exactly when it is negative, and the rest reads back as its magnitude |
| FilePaths.SplitSlash | internal/utils.go:90 | splitting at '/' gives at least one piece, and no piece contains '/' |
| FilePaths.Clean | internal/project.go:41 | `filepath.Clean` never returns the empty string |
| FilePaths.CleanIdempotent | internal/project.go:41 | a cleaned path is already clean, so the second check of `NewCoreProject` accepts every cleaned relative path |
| FilePaths.CleanKeepsRootedness | internal/project.go:38-42 | cleaning keeps a path absolute or relative, as it was |
| FilePaths.Join | internal/utils.go:90 | `filepath.Join` of two elements is empty exactly when both are; otherwise the result is already clean, and it is absolute exactly when its first non-empty element is |
| FilePaths.SplitJoin | internal/utils.go:90 | joining slash-free pieces with '/' and splitting again gives the pieces back |
| FilePaths.CleanElementsOfCleanStack | internal/project.go:41 | the lexical walk of `Clean` leaves elements that are already clean exactly as they are |
| FilePaths.TrimTrailingSlashes | internal/utils.go:54 | the result is a prefix of the path that does not end in '/', and everything removed is '/' |
| FilePaths.LastElement | internal/utils.go:54 | the result is a slash-free suffix of the path, preceded by '/' unless it is the whole path |
| FilePaths.Base | internal/utils.go:54 | `path.Base` never returns the empty string |
| FilePaths.BaseIsLastElement | internal/utils.go:54 | `path.Base` gives "." for the empty path and "/" for a path of slashes; otherwise it gives the last slash-free element, which follows either nothing or a '/' and is followed only by slashes |
| Labels.Everything | internal/project.go:67 | the "everything" selector prints as "" and matches every label set |
| Utils.LabelSelectorToFileName | internal/utils.go:37-46 | empty exactly for an empty selector; otherwise '_' and then the selector text with '=' changed to '_' and ',' changed to '-', containing neither '=' nor ',' |
| Utils.LastDir | internal/utils.go:49-55 | a URL parse error is returned unchanged; otherwise the result is non-empty, and "." for an empty path |
| Utils.LastDirIsLastElement | internal/utils.go:49-55 | for a URL path made of a directory prefix, a slash-free name and trailing slashes, the result is that name |
| Utils.LastDirOfFile | internal/utils_test.go:19-23 | the last element of "/home/user/documents/file.txt" is "file.txt" |
| Utils.LastDirOfDirectory | internal/utils_test.go:24-28 | the last element of "/home/user/documents/" is "documents" |
| Utils.IsPathInSubdirectory | internal/utils.go:68-76 | refuses the empty file path (and only it); otherwise true exactly when the file path starts with the directory followed by '/' |
| Utils.SubdirectoryFacts | internal/utils.go:68-76 | a path is not inside itself; the empty directory contains every absolute path; being inside is transitive |
| Utils.IsPathInSubdirectoryExamples | internal/utils_test.go:60-101 | the six test cases of `IsPathInSubdirectory`, error case included |
| Utils.IsFileInSourcePathes | internal/utils.go:80-124 | the loop returns what `FileInSourcePathes` specifies: the first entry that does not answer "no match" decides |
| Utils.FileInSourcePathes | internal/utils.go:80-89 | an empty list of source paths admits every file; an absolute file path against a non-empty list is refused with an error naming it |
| Utils.UndecidedCons | internal/utils.go:93-122 | no entry among the first k+1 decides exactly when the head does not decide and no entry among the first k of the tail does |
| Utils.FirstVerdictIsFirstDecisiveEntry | internal/utils.go:93-123 | the scan answers true exactly when some entry matches before any entry decides, and fails exactly when some entry fails before any entry decides |
| Utils.FileInSourcePathesMeaning | internal/utils.go:80-124 | an empty list admits every file; an absolute file path against a non-empty list is refused; otherwise the file matches, or the check fails, exactly at the first decisive entry |
| SemVers.RcLabel | internal/gitrevision.go:52 | a release-candidate identifier is "rc" followed by the number; for a natural number, what follows "rc" is all decimal digits and reads back as that number |
| GitRevisions.DisplayTag | internal/gitrevision.go:24-27 | the printed tag is never empty; it is the tag itself when there is one, and "v0" when there is none |
| GitRevisions.GetVersion | internal/gitrevision.go:15-30 | the version starts with the printed tag and ends with "-dirty" for a dirty worktree |
| GitRevisions.GetVersionOnTag | internal/gitrevision.go:15-30 | on a tagged commit the version is the tag (or "v0"), with "-dirty" appended exactly when the worktree is dirty |
| GitRevisions.GetVersionAfterTag | internal/gitrevision.go:21-23 | past the tag come '-', decimal digits that read back as the counter, "-g", the first seven hash characters and the dirty marker |
| GitRevisions.GetVersionDirtyIsLast | internal/gitrevision.go:16-19 | a dirty revision prints as the clean one followed by "-dirty" |
| GitRevisions.GetVersionDependsOn | internal/gitrevision.go:15-30 | two revisions with the same printed tag, counter, dirty flag and (when the counter is not zero) first seven hash characters print alike |
| GitRevisions.Bumped | internal/gitrevision.go:47-53 | a bump keeps the major and minor numbers |
| GitRevisions.UpgradeTag | internal/gitrevision.go:32-55 | no tag gives "v0"; a tag that is not a semantic version and a release-candidate read failure are the two errors, each naming the tag |
| GitRevisions.UpgradeTagMeaning | internal/gitrevision.go:47-54 | for a codec that reads back what it prints: without a candidate the patch goes up and the pre-release becomes ["rc0"]; with candidate n the first identifier becomes rc(n+1) and the rest is kept |
| GitRevisions.UpgradeTagTwice | internal/gitrevision.go:47-54 | bumping a release twice gives candidate 1 of the next patch |
| GitRevisions.GetVersionCountedExample | internal/gitrevision.go:15-30 | "v1.0.0" one commit later with hash "1234567890abcdef" prints "v1.0.0-1-g1234567" |
| GitRevisions.GetVersionDirtyExample | internal/gitrevision.go:15-30 | the same revision with a dirty worktree prints "v1.0.0-1-g1234567-dirty" |
| GitRevisions.GetVersionOnTagExample | internal/gitrevision.go:15-30 | on the tagged commit itself, "v1.0.0" prints as "v1.0.0" |
| GitRevisions.GetVersionUntaggedExample | internal/gitrevision.go:15-30 | with no tag, the head prints as "v0", and three commits later with a dirty worktree as "v0-3-g1234567-dirty" |
| Git.GitTagMap | internal/git.go:15-42 | a failure to list tags is returned; otherwise the result is the in-order scan of the tag references |
| Git.TagStep | internal/git.go:22-35 | a non-semantic-version reference leaves the map as it is; the step fails exactly for an annotated semantic-version tag whose commit cannot be read; otherwise every old key keeps its value unless the reference names it, and every key the reference names maps to the tag |
| Git.TagScan | internal/git.go:21-37 | every value of the scanned map parses as a semantic version |
| Git.TagScanErrorSticks | internal/git.go:21-40 | once a reference fails, the scan of every longer list fails with the same error |
| Git.TagScanEntries | internal/git.go:21-37 | each map value is a semantic-version tag whose reference names the key (a lightweight tag by its own hash, an annotated one by its target commit), and every such reference is present |
| Git.TagScanFails | internal/git.go:30-33 | the scan fails exactly when some semantic-version annotated tag cannot reach its commit, and the error is that tag's error |
| Git.AddParents | internal/git.go:148-157 | recorded commits keep their distance; each parent not yet recorded gets the given distance; every parent is recorded |
| Git.WalkStep | internal/git.go:139-164 | every recorded commit keeps its distance; a commit seen for the first time gets 0; every parent is recorded, and a newly recorded one is a parent at the commit's distance plus one; the anchor is set to the commit, with the counter at its distance, exactly when no anchor was set and the commit is tagged, and otherwise both stay |
| Git.WalkLog | internal/git.go:136-165 | every commit of the log is recorded, and an anchor, once set, is a tagged commit |
| Git.DiscoverParents | internal/git.go:148-157 | the parents loop computes `AddParents` |
| Git.MaxDistancePlusOne | internal/git.go:166-171 | the counter is the largest of the start value and every distance plus one |
| Git.WalkCommits | internal/git.go:136-165 | the commit walk yields the state, counter and anchor that `WalkLog` specifies, and the anchor is a tagged commit |
| Git.VisitCommit | internal/git.go:139-164 | visiting one commit advances the walk exactly as `WalkStep` does, and the anchor, once set, stays; it is only ever set to a tagged commit |
| Git.GitDescribe | internal/git.go:98-177 | each step's error is returned in order; on success the dirty flag is the negated clean status and the hash is the head; for a log of real hashes the result `Describes` the log: the tag and counter of the first tagged commit in log order, or, when no commit is tagged, no tag and one more than the largest distance (0 for an empty state) |
| Git.DescribesOfConcludes | internal/git.go:166-176 | the conclusion drawn from a completed walk over real hashes is the one `Describes` specifies |
| Git.AnchorStep | internal/git.go:159-163 | one more visited commit keeps the anchor rule of the walk: anchored exactly when some visited commit is tagged, at the first such commit with its distance, and with the counter 0 while unanchored |
| Git.WalkLogPersistent | internal/git.go:140-155 | a distance once recorded is never changed by later steps of the walk |
| Git.WalkLogAnchor | internal/git.go:159-163 | the walk has no anchor exactly when no visited commit is tagged, and then the counter is still 0; otherwise the anchor is the first tagged commit in log order, and the counter is its recorded distance |
| Git.TaggedHeadCountsZero | internal/git.go:159-163 | when the head is tagged, the anchor is the head and the counter is 0 |
| Git.LinearStateStep | internal/git.go:148-157 | on a history without merges, visiting the m-th commit records its parent at distance m |
| Git.AddOneParent | internal/git.go:148-157 | a single parent is recorded only when it is new |
| Git.WalkLogLinearPrefix | internal/git.go:139-157 | on a linear history, after m commits exactly the first m+1 are recorded, each at its position |
| Git.LinearHistoryCounter | internal/git.go:139-171 | on a linear history every commit is recorded at its distance from the head, so an untagged walk counts exactly the number of commits |
| Git.LinearUntaggedDescribe | internal/git.go:166-173 | on a linear history without tags, a described result has no tag and counts the commits of the log |
| GitRepository.HasDiff | internal/git_repository.go:13-49 | a patch failure is returned; otherwise the scan of the file patches decides |
| GitRepository.PatchPath | internal/git_repository.go:20-38 | a patch is judged by its "from" path when it has one, else by its "to" path, and by none exactly when it has neither |
| GitRepository.HasDiffOf | internal/git_repository.go:13-49 | a patch failure is returned as is; true means some judged path is in scope, false that no judged path is |
| GitRepository.DiffScanMeaning | internal/git_repository.go:19-48 | when every check succeeds, the result is whether some patched path is in scope; a failure is the error of some patched path's check |
| GitRepository.DiffScanDecides | internal/git_repository.go:19-48 | when every check succeeds, the scan answers whether some judged path is in scope |
| GitRepository.DiffScanErrorOf | internal/git_repository.go:24-27 | a failed scan fails with the error of the check of some judged path |
| GitRepository.DiffScanFound | internal/git_repository.go:28-35 | a "true" answer means some judged path is in scope |
| GitRepository.DiffScanUnchanged | internal/git_repository.go:19-48 | a "false" answer means no judged path is in scope |
| GitRepository.DiffScanReadsPatchPathOnly | internal/git_repository.go:20-46 | only the path a patch is judged by (from, else to) matters |
| GitRepository.Reversed | internal/git_repository.go:85 | the reversal keeps the length and reads the sequence from the end |
| GitRepository.PrependPrepend | internal/git_repository.go:79-82 | prepending in two steps is prepending the concatenation, and prepending nothing changes nothing |
| GitRepository.Reverse | internal/git_repository.go:85 | `slices.Reverse`: the array afterwards holds the reversal of what it held |
| GitRepository.FindCodeChange | internal/git_repository.go:54-87 | the loop computes `CodeChangeOf` |
| GitRepository.Chain | internal/git_repository.go:67-84 | a chain from a commit with a parent starts at that commit, and lists only known commits; it fails exactly when the first-parent walk through unchanged commits is blocked (`Blocked`: an unknown first parent or a failing diff) |
| GitRepository.CodeChangeOf | internal/git_repository.go:54-87 | an unknown starting commit is an error naming it; it fails exactly for an unknown starting commit or a blocked first-parent walk; a result is non-empty, ends with the starting commit and lists only known commits |
| GitRepository.ChainShape | internal/git_repository.go:67-84 | the chain is empty exactly for a root, starts at the commit, is shorter than the first-parent depth, and its last commit has a parent |
| GitRepository.ChainLinks | internal/git_repository.go:67-84 | each element of the chain has the next as its first parent and is unchanged against it, and the last element is a boundary |
| GitRepository.CodeChangeShape | internal/git_repository.go:54-87 | the result ends with the starting commit; a root gives [root]; oldest first, each element is the first parent of the next; every element after the first is unchanged against its parent; the first is a boundary; the length is at most the depth, and below it with the first commit having a parent when the start is not a root |
| GitRepository.RootExcludedExample | internal/git_repository.go:62-84 | with history a ← b and no change, the result is [b]: the root a is not included |
| Images.Url | internal/image.go:24-27 | the URL is the registry, '/', the lower-cased name, ':' and the tag, position by position |
| Images.UrlIgnoresNameCase | internal/image.go:25 | names that lower-case alike give the same URL |
| Images.UrlDeterminesImage | internal/image.go:24-27 | when registries have no '/' and names have no ':', equal URLs mean equal registry, lower-cased name and tag |
| Images.String | internal/image.go:20-22 | the URL followed by ", in registry: " and true or false |
| Images.EnvVarName | internal/image.go:58-60 | same length; '/' and '-' become '_', everything else is upper-cased; no '/', '-' or lower-case letter remains |
| Images.EnvVarNameIdempotent | internal/image.go:58-60 | applying the mapping twice is applying it once |
| Images.EnvVarNameAppend | internal/image.go:58-60 | the mapping works character by character, so it distributes over concatenation |
| Images.GetImageEnVarPrefix | internal/image.go:53-62 | fails exactly when the image reference does not parse, with an error naming the image; otherwise the mapping of its repository |
| Images.EnvVarPrefixExamples | internal/image_test.go:34-46 | "docker.io/library/alpine:3.18.3" gives "LIBRARY_ALPINE"; the fink-broker image gives "ASTROLABSOFTWARE_FINK_FINK_BROKER" |
| Dependencies.Git.constructor | internal/project.go:92-94 | a new git handle has the URL and an empty work branch and remote hash |
| Dependencies.String | internal/dependency.go:14-22 | the package, else the image, else the git URL |
| Dependencies.GetImageName | internal/dependency.go:25-42 | an explicit image is returned as is, and head-revision and URL errors are returned; it fails exactly when there is no explicit image and the head revision or the last URL element fails; otherwise the result is registry "/" last URL element ":" head version |
| Dependencies.GetImageNameIsImageUrl | internal/dependency.go:39 | when the name has no upper-case letter, that result is the `Url` of the image with that registry, name and version |
| Projects.ValidateSourcePathes | internal/project.go:37-44 | the loop returns the first refusal of the source paths |
| Projects.SourcePathError | internal/project.go:37-44 | no refusal exactly when every path is relative and clean; a refusal names a path that is not |
| Projects.SourcePathErrorMeaning | internal/project.go:37-44 | no refusal exactly when every path is relative and clean; a refusal is that of the first path that is not, naming it |
| Projects.CleanedRelativePathAccepted | internal/project.go:41-43 | the clean form of any relative path is accepted |
| Projects.RealizedDependencyKind | internal/project.go:80-96 | a built dependency is exactly one of package, image or git, and prints as its entry's package, image or URL |
| Projects.SelectedMeaning | internal/project.go:97-100 | an entry is kept exactly when it is in the configuration and the selector matches its labels |
| Projects.Selected | internal/project.go:97-100 | at most the configured entries are kept, and the selector matches every kept one |
| Projects.SelectedInOrder | internal/project.go:78-101 | the kept entries keep their configuration order |
| Projects.SelectedEverything | internal/project.go:67 | with no selector every entry is kept |
| Projects.GitList | internal/project.go:445-449 | at most one handle per dependency |
| Projects.GitListMeaning | internal/project.go:445-449 | the listed handles are exactly the dependencies' handles, without repetition when the dependencies share none |
| Projects.Resolve | internal/project.go:255-274 | the ls-remote error comes first; then the main work branch with the hash `HasBranch` reports when the remote has it, else the remote's main branch and its hash; a failure of `HasBranch` or `MainBranch` is returned as is; it fails exactly in those three cases |
| Projects.MainWorkBranch | internal/project.go:243-250 | the forced branch when one is set, else the checked-out branch |
| Projects.ResolveWorkBranch | internal/project.go:254-275 | on failure the handle is untouched and the error returned; on success the work branch and remote hash are the resolved ones |
| Projects.FirstFailure | internal/project.go:253-276 | the index of the first git dependency whose resolution fails, or the length |
| Projects.ResolvedMeaning | internal/project.go:259-274 | a resolved dependency has the main branch when its remote has it, else its remote's main branch, with the matching hash |
| Projects.Project.constructor | internal/project.go:46-52 | a core project holds the repository, source paths, registry and forced branch, with no image, no dependencies and selector label "Core project" |
| Projects.Project.ScanRemoteDeps | internal/project.go:239-285 | the main work branch is the forced branch or the checked-out one; the dependencies before the first failure are resolved and the rest untouched; the branch error or the first failure is returned; the main repository's remote hash is kept |
| Projects.Project.ResolveDependencies | internal/project.go:252-276 | the git dependencies before the first failing one hold the branch and hash `Resolve` chose, those from it on are untouched, and the result is that failure's error, or none when no dependency fails |
| Projects.Project.ResolveAt | internal/project.go:254-275 | one dependency: it fails exactly when it is a git dependency whose resolution fails, and then is untouched; otherwise the resolved prefix grows by one |
| Projects.Project.GetGits | internal/project.go:443-451 | the main handle, then each dependency's handle in order |
| Projects.Probe | internal/project.go:528-548 | a found image is in the registry and keeps the name and both registries of the probed image |
| Projects.ProbeFound | internal/project.go:528-545 | a found image is the first commit's image the registry describes, every earlier commit missing |
| Projects.ProbeNone | internal/project.go:528-547 | nothing is found exactly when every commit describes, and its image is missing |
| Projects.ProbeFails | internal/project.go:529-532 | a failure is the describe error of a commit all of whose predecessors are missing |
| Projects.Project.FindInRegistryImage | internal/project.go:521-549 | the loop computes `Probe` from the project registry and the image name |
| Projects.ImageForChangesMeaning | internal/project.go:479-516 | the image is named after the repository (with "-suffix"); a registry image comes only when checking and is described there; otherwise the tag is the head version and the registry is the temporary one when set |
| Projects.ImageForChangesFromRegistry | internal/project.go:491-500 | an image taken from the registry is the one found at some commit of the change list |
| Projects.ImageForChanges | internal/project.go:479-516 | the name error is returned, and the head-revision error when the registry gives no image (`NotFoundInRegistry`); it fails exactly in those two cases; an image the registry gives is reused as found; an image is named after the repository (with "-suffix") and has no temporary registry of its own |
| Projects.ProjectImage | internal/project.go:458-516 | the head error, then the code-change error, then the error describing the newest changed commit are returned; it fails exactly in those cases or the two of `ImageForChanges`; an image is named after the repository (with "-suffix") and has no temporary registry of its own |
| Projects.Project.ImageOfChanges | internal/project.go:479-516 | computes `ImageForChanges` from the project's fields |
| Projects.Project.GetImageName | internal/project.go:458-518 | on success the project image becomes the specified image and no error is returned; on failure the error is returned and the image is untouched |
| Projects.NewCoreProject | internal/project.go:27-54 | the repository error, the configuration error, then the first source-path refusal; it succeeds exactly when none occurs, with a fresh project holding the configuration |
| Projects.BuildDependencies | internal/project.go:77-103 | the dependencies realize the selected entries in order, each git handle fresh, empty and distinct |
| Projects.SelectDependencies | internal/project.go:66-104 | fails exactly when a selector is needed and does not parse; otherwise applies it, relabels the project, and builds the dependencies; the image and the temporary registry are kept |
| Projects.NewProject | internal/project.go:59-107 | the errors of `NewCoreProject` and the selector; on success a fresh project with the selected dependencies, fresh handles, an empty image and temporary registry, the main repository's remote hash kept, and the remote scan done |
| ClusterNames.UserName | cmd/get_clustername.go:34-37 | an empty user becomes a non-empty default, and any other user is kept |
| ClusterNames.RawClusterNameLayout | cmd/get_clustername.go:44-48 | the raw name is the user (or "unknown"), '-', the branch, '-', the first six hash characters (or the whole shorter hash), and "-dirty" exactly for a dirty worktree, each at its position |
| ClusterNames.DropRun | cmd/get_clustername.go:49 | removes exactly the leading characters outside [A-Za-z0-9] |
| ClusterNames.CollapseRuns | cmd/get_clustername.go:49 | only letters, digits and '-'; no "--"; empty exactly for the empty input; the first character is kept or turned into '-' |
| ClusterNames.CollapseRunsOfAlnumPrefix | cmd/get_clustername.go:49 | a leading stretch of letters and digits passes through unchanged |
| ClusterNames.DropRunOfRun | cmd/get_clustername.go:49 | a whole run of characters outside [A-Za-z0-9] is dropped, up to the letter or digit after it |
| ClusterNames.CollapseRunsOfRun | cmd/get_clustername.go:49 | a maximal run of characters outside [A-Za-z0-9] becomes exactly one '-' |
| ClusterNames.CollapseRunsKeepsAlnums | cmd/get_clustername.go:49 | the letters and digits are exactly those of the input, in order |
| ClusterNames.CollapseRunsOfCollapsed | cmd/get_clustername.go:49 | text already made of letters, digits and single dashes is unchanged |
| ClusterNames.CollapseRunsIdempotent | cmd/get_clustername.go:49 | replacing twice is replacing once |
| ClusterNames.ClusterName | cmd/get_clustername.go:34-53 | at most 50 characters from [0-9a-z-], without "--", the prefix of the lower-cased collapsed name |
| ClusterNames.ClusterNameKeepsAlnums | cmd/get_clustername.go:48-50 | before truncation the letters and digits are the lower-cased ones of user, branch, hash prefix and dirty marker |
| ClusterNames.AlnumsOfLower | cmd/get_clustername.go:50 | lower-casing commutes with keeping letters and digits |
| ClusterNames.ClusterNameExample | cmd/get_clustername.go:34-53 | user unset, branch "main", hash "abcdef0123", clean worktree give "unknown-main-abcdef" |

## Left out

- Image reference parsing (`name.ParseReference`, `RepositoryStr`) is an input function, `repositoryOf`. It is go-containerregistry code.
- `url.Parse` is an input function returning the path or the parse error.
- The filesystem probe `isDirectory` is an input function.
- Registry lookups are not modelled:
  - `Image.Desc` is abstract as `described`, a predicate on the image it describes. Go passes `Url()` and reaches the network.
  - `ListTags` and `DescImage` (internal/image.go:33-51) call the network only and are left out.
- Remote git operations are input functions: the `Git` methods `LsRemote`, `HasBranch` and `MainBranch`. The file that defines them is not part of this model.
- Reading the main repository is abstract:
  - `GetBranch`, `GetRevision(hash)`, `GetHeadRevision`, `GetName`, `Head` and the worktree root are inputs.
  - `NewGit` and `NewConfig` are inputs, given as their results. Reading `.ciux.yaml` (internal/config.go) is not part of this model.
- go-git's repository is abstract as data:
  - the tag reference list;
  - the tag-object targets;
  - the worktree status;
  - the head;
  - the commit log in committer-time order;
  - the parent lists;
  - the patch between two commits.
- `GitLsRemote` (internal/git.go:55-95) only logs remote tags. It is left out.
- `GitBranchName` (internal/git.go:44-51) only wraps `Head()` and is left out.
- Label selectors are abstract:
  - `labels.Parse` is an input function.
  - A selector is its printed text and its matching predicate.
- Semantic-version parsing, printing and the release-candidate reader are a caller-supplied `Codec`. They are not in the modelled files.
- Logging (`slog`, `log.IsDebugEnabled`), `Infof` printing, the cobra command wiring under cmd/ and `FailOnError` are left out. They have no effect on results.
- Other methods of internal/project.go are left out: `String`, `RetrieveDepsSources`, `AddInPlaceDepsSources`, `CheckDepImages`, `InstallGoModules` and `WriteOutConfig`. They perform file, shell or network I/O.
- The Go error messages that wrap a cause (`fmt.Errorf("unable to ...: %v", err)`) are modelled by the cause itself. The differing messages of `IsFileInSourcePathes` and `IsPathInSubdirectory` become one `InvalidArgument` kind naming the refused path.
- Text.ToLower: the case mapping covers ASCII letters only. Go maps all of Unicode.
- Text.ToUpper: ASCII letters only, as for `ToLower`.
- Strings are sequences of characters, not Go's UTF-8 bytes. `%.6s` and `%.50s` count characters, as Go's precision does.
- GitRevisions.UpgradeTag: `BumpIndexable` requires that the caller-supplied release-candidate reader reports a candidate n other than -1 only for a version with a pre-release. Go indexes `Prerelease[0]` at internal/gitrevision.go:52 and panics on a version without one.
- GitRevisions.GetVersion: requires a hash of at least seven characters when the counter is not zero. Go's slice `rev.Hash[0:7]` panics otherwise.
- GitRepository.FindCodeChange: on a failure after some steps Go also returns the partial list. The model returns only the error.
- GitRepository.FindCodeChange: requires first-parent chains to be finite, which every git history ensures.
- Projects.Project.ScanRemoteDeps: the Go object is a value copied by `NewProject`. The model makes it a class, so aliasing of `Project` values is not captured.
- The image `TemporaryRegistry` field is carried but never set by the modelled code.

Places where the code and its tests or comments disagree follow the code:

- Lightweight semantic-version tags are recorded in the tag map (internal/git.go:27-28).
- `UpgradeTag` returns "v0" for an untagged revision (internal/gitrevision.go:35-37).
- `FindCodeChange` does not include a root commit reached by the walk without any change (internal/git_repository.go:67-84).
- internal/git_repository.go:24 and :38 call `IsFileInSourcePathes(path, pathes)` with two arguments, where internal/utils.go:80 declares three (`root, filePath, sourcePathes`); the Go package does not compile as written. The model gives `HasDiff` and `FindCodeChange` a root of their own, the `root` of their `Scope`, and `Project.GetImageName` passes the worktree root, which stands for the discarded result of `gitMain.GetRoot()` at internal/project.go:467.
