/** internal/git_repository.go: whether a commit changes the source paths, and
    the walk back along first parents to the latest source change. The commit
    objects are a map from hash to parent hashes; the patch between two commits
    is an oracle. */
module GitRepository {
  import opened Errors
  import opened Utils
  import opened Git

  /** A file patch: the file before and after; an added file has no "from"
      side and a deleted one no "to" side. */
  datatype FilePatch = FilePatch(from: Option<string>, to: Option<string>)

  /** The source paths and what they are relative to. */
  datatype Scope = Scope(root: string, pathes: seq<string>, isDirectory: string -> Result<bool>)

  /** The history `FindCodeChange` walks: the commit objects by hash with their
      parent hashes, and `ancestor.Patch(current)`. */
  datatype History = History(parents: map<Hash, seq<Hash>>, patch: (Hash, Hash) -> Result<seq<FilePatch>>)

  function InScope(scope: Scope, path: string): Result<bool> {
    FileInSourcePathes(scope.root, path, scope.pathes, scope.isDirectory)
  }

  /** The path a file patch is judged by: the "from" path when there is one,
      the "to" path otherwise. */
  function PatchPath(fp: FilePatch): (r: Option<string>)
    ensures r.None? <==> fp.from.None? && fp.to.None?
    ensures fp.from.Some? ==> r == fp.from
  {
    if fp.from.Some? then fp.from else fp.to
  }

  /** The file patches in order; the first in-scope path or the first failing
      check decides. */
  function DiffScan(fps: seq<FilePatch>, scope: Scope): Result<bool> {
    if fps == [] then Ok(false)
    else if PatchPath(fps[0]).None? then DiffScan(fps[1..], scope)
    else
      match InScope(scope, PatchPath(fps[0]).value)
      case Err(e) => Err(e)
      case Ok(inScope) => if inScope then Ok(true) else DiffScan(fps[1..], scope)
  }

  function HasDiffOf(current: Hash, ancestor: Hash, history: History, scope: Scope): (r: Result<bool>)
    ensures history.patch(ancestor, current).Err? ==> r == Err(history.patch(ancestor, current).error)
    ensures r.Ok? ==> history.patch(ancestor, current).Ok?
    ensures r == Ok(true) ==> SomeInScope(history.patch(ancestor, current).value, scope)
    ensures r == Ok(false) ==> NoneInScope(history.patch(ancestor, current).value, scope)
  {
    match history.patch(ancestor, current)
    case Err(e) => Err(e)
    case Ok(fps) => DiffScanFound(fps, scope); DiffScanUnchanged(fps, scope); DiffScan(fps, scope)
  }

  /** Some patched path is judged in scope. */
  ghost predicate SomeInScope(fps: seq<FilePatch>, scope: Scope) {
    exists k :: 0 <= k < |fps| && PatchPath(fps[k]).Some? && InScope(scope, PatchPath(fps[k]).value) == Ok(true)
  }

  /** Every patched path is judged out of scope. */
  ghost predicate NoneInScope(fps: seq<FilePatch>, scope: Scope) {
    forall k :: 0 <= k < |fps| && PatchPath(fps[k]).Some? ==> InScope(scope, PatchPath(fps[k]).value) == Ok(false)
  }

  /** A "changed" verdict comes from an in-scope path. */
  lemma {:induction false} DiffScanFound(fps: seq<FilePatch>, scope: Scope)
    ensures DiffScan(fps, scope) == Ok(true) ==> SomeInScope(fps, scope)
  {
    if fps != [] && DiffScan(fps, scope) == Ok(true) {
      var rest := fps[1..];
      if PatchPath(fps[0]).Some? && InScope(scope, PatchPath(fps[0]).value) == Ok(true) {
        assert 0 < |fps|;
      } else {
        assert DiffScan(fps, scope) == DiffScan(rest, scope);
        DiffScanFound(rest, scope);
        var k :| 0 <= k < |rest| && PatchPath(rest[k]).Some? && InScope(scope, PatchPath(rest[k]).value) == Ok(true);
        assert fps[k + 1] == rest[k];
      }
    }
  }

  /** An "unchanged" verdict comes from every path being judged out of scope. */
  lemma {:induction false} DiffScanUnchanged(fps: seq<FilePatch>, scope: Scope)
    ensures DiffScan(fps, scope) == Ok(false) ==> NoneInScope(fps, scope)
  {
    if fps != [] && DiffScan(fps, scope) == Ok(false) {
      var rest := fps[1..];
      assert DiffScan(fps, scope) == DiffScan(rest, scope);
      DiffScanUnchanged(rest, scope);
      forall k | 0 < k < |fps| ensures fps[k] == rest[k - 1] { }
    }
  }

  /** `HasDiff`: whether the patch from `ancestor` to `current` touches a file in
      the source paths. */
  method HasDiff(current: Hash, ancestor: Hash, history: History, scope: Scope) returns (r: Result<bool>)
    ensures r == HasDiffOf(current, ancestor, history, scope)
  {
    var patch := history.patch(ancestor, current);
    if patch.Err? {
      return Err(patch.error);
    }
    var fps := patch.value;
    var i := 0;
    while i < |fps|
      invariant 0 <= i <= |fps|
      invariant DiffScan(fps, scope) == DiffScan(fps[i..], scope)
    {
      var fp := fps[i];
      assert fps[i..][1..] == fps[i + 1..];
      if fp.from.Some? {
        var codeChange := IsFileInSourcePathes(scope.root, fp.from.value, scope.pathes, scope.isDirectory);
        if codeChange.Err? {
          return Err(codeChange.error);
        }
        if codeChange.value {
          return Ok(true);
        }
      } else if fp.to.Some? {
        var codeChange := IsFileInSourcePathes(scope.root, fp.to.value, scope.pathes, scope.isDirectory);
        if codeChange.Err? {
          return Err(codeChange.error);
        }
        if codeChange.value {
          return Ok(true);
        }
      }
      i := i + 1;
    }
    return Ok(false);
  }

  /** Without failing checks, a patch is a change exactly when one of its paths
      is in scope; a failure is the failure of some path's check. */
  lemma DiffScanMeaning(fps: seq<FilePatch>, scope: Scope)
    ensures (forall j :: 0 <= j < |fps| && PatchPath(fps[j]).Some? ==> InScope(scope, PatchPath(fps[j]).value).Ok?) ==>
      DiffScan(fps, scope) == Ok(exists k :: 0 <= k < |fps| && PatchPath(fps[k]).Some? && InScope(scope, PatchPath(fps[k]).value) == Ok(true))
    ensures DiffScan(fps, scope).Err? ==>
      exists k :: 0 <= k < |fps| && PatchPath(fps[k]).Some? && InScope(scope, PatchPath(fps[k]).value) == Err(DiffScan(fps, scope).error)
  {
    DiffScanDecides(fps, scope);
    DiffScanErrorOf(fps, scope);
  }

  lemma {:induction false} DiffScanDecides(fps: seq<FilePatch>, scope: Scope)
    ensures (forall j :: 0 <= j < |fps| && PatchPath(fps[j]).Some? ==> InScope(scope, PatchPath(fps[j]).value).Ok?) ==>
      DiffScan(fps, scope) == Ok(exists k :: 0 <= k < |fps| && PatchPath(fps[k]).Some? && InScope(scope, PatchPath(fps[k]).value) == Ok(true))
  {
    if fps != [] {
      var rest := fps[1..];
      DiffScanDecides(rest, scope);
      forall j | 0 <= j < |rest| ensures rest[j] == fps[j + 1] { }
      if (exists k :: 0 <= k < |fps| && PatchPath(fps[k]).Some? && InScope(scope, PatchPath(fps[k]).value) == Ok(true)) {
        var k :| 0 <= k < |fps| && PatchPath(fps[k]).Some? && InScope(scope, PatchPath(fps[k]).value) == Ok(true);
        if k > 0 && DiffScan(fps, scope) == DiffScan(rest, scope) {
          assert rest[k - 1] == fps[k];
        }
      }
    }
  }

  lemma {:induction false} DiffScanErrorOf(fps: seq<FilePatch>, scope: Scope)
    ensures DiffScan(fps, scope).Err? ==>
      exists k :: 0 <= k < |fps| && PatchPath(fps[k]).Some? && InScope(scope, PatchPath(fps[k]).value) == Err(DiffScan(fps, scope).error)
  {
    if fps != [] {
      var rest := fps[1..];
      DiffScanErrorOf(rest, scope);
      if DiffScan(fps, scope).Err? && DiffScan(fps, scope) == DiffScan(rest, scope) {
        var k :| 0 <= k < |rest| && PatchPath(rest[k]).Some? && InScope(scope, PatchPath(rest[k]).value) == Err(DiffScan(rest, scope).error);
        assert rest[k] == fps[k + 1];
      }
    }
  }

  /** Only the path each patch is judged by matters: when a "from" side exists
      the "to" side is never looked at. */
  lemma {:induction false} DiffScanReadsPatchPathOnly(fps1: seq<FilePatch>, fps2: seq<FilePatch>, scope: Scope)
    requires |fps1| == |fps2|
    requires forall i :: 0 <= i < |fps1| ==> PatchPath(fps1[i]) == PatchPath(fps2[i])
    ensures DiffScan(fps1, scope) == DiffScan(fps2, scope)
  {
    if fps1 != [] {
      assert forall i :: 0 <= i < |fps1| - 1 ==> fps1[1..][i] == fps1[i + 1] && fps2[1..][i] == fps2[i + 1];
      DiffScanReadsPatchPathOnly(fps1[1..], fps2[1..], scope);
    }
  }

  // ---------------------------------------------------------- FindCodeChange

  /** Following first parents always reaches a commit of lower rank. */
  ghost predicate FirstParentRanked(parents: map<Hash, seq<Hash>>, rank: map<Hash, nat>) {
    forall c :: c in parents ==>
      (c in rank && (|parents[c]| > 0 && parents[c][0] in parents ==> parents[c][0] in rank && rank[parents[c][0]] < rank[c]))
  }

  /** The first-parent chains of the history are finite, as in any git history. */
  ghost predicate Acyclic(parents: map<Hash, seq<Hash>>) {
    exists rank :: FirstParentRanked(parents, rank)
  }

  ghost function RankOf(parents: map<Hash, seq<Hash>>): (rank: map<Hash, nat>)
    requires Acyclic(parents)
    ensures FirstParentRanked(parents, rank)
  {
    var rank :| FirstParentRanked(parents, rank); rank
  }

  /** The commits on the first-parent chain from `c`, `c` included. */
  ghost function FirstParentDepth(parents: map<Hash, seq<Hash>>, c: Hash): nat
    requires Acyclic(parents)
    requires c in parents
    decreases RankOf(parents)[c]
  {
    if |parents[c]| == 0 || parents[c][0] !in parents then 1
    else 1 + FirstParentDepth(parents, parents[c][0])
  }

  /** Walking down first parents from `c`, through commits without a change,
      reaches a commit whose first parent is not in the history or whose diff
      against that parent fails. */
  ghost predicate Blocked(c: Hash, history: History, scope: Scope)
    requires Acyclic(history.parents)
    requires c in history.parents
    decreases RankOf(history.parents)[c]
  {
    var parents := history.parents;
    if |parents[c]| == 0 then false
    else
      var p := parents[c][0];
      p !in parents || HasDiffOf(c, p, history, scope).Err? ||
      (HasDiffOf(c, p, history, scope) == Ok(false) && Blocked(p, history, scope))
  }

  /** The loop of `FindCodeChange` from a commit that has parents, newest first:
      each commit is kept; the walk stops after a commit with a change, and at a
      commit without parents, which is not kept. */
  ghost function Chain(c: Hash, history: History, scope: Scope): (r: Result<seq<Hash>>)
    requires Acyclic(history.parents)
    requires c in history.parents
    ensures r.Ok? && |history.parents[c]| > 0 ==> r.value != [] && r.value[0] == c
    ensures r.Ok? ==> forall i :: 0 <= i < |r.value| ==> r.value[i] in history.parents
    ensures r.Err? <==> Blocked(c, history, scope)
    decreases RankOf(history.parents)[c]
  {
    var parents := history.parents;
    if |parents[c]| == 0 then Ok([])
    else
      var p := parents[c][0];
      if p !in parents then Err(Vcs(p))
      else
        match HasDiffOf(c, p, history, scope)
        case Err(e) => Err(e)
        case Ok(changed) =>
          if changed then Ok([c])
          else
            match Chain(p, history, scope)
            case Err(e) => Err(e)
            case Ok(rest) => Ok([c] + rest)
  }

  function Reversed(s: seq<Hash>): (r: seq<Hash>)
    ensures |r| == |s|
    ensures forall i :: 0 <= i < |s| ==> r[i] == s[|s| - 1 - i]
  {
    if s == [] then [] else Reversed(s[1..]) + [s[0]]
  }

  /** What `FindCodeChange` computes, oldest first. */
  ghost function CodeChangeOf(fromHash: Hash, history: History, scope: Scope): (r: Result<seq<Hash>>)
    requires Acyclic(history.parents)
    ensures fromHash !in history.parents ==> r == Err(Vcs(fromHash))
    ensures r.Ok? ==> |r.value| > 0 && r.value[|r.value| - 1] == fromHash
    ensures r.Ok? ==> forall i :: 0 <= i < |r.value| ==> r.value[i] in history.parents
    ensures r.Err? <==> fromHash !in history.parents || Blocked(fromHash, history, scope)
  {
    if fromHash !in history.parents then Err(Vcs(fromHash))
    else if |history.parents[fromHash]| == 0 then Ok([fromHash])
    else
      match Chain(fromHash, history, scope)
      case Err(e) => Err(e)
      case Ok(hashes) => Ok(Reversed(hashes))
  }

  function Prepend(hashes: seq<Hash>, r: Result<seq<Hash>>): Result<seq<Hash>> {
    match r
    case Err(e) => Err(e)
    case Ok(rest) => Ok(hashes + rest)
  }

  lemma PrependPrepend(a: seq<Hash>, b: seq<Hash>, r: Result<seq<Hash>>)
    ensures Prepend(a, Prepend(b, r)) == Prepend(a + b, r)
    ensures Prepend([], r) == r
  {
    match r
    case Err(_) =>
    case Ok(rest) =>
      assert a + (b + rest) == a + b + rest;
      assert [] + rest == rest;
  }

  /** `slices.Reverse`: reverses the array in place. */
  method Reverse(a: array<Hash>)
    modifies a
    ensures a[..] == Reversed(old(a[..]))
  {
    var i, j := 0, a.Length - 1;
    while i < j
      invariant 0 <= i <= a.Length && j == a.Length - 1 - i
      invariant i <= j + 1
      invariant forall k :: 0 <= k < i ==> a[k] == old(a[a.Length - 1 - k]) && a[a.Length - 1 - k] == old(a[k])
      invariant forall k :: i <= k <= j ==> a[k] == old(a[k])
    {
      a[i], a[j] := a[j], a[i];
      i, j := i + 1, j - 1;
    }
  }

  /** `FindCodeChange`: the latest commit on the first-parent chain from
      `fromHash` that changes the source paths, followed by the commits after it
      up to `fromHash`. */
  method FindCodeChange(history: History, fromHash: Hash, scope: Scope) returns (r: Result<seq<Hash>>)
    requires Acyclic(history.parents)
    ensures r == CodeChangeOf(fromHash, history, scope)
  {
    var parents := history.parents;
    if fromHash !in parents {
      return Err(Vcs(fromHash));
    }
    var current := fromHash;
    var hashes: seq<Hash> := [];
    if |parents[current]| == 0 {
      hashes := hashes + [current];
      assert hashes == [fromHash];
      return Ok(hashes);
    }
    ghost var rank := RankOf(parents);
    PrependPrepend([], [], Chain(fromHash, history, scope));
    while |parents[current]| != 0
      invariant current in parents
      invariant Chain(fromHash, history, scope) == Prepend(hashes, Chain(current, history, scope))
      decreases rank[current]
    {
      var parent := parents[current][0];
      if parent !in parents {
        return Err(Vcs(parent));
      }
      var changed := HasDiff(current, parent, history, scope);
      if changed.Err? {
        return Err(changed.error);
      } else if changed.value {
        assert Chain(current, history, scope) == Ok([current]);
        hashes := hashes + [current];
        break;
      }
      assert Chain(current, history, scope) == Prepend([current], Chain(parent, history, scope));
      PrependPrepend(hashes, [current], Chain(parent, history, scope));
      hashes := hashes + [current];
      current := parent;
    }
    assert Chain(fromHash, history, scope) == Ok(hashes) by {
      assert hashes + [] == hashes;
    }
    var a := new Hash[|hashes|](i requires 0 <= i < |hashes| => hashes[i]);
    assert a[..] == hashes;
    Reverse(a);
    return Ok(a[..]);
  }
  /** `p` is the first parent of `c`. */
  ghost predicate FirstParentIs(parents: map<Hash, seq<Hash>>, c: Hash, p: Hash) {
    c in parents && |parents[c]| > 0 && parents[c][0] == p
  }

  /** `c` has a first parent and does not change the source paths against it. */
  ghost predicate Unchanged(c: Hash, history: History, scope: Scope) {
    c in history.parents && |history.parents[c]| > 0 &&
    HasDiffOf(c, history.parents[c][0], history, scope) == Ok(false)
  }

  /** Where a walk ends: a root, a commit that changes the source paths against
      its first parent, or a commit whose first parent is a root. */
  ghost predicate Boundary(c: Hash, history: History, scope: Scope) {
    var parents := history.parents;
    c in parents &&
    (|parents[c]| == 0 ||
      (parents[c][0] in parents &&
        (HasDiffOf(c, parents[c][0], history, scope) == Ok(true) || |parents[parents[c][0]]| == 0)))
  }

  /** The chain the loop builds, newest first: it starts at `c`, each element's
      first parent is the next one, every element but the last has no change,
      and the last is a boundary. */
  lemma {:induction false} ChainShape(c: Hash, history: History, scope: Scope)
    requires Acyclic(history.parents)
    requires c in history.parents
    requires Chain(c, history, scope).Ok?
    ensures |history.parents[c]| > 0 <==> |Chain(c, history, scope).value| > 0
    ensures |Chain(c, history, scope).value| > 0 ==> Chain(c, history, scope).value[0] == c
    ensures |Chain(c, history, scope).value| < FirstParentDepth(history.parents, c)
    ensures |Chain(c, history, scope).value| > 0 ==>
      |history.parents[Chain(c, history, scope).value[|Chain(c, history, scope).value| - 1]]| > 0
    decreases RankOf(history.parents)[c]
  {
    var parents := history.parents;
    if |parents[c]| > 0 {
      var p := parents[c][0];
      if HasDiffOf(c, p, history, scope) == Ok(false) {
        ChainShape(p, history, scope);
        var rest := Chain(p, history, scope).value;
        var hs := Chain(c, history, scope).value;
        assert hs == [c] + rest;
        if rest != [] {
          assert hs[|hs| - 1] == rest[|rest| - 1];
        }
      }
    }
  }

  lemma {:induction false} ChainLinks(c: Hash, history: History, scope: Scope)
    requires Acyclic(history.parents)
    requires c in history.parents
    requires Chain(c, history, scope).Ok?
    ensures forall i :: 0 <= i < |Chain(c, history, scope).value| - 1 ==>
      FirstParentIs(history.parents, Chain(c, history, scope).value[i], Chain(c, history, scope).value[i + 1])
    ensures forall i :: 0 <= i < |Chain(c, history, scope).value| - 1 ==> Unchanged(Chain(c, history, scope).value[i], history, scope)
    ensures |Chain(c, history, scope).value| > 0 ==>
      Boundary(Chain(c, history, scope).value[|Chain(c, history, scope).value| - 1], history, scope)
    decreases RankOf(history.parents)[c]
  {
    var parents := history.parents;
    if |parents[c]| > 0 {
      var p := parents[c][0];
      if HasDiffOf(c, p, history, scope) == Ok(false) {
        ChainLinks(p, history, scope);
        ChainShape(p, history, scope);
        var rest := Chain(p, history, scope).value;
        var hs := Chain(c, history, scope).value;
        assert hs == [c] + rest;
        forall i | 0 <= i < |rest| ensures hs[i + 1] == rest[i] { }
      }
    }
  }

  /** What `FindCodeChange` promises, oldest first: the list ends with
      `fromHash` and is exactly [fromHash] when that is a root commit; each
      element is the first parent of the one after it; every element but the
      first has no change against its first parent; the first is a boundary;
      and the list is no longer than the first-parent chain from `fromHash`. */
  lemma CodeChangeShape(fromHash: Hash, history: History, scope: Scope)
    requires Acyclic(history.parents)
    requires CodeChangeOf(fromHash, history, scope).Ok?
    ensures fromHash in history.parents
    ensures var hs := CodeChangeOf(fromHash, history, scope).value;
      |hs| > 0 && hs[|hs| - 1] == fromHash
    ensures |history.parents[fromHash]| == 0 ==> CodeChangeOf(fromHash, history, scope).value == [fromHash]
    ensures var hs := CodeChangeOf(fromHash, history, scope).value;
      forall i :: 0 <= i < |hs| - 1 ==> FirstParentIs(history.parents, hs[i + 1], hs[i])
    ensures var hs := CodeChangeOf(fromHash, history, scope).value;
      forall i :: 1 <= i < |hs| ==> Unchanged(hs[i], history, scope)
    ensures Boundary(CodeChangeOf(fromHash, history, scope).value[0], history, scope)
    ensures |CodeChangeOf(fromHash, history, scope).value| <= FirstParentDepth(history.parents, fromHash)
    ensures var hs := CodeChangeOf(fromHash, history, scope).value;
      |history.parents[fromHash]| > 0 ==> |hs| < FirstParentDepth(history.parents, fromHash) && |history.parents[hs[0]]| > 0
  {
    var parents := history.parents;
    if |parents[fromHash]| > 0 {
      ChainShape(fromHash, history, scope);
      ChainLinks(fromHash, history, scope);
      var chain := Chain(fromHash, history, scope).value;
      ReversedLinks(chain, parents);
      ReversedUnchanged(chain, history, scope);
    }
  }

  /** Read from the end, a chain of first parents links each element to the
      one before it. */
  lemma ReversedLinks(chain: seq<Hash>, parents: map<Hash, seq<Hash>>)
    requires forall i :: 0 <= i < |chain| - 1 ==> FirstParentIs(parents, chain[i], chain[i + 1])
    ensures var hs := Reversed(chain);
      forall i :: 0 <= i < |hs| - 1 ==> FirstParentIs(parents, hs[i + 1], hs[i])
  {
    var hs := Reversed(chain);
    forall i | 0 <= i < |hs| - 1
      ensures FirstParentIs(parents, hs[i + 1], hs[i])
    {
      assert hs[i + 1] == chain[|chain| - 2 - i] && hs[i] == chain[|chain| - 2 - i + 1];
    }
  }

  /** Read from the end, a chain unchanged but for its last element is
      unchanged but for its first. */
  lemma ReversedUnchanged(chain: seq<Hash>, history: History, scope: Scope)
    requires forall i :: 0 <= i < |chain| - 1 ==> Unchanged(chain[i], history, scope)
    ensures var hs := Reversed(chain);
      forall i :: 1 <= i < |hs| ==> Unchanged(hs[i], history, scope)
  {
    var hs := Reversed(chain);
    forall i | 1 <= i < |hs|
      ensures Unchanged(hs[i], history, scope)
    {
      assert hs[i] == chain[|chain| - 1 - i];
    }
  }

  /** A walk that reaches the root without a change leaves the root out: on a
      two-commit history with no change, the result is the newer commit alone. */
  lemma RootExcludedExample(history: History, scope: Scope)
    requires history.parents == map["b" := ["a"], "a" := []]
    requires forall x, y :: history.patch(x, y) == Ok([])
    ensures Acyclic(history.parents)
    ensures CodeChangeOf("b", history, scope) == Ok(["b"])
  {
    var rank: map<Hash, nat> := map["b" := 1, "a" := 0];
    assert "a" != "b";
    assert FirstParentRanked(history.parents, rank);
    assert HasDiffOf("b", "a", history, scope) == Ok(false);
    assert Chain("a", history, scope) == Ok([]);
    assert history.parents["b"][0] == "a" && "a" in history.parents;
    assert ["b"] + [] == ["b"];
    assert Chain("b", history, scope) == Ok(["b"]);
    assert Reversed(["b"]) == ["b"];
  }
}
