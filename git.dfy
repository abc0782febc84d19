/** internal/git.go: the index of semantic-version tags and `GitDescribe`.
    The repository is an abstract snapshot of what go-git reports: the worktree
    status, HEAD, the tag references, the tag objects, the log from HEAD in
    committer-time order, and the parent list of every commit. */
module Git {
  import opened Errors
  import opened SemVers

  type Hash = string

  /** A tag reference: its short name and the hash it points to (a commit for a
      lightweight tag, a tag object for an annotated one). */
  datatype TagRef = TagRef(name: string, hash: Hash)

  datatype Repository = Repository(
    clean: Result<bool>,                  // `Worktree().Status().IsClean()`
    head: Result<Hash>,                   // `Head().Hash()`
    tags: Result<seq<TagRef>>,            // `Tags()`
    tagTargets: map<Hash, Result<Hash>>,  // tag object hash to `tag.Commit()`; absent when there is no tag object
    log: Result<seq<Hash>>,               // `Log(From: HEAD, Order: committer time)`
    parents: map<Hash, seq<Hash>>)        // `Parents()` of each commit

  function ParentsOf(parents: map<Hash, seq<Hash>>, c: Hash): seq<Hash> {
    if c in parents then parents[c] else []
  }

  // ---------------------------------------------------------------- GitTagMap

  /** One reference of the tag scan: names that are not semantic versions are
      skipped; a lightweight tag is keyed by its own hash, an annotated one by
      the commit its tag object targets, whose failure aborts the scan. */
  function TagStep(m: map<Hash, string>, ref: TagRef, tagTargets: map<Hash, Result<Hash>>, codec: Codec): (r: Result<map<Hash, string>>)
    ensures codec.parse(ref.name).None? ==> r == Ok(m)
    ensures r.Err? <==> codec.parse(ref.name).Some? && ref.hash in tagTargets && tagTargets[ref.hash].Err?
    ensures r.Ok? ==> forall k :: k in m ==> k in r.value
    ensures r.Ok? ==> forall k :: k in r.value ==>
      (k in m && r.value[k] == m[k]) || (r.value[k] == ref.name && Names(ref, k, tagTargets))
    ensures r.Ok? && codec.parse(ref.name).Some? ==>
      forall k :: Names(ref, k, tagTargets) ==> k in r.value && r.value[k] == ref.name
  {
    if codec.parse(ref.name).None? then Ok(m)
    else if ref.hash !in tagTargets then Ok(m[ref.hash := ref.name])
    else match tagTargets[ref.hash]
      case Err(e) => Err(e)
      case Ok(c) => Ok(m[c := ref.name])
  }

  /** The scan of the references in order. */
  function TagScan(refs: seq<TagRef>, tagTargets: map<Hash, Result<Hash>>, codec: Codec): (r: Result<map<Hash, string>>)
    ensures r.Ok? ==> forall k :: k in r.value ==> codec.parse(r.value[k]).Some?
  {
    if refs == [] then Ok(map[])
    else
      match TagScan(refs[..|refs| - 1], tagTargets, codec)
      case Err(e) => Err(e)
      case Ok(m) => TagStep(m, refs[|refs| - 1], tagTargets, codec)
  }

  function TagMapOf(repo: Repository, codec: Codec): Result<map<Hash, string>> {
    if repo.tags.Err? then Err(repo.tags.error) else TagScan(repo.tags.value, repo.tagTargets, codec)
  }

  /** `GitTagMap`: the semantic-version tags, keyed by the commit they name. */
  method GitTagMap(repo: Repository, codec: Codec) returns (r: Result<map<Hash, string>>)
    ensures repo.tags.Err? ==> r == Err(repo.tags.error)
    ensures repo.tags == Ok([]) ==> r == Ok(map[])
    ensures repo.tags.Ok? ==> r == TagScan(repo.tags.value, repo.tagTargets, codec)
  {
    if repo.tags.Err? {
      return Err(repo.tags.error);
    }
    var refs := repo.tags.value;
    var tagMap: map<Hash, string> := map[];
    var i := 0;
    while i < |refs|
      invariant 0 <= i <= |refs|
      invariant TagScan(refs[..i], repo.tagTargets, codec) == Ok(tagMap)
    {
      var ref := refs[i];
      assert refs[..i + 1][..i] == refs[..i];
      if codec.parse(ref.name).Some? {
        if ref.hash !in repo.tagTargets {
          tagMap := tagMap[ref.hash := ref.name];
        } else {
          var c := repo.tagTargets[ref.hash];
          if c.Err? {
            assert TagScan(refs[..i + 1], repo.tagTargets, codec) == Err(c.error);
            TagScanErrorSticks(refs, i + 1, repo.tagTargets, codec);
            return Err(c.error);
          }
          tagMap := tagMap[c.value := ref.name];
        }
      }
      i := i + 1;
    }
    assert refs[..|refs|] == refs;
    return Ok(tagMap);
  }

  /** Once the scan fails it stays failed with the same error. */
  lemma {:induction false} TagScanErrorSticks(refs: seq<TagRef>, i: nat, tagTargets: map<Hash, Result<Hash>>, codec: Codec)
    requires i <= |refs|
    requires TagScan(refs[..i], tagTargets, codec).Err?
    ensures TagScan(refs, tagTargets, codec) == TagScan(refs[..i], tagTargets, codec)
    decreases |refs| - i
  {
    if i < |refs| {
      assert refs[..i + 1][..i] == refs[..i];
      TagScanErrorSticks(refs, i + 1, tagTargets, codec);
    } else {
      assert refs[..i] == refs;
    }
  }

  /** The commit a reference names: its own hash for a lightweight tag, the
      target of its tag object for an annotated one. */
  ghost predicate Names(ref: TagRef, k: Hash, tagTargets: map<Hash, Result<Hash>>) {
    if ref.hash in tagTargets then tagTargets[ref.hash] == Ok(k) else k == ref.hash
  }

  /** Every entry of the map comes from a reference with a semantic-version name
      that names the key. */
  ghost predicate EntriesSound(refs: seq<TagRef>, m: map<Hash, string>, tagTargets: map<Hash, Result<Hash>>, codec: Codec) {
    forall k :: k in m ==>
      (codec.parse(m[k]).Some? && exists j :: 0 <= j < |refs| && refs[j].name == m[k] && Names(refs[j], k, tagTargets))
  }

  /** Every reference with a semantic-version name has the commit it names in the map. */
  ghost predicate EntriesComplete(refs: seq<TagRef>, m: map<Hash, string>, tagTargets: map<Hash, Result<Hash>>, codec: Codec) {
    forall j, k :: 0 <= j < |refs| && codec.parse(refs[j].name).Some? && Names(refs[j], k, tagTargets) ==> k in m
  }

  /** Every value of the tag map is a semantic-version tag name whose reference
      names the key (so a lightweight tag is keyed by its own hash and an
      annotated one by its target commit), and no such reference is missing. */
  lemma {:induction false} TagScanEntries(refs: seq<TagRef>, tagTargets: map<Hash, Result<Hash>>, codec: Codec)
    ensures TagScan(refs, tagTargets, codec).Ok? ==>
      && EntriesSound(refs, TagScan(refs, tagTargets, codec).value, tagTargets, codec)
      && EntriesComplete(refs, TagScan(refs, tagTargets, codec).value, tagTargets, codec)
  {
    if refs != [] && TagScan(refs, tagTargets, codec).Ok? {
      var init := refs[..|refs| - 1];
      var last := refs[|refs| - 1];
      TagScanEntries(init, tagTargets, codec);
      assert TagScan(init, tagTargets, codec).Ok?;
      var m0 := TagScan(init, tagTargets, codec).value;
      var m := TagScan(refs, tagTargets, codec).value;
      assert EntriesSound(init, m0, tagTargets, codec) && EntriesComplete(init, m0, tagTargets, codec);
      assert TagStep(m0, last, tagTargets, codec) == Ok(m);
      forall j | 0 <= j < |init| ensures refs[j] == init[j] { }
      forall k | k in m
        ensures codec.parse(m[k]).Some? && exists j :: 0 <= j < |refs| && refs[j].name == m[k] && Names(refs[j], k, tagTargets)
      {
        if k in m0 && m[k] == m0[k] {
          var j :| 0 <= j < |init| && init[j].name == m0[k] && Names(init[j], k, tagTargets);
          assert refs[j].name == m[k] && Names(refs[j], k, tagTargets);
        } else {
          assert m[k] == last.name && Names(last, k, tagTargets);
          assert refs[|refs| - 1] == last;
        }
      }
      forall j, k | 0 <= j < |refs| && codec.parse(refs[j].name).Some? && Names(refs[j], k, tagTargets)
        ensures k in m
      {
        if j < |init| {
          assert init[j] == refs[j];
          assert k in m0;
        } else {
          assert refs[j] == last;
        }
      }
    }
  }

  /** The scan fails exactly when a reference with a semantic-version name has a
      tag object whose commit cannot be resolved, with the first such error. */
  lemma {:induction false} TagScanFails(refs: seq<TagRef>, tagTargets: map<Hash, Result<Hash>>, codec: Codec)
    ensures TagScan(refs, tagTargets, codec).Err? <==>
      exists j :: 0 <= j < |refs| && codec.parse(refs[j].name).Some? && refs[j].hash in tagTargets && tagTargets[refs[j].hash].Err?
    ensures TagScan(refs, tagTargets, codec).Err? ==>
      exists j :: 0 <= j < |refs| && codec.parse(refs[j].name).Some? && refs[j].hash in tagTargets &&
        tagTargets[refs[j].hash] == Err(TagScan(refs, tagTargets, codec).error)
  {
    if refs != [] {
      var init := refs[..|refs| - 1];
      TagScanFails(init, tagTargets, codec);
      forall j | 0 <= j < |init| ensures refs[j] == init[j] { }
    }
  }

  // ------------------------------------------------------------- GitDescribe

  /** The newly discovered parents get distance `d`; a commit already recorded
      keeps its distance. */
  function AddParents(state: map<Hash, int>, ps: seq<Hash>, d: int): (r: map<Hash, int>)
    ensures forall k :: k in state ==> k in r && r[k] == state[k]
    ensures forall k :: k in r && k !in state ==> k in ps && r[k] == d
    ensures forall i :: 0 <= i < |ps| ==> ps[i] in r
    decreases |ps|
  {
    if ps == [] then state
    else AddParents(if ps[0] in state then state else state[ps[0] := d], ps[1..], d)
  }

  /** The walk's variables: the distance of every discovered commit, the
      counter and the hash of the first tagged commit ("" while none). */
  datatype Walk = Walk(state: map<Hash, int>, counter: int, tagHash: Hash)

  /** One commit of the log: recorded at distance 0 when not yet discovered, its
      parents discovered one further away, and it becomes the tag anchor when it
      is the first tagged commit. */
  function WalkStep(w: Walk, c: Hash, parents: map<Hash, seq<Hash>>, tags: map<Hash, string>): (v: Walk)
    ensures c in v.state
    ensures forall k :: k in w.state ==> k in v.state && v.state[k] == w.state[k]
    ensures c !in w.state ==> v.state[c] == 0
    ensures forall p :: p in ParentsOf(parents, c) ==> p in v.state
    ensures forall k :: k in v.state && k !in w.state && k != c ==>
      k in ParentsOf(parents, c) && v.state[k] == v.state[c] + 1
    ensures w.tagHash == "" && c in tags ==> v.tagHash == c && v.counter == v.state[c]
    ensures !(w.tagHash == "" && c in tags) ==> v.tagHash == w.tagHash && v.counter == w.counter
  {
    var s1 := if c in w.state then w.state else w.state[c := 0];
    var s2 := AddParents(s1, ParentsOf(parents, c), s1[c] + 1);
    if w.tagHash == "" && c in tags then Walk(s2, s2[c], c) else Walk(s2, w.counter, w.tagHash)
  }

  /** The walk over the log from HEAD: every visited commit is recorded, and
      an anchor is always a tagged commit. */
  function WalkLog(log: seq<Hash>, parents: map<Hash, seq<Hash>>, tags: map<Hash, string>): (w: Walk)
    ensures forall i :: 0 <= i < |log| ==> log[i] in w.state
    ensures w.tagHash != "" ==> w.tagHash in tags
  {
    if log == [] then Walk(map[], 0, "")
    else
      var init := log[..|log| - 1];
      assert forall i :: 0 <= i < |init| ==> init[i] == log[i];
      WalkStep(WalkLog(init, parents, tags), log[|log| - 1], parents, tags)
  }

  /** The largest of `start` and every recorded distance plus one. */
  ghost predicate IsMaxPlusOne(state: map<Hash, int>, start: int, counter: int) {
    && counter >= start
    && (forall k :: k in state ==> counter >= state[k] + 1)
    && (counter == start || exists k :: k in state && counter == state[k] + 1)
  }

  /** What `git describe` reports here. */
  datatype Description = Description(tag: string, counter: int, headHash: Hash, dirty: bool)

  /** The largest distance plus one, from 0, is a single number. */
  lemma IsMaxPlusOneUnique(state: map<Hash, int>, c1: int, c2: int)
    requires IsMaxPlusOne(state, 0, c1) && IsMaxPlusOne(state, 0, c2)
    ensures c1 == c2
  {
  }

  /** `git describe` in terms of the log: with no tagged commit, no tag and one
      more than the largest recorded distance (0 for an empty log); otherwise
      the tag of the first tagged commit in log order, at its distance. */
  ghost predicate Describes(log: seq<Hash>, parents: map<Hash, seq<Hash>>, tags: map<Hash, string>, d: Description) {
    var s := WalkLog(log, parents, tags).state;
    if forall i :: 0 <= i < |log| ==> log[i] !in tags then d.tag == "" && IsMaxPlusOne(s, 0, d.counter)
    else
      exists j :: 0 <= j < |log| && log[j] in tags && (forall i :: 0 <= i < j ==> log[i] !in tags) &&
        d.tag == tags[log[j]] && log[j] in s && d.counter == s[log[j]]
  }

  /** The tag and counter a finished walk yields: the anchor's tag and distance,
      or no tag and one more than the largest distance. */
  ghost predicate Concludes(w: Walk, tags: map<Hash, string>, d: Description) {
    if w.tagHash == "" then d.tag == "" && IsMaxPlusOne(w.state, w.counter, d.counter)
    else w.tagHash in tags && d.tag == tags[w.tagHash] && d.counter == w.counter
  }

  /** What the variables of a finished walk conclude is what `Describes`
      states, for a log of real (non-empty) commit hashes. */
  lemma DescribesOfConcludes(log: seq<Hash>, parents: map<Hash, seq<Hash>>, tags: map<Hash, string>, d: Description)
    requires Concludes(WalkLog(log, parents, tags), tags, d)
    ensures (forall i :: 0 <= i < |log| ==> log[i] != "") ==> Describes(log, parents, tags, d)
  {
    if forall i :: 0 <= i < |log| ==> log[i] != "" {
      WalkLogAnchor(log, parents, tags);
      var w := WalkLog(log, parents, tags);
      if w.tagHash != "" {
        var j :| 0 <= j < |log| && log[j] == w.tagHash && log[j] in tags && forall i :: 0 <= i < j ==> log[i] !in tags;
        assert d.tag == tags[log[j]] && d.counter == w.state[log[j]];
      }
    }
  }

  /** The parents loop of `GitDescribe`: each parent not yet recorded gets
      distance `d`. */
  method DiscoverParents(state: map<Hash, int>, ps: seq<Hash>, d: int) returns (s: map<Hash, int>)
    ensures s == AddParents(state, ps, d)
  {
    s := state;
    var j := 0;
    while j < |ps|
      invariant 0 <= j <= |ps|
      invariant AddParents(s, ps[j..], d) == AddParents(state, ps, d)
    {
      var p := ps[j];
      assert ps[j..][1..] == ps[j + 1..];
      if p !in s {
        s := s[p := d];
      }
      j := j + 1;
    }
    assert ps[|ps|..] == [];
  }

  /** The final loop of `GitDescribe` when no tag was found: the counter
      becomes the largest distance plus one, if that exceeds it. */
  method MaxDistancePlusOne(state: map<Hash, int>, start: int) returns (counter: int)
    ensures IsMaxPlusOne(state, start, counter)
  {
    counter := start;
    var keys := state.Keys;
    ghost var seen: set<Hash> := {};
    while keys != {}
      invariant keys + seen == state.Keys && keys !! seen
      invariant counter >= start
      invariant forall k :: k in seen ==> counter >= state[k] + 1
      invariant counter == start || exists k :: k in seen && counter == state[k] + 1
      decreases keys
    {
      var k :| k in keys;
      if state[k] + 1 > counter {
        counter := state[k] + 1;
      }
      keys := keys - {k};
      seen := seen + {k};
    }
  }

  /** The log loop of `GitDescribe`. */
  method WalkCommits(commits: seq<Hash>, parents: map<Hash, seq<Hash>>, tagMap: map<Hash, string>)
    returns (state: map<Hash, int>, counter: int, tagHash: Hash)
    ensures Walk(state, counter, tagHash) == WalkLog(commits, parents, tagMap)
    ensures tagHash != "" ==> tagHash in tagMap
  {
    state, counter, tagHash := map[], 0, "";
    var i := 0;
    while i < |commits|
      invariant 0 <= i <= |commits|
      invariant Walk(state, counter, tagHash) == WalkLog(commits[..i], parents, tagMap)
      invariant tagHash != "" ==> tagHash in tagMap
    {
      WalkLogLast(commits, i + 1, parents, tagMap);
      assert commits[..i + 1][i] == commits[i];
      state, counter, tagHash := VisitCommit(state, counter, tagHash, commits[i], parents, tagMap);
      i := i + 1;
    }
    assert commits[..|commits|] == commits;
  }

  /** The body of the log loop of `GitDescribe`, for one commit. */
  method VisitCommit(state0: map<Hash, int>, counter0: int, tagHash0: Hash, c: Hash,
                     parents: map<Hash, seq<Hash>>, tagMap: map<Hash, string>)
    returns (state: map<Hash, int>, counter: int, tagHash: Hash)
    ensures Walk(state, counter, tagHash) == WalkStep(Walk(state0, counter0, tagHash0), c, parents, tagMap)
    ensures tagHash == tagHash0 || (tagHash0 == "" && tagHash == c && c in tagMap)
  {
    state, counter, tagHash := state0, counter0, tagHash0;
    if c !in state {
      state := state[c := 0];
    }
    var distance := state[c];
    state := DiscoverParents(state, ParentsOf(parents, c), distance + 1);
    WalkStepState(Walk(state0, counter0, tagHash0), c, parents, tagMap);
    if tagHash == "" && c in tagMap {
      counter := state[c];
      tagHash := c;
    }
  }

  /** `GitDescribe`. */
  method GitDescribe(repo: Repository, codec: Codec) returns (r: Result<Description>)
    ensures repo.clean.Err? ==> r == Err(repo.clean.error)
    ensures repo.clean.Ok? && repo.head.Err? ==> r == Err(repo.head.error)
    ensures repo.clean.Ok? && repo.head.Ok? && TagMapOf(repo, codec).Err? ==> r == Err(TagMapOf(repo, codec).error)
    ensures repo.clean.Ok? && repo.head.Ok? && TagMapOf(repo, codec).Ok? && repo.log.Err? ==> r == Err(repo.log.error)
    ensures r.Ok? <==> repo.clean.Ok? && repo.head.Ok? && TagMapOf(repo, codec).Ok? && repo.log.Ok?
    ensures r.Ok? ==>
      && r.value.dirty == !repo.clean.value
      && r.value.headHash == repo.head.value
      && Concludes(WalkLog(repo.log.value, repo.parents, TagMapOf(repo, codec).value), TagMapOf(repo, codec).value, r.value)
    ensures r.Ok? && (forall i :: 0 <= i < |repo.log.value| ==> repo.log.value[i] != "") ==>
      Describes(repo.log.value, repo.parents, TagMapOf(repo, codec).value, r.value)
  {
    if repo.clean.Err? {
      return Err(repo.clean.error);
    }
    var dirty := !repo.clean.value;
    if repo.head.Err? {
      return Err(repo.head.error);
    }
    var headHash := repo.head.value;
    var tags := GitTagMap(repo, codec);
    if tags.Err? {
      return Err(tags.error);
    }
    var tagMap := tags.value;
    if repo.log.Err? {
      return Err(repo.log.error);
    }
    var state, counter, tagHash := WalkCommits(repo.log.value, repo.parents, tagMap);
    var d: Description;
    if tagHash == "" {
      counter := MaxDistancePlusOne(state, counter);
      d := Description("", counter, headHash, dirty);
    } else {
      d := Description(tagMap[tagHash], counter, headHash, dirty);
    }
    DescribesOfConcludes(repo.log.value, repo.parents, tagMap, d);
    return Ok(d);
  }

  // ------------------------------------------------------- walk properties

  /** A distance is fixed when the commit is first discovered: the walk over a
      longer prefix of the log keeps every distance of a shorter one. */
  lemma {:induction false} WalkLogPersistent(log: seq<Hash>, i: nat, j: nat, parents: map<Hash, seq<Hash>>, tags: map<Hash, string>)
    requires i <= j <= |log|
    ensures var s, t := WalkLog(log[..i], parents, tags).state, WalkLog(log[..j], parents, tags).state;
      forall k :: k in s ==> k in t && t[k] == s[k]
  {
    if i < j {
      WalkLogPersistent(log, i, j - 1, parents, tags);
      assert log[..j][..j - 1] == log[..j - 1];
    }
  }

  /** The anchor of a walk `w` over `log`: none exactly when no commit of the
      log is tagged, and then the counter is 0; otherwise the first tagged
      commit in log order, and the counter is its recorded distance. */
  ghost predicate Anchored(log: seq<Hash>, w: Walk, tags: map<Hash, string>) {
    && (w.tagHash == "" <==> forall i :: 0 <= i < |log| ==> log[i] !in tags)
    && (w.tagHash == "" ==> w.counter == 0)
    && (w.tagHash != "" ==>
          && w.tagHash in w.state && w.counter == w.state[w.tagHash]
          && exists j :: 0 <= j < |log| && log[j] == w.tagHash && log[j] in tags &&
               forall i :: 0 <= i < j ==> log[i] !in tags)
  }

  /** The walk over a log of real (non-empty) commit hashes is anchored at the
      first tagged commit. The empty hash is the walk's marker for "no anchor
      yet". */
  lemma {:induction false} WalkLogAnchor(log: seq<Hash>, parents: map<Hash, seq<Hash>>, tags: map<Hash, string>)
    requires forall i :: 0 <= i < |log| ==> log[i] != ""
    ensures Anchored(log, WalkLog(log, parents, tags), tags)
  {
    if log != [] {
      var init := log[..|log| - 1];
      assert forall i :: 0 <= i < |init| ==> init[i] == log[i];
      WalkLogAnchor(init, parents, tags);
      AnchorStep(log, WalkLog(init, parents, tags), parents, tags);
    }
  }

  /** The anchor survives one more step of the log. */
  lemma AnchorStep(log: seq<Hash>, w0: Walk, parents: map<Hash, seq<Hash>>, tags: map<Hash, string>)
    requires |log| > 0 && log[|log| - 1] != ""
    requires Anchored(log[..|log| - 1], w0, tags)
    ensures Anchored(log, WalkStep(w0, log[|log| - 1], parents, tags), tags)
  {
    var init, c := log[..|log| - 1], log[|log| - 1];
    var w := WalkStep(w0, c, parents, tags);
    assert forall i :: 0 <= i < |init| ==> log[i] == init[i];
    if w0.tagHash != "" {
      var j :| 0 <= j < |init| && init[j] == w0.tagHash && init[j] in tags && forall i :: 0 <= i < j ==> init[i] !in tags;
      assert log[j] == w.tagHash && log[j] in tags && forall i :: 0 <= i < j ==> log[i] !in tags;
    } else if c in tags {
      var j := |init|;
      assert log[j] == w.tagHash && log[j] in tags && forall i :: 0 <= i < j ==> log[i] !in tags;
    }
  }

  /** A tagged HEAD is its own anchor, at distance 0. */
  lemma TaggedHeadCountsZero(log: seq<Hash>, parents: map<Hash, seq<Hash>>, tags: map<Hash, string>)
    requires forall i :: 0 <= i < |log| ==> log[i] != ""
    requires |log| > 0 && log[0] in tags
    ensures WalkLog(log, parents, tags).tagHash == log[0]
    ensures WalkLog(log, parents, tags).counter == 0
  {
    WalkLogAnchor(log, parents, tags);
    var w := WalkLog(log, parents, tags);
    var j :| 0 <= j < |log| && log[j] == w.tagHash && log[j] in tags && forall i :: 0 <= i < j ==> log[i] !in tags;
    assert j == 0;
    assert log[..1][..0] == [];
    assert WalkLog(log[..1], parents, tags).state[log[0]] == 0;
    WalkLogPersistent(log, 1, |log|, parents, tags);
    assert log[..|log|] == log;
  }

  /** A linear history: every commit of the log has the next one as its only
      parent, the last has none, and no commit repeats. */
  ghost predicate Linear(log: seq<Hash>, parents: map<Hash, seq<Hash>>) {
    && (forall i, j :: 0 <= i < j < |log| ==> log[i] != log[j])
    && (forall i :: 0 <= i < |log| - 1 ==> ParentsOf(parents, log[i]) == [log[i + 1]])
    && (|log| > 0 ==> ParentsOf(parents, log[|log| - 1]) == [])
  }

  /** The commits discovered after walking `m` log entries are the first
      `min(m + 1, |log|)` ones, each at its position. */
  ghost predicate LinearState(s: map<Hash, int>, log: seq<Hash>, m: nat) {
    && (forall i :: 0 <= i < |log| && i <= m ==> log[i] in s && s[log[i]] == i)
    && (forall h :: h in s ==> exists i :: 0 <= i < |log| && i <= m && log[i] == h)
  }

  lemma LinearStateStep(s1: map<Hash, int>, log: seq<Hash>, m: nat)
    requires forall i, j :: 0 <= i < j < |log| ==> log[i] != log[j]
    requires 0 < m < |log|
    requires LinearState(s1, log, m - 1)
    ensures log[m] !in s1
    ensures LinearState(s1[log[m] := m], log, m)
  {
    var s := s1[log[m] := m];
    forall h | h in s ensures exists i :: 0 <= i < |log| && i <= m && log[i] == h {
      if h != log[m] {
        var i :| 0 <= i < |log| && i <= m - 1 && log[i] == h;
      }
    }
  }

  lemma WalkLogLast(log: seq<Hash>, m: nat, parents: map<Hash, seq<Hash>>, tags: map<Hash, string>)
    requires 0 < m <= |log|
    ensures WalkLog(log[..m], parents, tags) == WalkStep(WalkLog(log[..m - 1], parents, tags), log[m - 1], parents, tags)
  {
    assert log[..m][..m - 1] == log[..m - 1];
  }

  lemma AddOneParent(s: map<Hash, int>, p: Hash, d: int)
    ensures AddParents(s, [p], d) == if p in s then s else s[p := d]
  {
    assert [p][1..] == [];
  }

  lemma {:induction false} WalkLogLinearPrefix(log: seq<Hash>, m: nat, parents: map<Hash, seq<Hash>>, tags: map<Hash, string>)
    requires Linear(log, parents)
    requires 0 < m <= |log|
    ensures LinearState(WalkLog(log[..m], parents, tags).state, log, m)
  {
    var c := log[m - 1];
    var s0 := WalkLog(log[..m - 1], parents, tags).state;
    var s1 := if c in s0 then s0 else s0[c := 0];
    if m == 1 {
      assert log[..0] == [];
      assert s1 == map[c := 0];
      LinearStateOfHead(log);
    } else {
      WalkLogLinearPrefix(log, m - 1, parents, tags);
      assert s1 == s0;
    }
    assert s1[c] == m - 1;
    WalkLogLast(log, m, parents, tags);
    WalkStepState(WalkLog(log[..m - 1], parents, tags), c, parents, tags);
    LinearDiscover(s1, log, m, parents);
  }

  /** The distances after one step: the commit recorded (at 0 when new), then
      its parents discovered one further away. */
  lemma WalkStepState(w: Walk, c: Hash, parents: map<Hash, seq<Hash>>, tags: map<Hash, string>)
    ensures var s1 := if c in w.state then w.state else w.state[c := 0];
      WalkStep(w, c, parents, tags).state == AddParents(s1, ParentsOf(parents, c), s1[c] + 1)
  {
  }

  /** Before any parent is discovered, the head alone is recorded, at distance 0. */
  lemma LinearStateOfHead(log: seq<Hash>)
    requires |log| > 0
    ensures LinearState(map[log[0] := 0], log, 0)
  {
  }

  /** On a linear history, discovering the parent of the `m`-th commit records
      exactly one more commit, at distance `m`. */
  lemma LinearDiscover(s1: map<Hash, int>, log: seq<Hash>, m: nat, parents: map<Hash, seq<Hash>>)
    requires Linear(log, parents)
    requires 0 < m <= |log|
    requires LinearState(s1, log, m - 1)
    ensures LinearState(AddParents(s1, ParentsOf(parents, log[m - 1]), m), log, m)
  {
    if m < |log| {
      assert ParentsOf(parents, log[m - 1]) == [log[m]];
      LinearStateStep(s1, log, m);
      AddOneParent(s1, log[m], m);
    } else {
      assert ParentsOf(parents, log[m - 1]) == [];
    }
  }

  /** On a linear history of `n` commits each commit's distance is its position
      in the log, and with no tag the counter is `n`. */
  lemma LinearHistoryCounter(log: seq<Hash>, parents: map<Hash, seq<Hash>>, tags: map<Hash, string>)
    requires Linear(log, parents)
    requires |log| > 0
    ensures var w := WalkLog(log, parents, tags);
      && (forall i :: 0 <= i < |log| ==> log[i] in w.state && w.state[log[i]] == i)
      && IsMaxPlusOne(w.state, 0, |log|)
  {
    WalkLogLinearPrefix(log, |log|, parents, tags);
    assert log[..|log|] == log;
  }

  /** An untagged linear history of `n` commits describes as no tag and
      counter `n`. */
  lemma LinearUntaggedDescribe(log: seq<Hash>, parents: map<Hash, seq<Hash>>, tags: map<Hash, string>, d: Description)
    requires Linear(log, parents) && |log| > 0
    requires forall i :: 0 <= i < |log| ==> log[i] !in tags
    requires Describes(log, parents, tags, d)
    ensures d.tag == "" && d.counter == |log|
  {
    LinearHistoryCounter(log, parents, tags);
    IsMaxPlusOneUnique(WalkLog(log, parents, tags).state, d.counter, |log|);
  }
}
