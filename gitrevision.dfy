/** internal/gitrevision.go: the description of a commit relative to its
    latest semantic-version tag, and the release-candidate bump of that tag. */
module GitRevisions {
  import opened Errors
  import opened Text
  import opened SemVers

  /** `GitRevision`: the tag, the number of commits since it, the head hash,
      whether the worktree is dirty, and the branch. */
  datatype GitRevision = GitRevision(tag: string, counter: int, hash: string, dirty: bool, branch: string)

  /** The tag as printed: an untagged history is "v0". */
  function DisplayTag(tag: string): (t: string)
    ensures t != ""
    ensures tag == "" ==> t == "v0"
    ensures tag != "" ==> t == tag
  {
    if tag == "" then "v0" else tag
  }

  function DirtySuffix(dirty: bool): string {
    if dirty then "-dirty" else ""
  }

  /** A revision whose version can be rendered: a hash of at least seven
      characters whenever the counter is not zero. */
  predicate Describable(rev: GitRevision) {
    rev.counter != 0 ==> |rev.hash| >= 7
  }

  /** `GetVersion`, in the manner of `git describe`. Go slices the hash to its
      first seven characters whenever the counter is not zero, which panics on a
      shorter hash; the precondition excludes that case. */
  function GetVersion(rev: GitRevision): (v: string)
    requires rev.counter != 0 ==> |rev.hash| >= 7
    ensures HasPrefix(v, DisplayTag(rev.tag))
    ensures rev.dirty ==> |v| >= 6 && v[|v| - 6..] == "-dirty"
  {
    var counterHash := if rev.counter != 0 then "-" + IntToString(rev.counter) + "-g" + rev.hash[..7] else "";
    var v := DisplayTag(rev.tag) + counterHash + DirtySuffix(rev.dirty);
    assert v[..|DisplayTag(rev.tag)|] == DisplayTag(rev.tag);
    v
  }

  /** On a tagged commit the version is exactly the tag (or "v0"), with
      "-dirty" appended exactly when the worktree is dirty. */
  lemma GetVersionOnTag(rev: GitRevision)
    requires rev.counter == 0
    ensures !rev.dirty ==> GetVersion(rev) == DisplayTag(rev.tag)
    ensures rev.dirty ==> GetVersion(rev) == DisplayTag(rev.tag) + "-dirty"
  {
  }

  /** Past the tag the version reads back: after the tag and a '-' come the
      decimal digits of the counter, then "-g" and the first seven characters of
      the hash, then the dirty marker. */
  lemma GetVersionAfterTag(rev: GitRevision)
    requires rev.counter > 0 && |rev.hash| >= 7
    ensures var v := GetVersion(rev);
      var digits := IntToString(rev.counter);
      && (forall i :: 0 <= i < |digits| ==> IsDigit(digits[i]))
      && ParseNat(digits) == rev.counter
      && v == DisplayTag(rev.tag) + "-" + digits + "-g" + rev.hash[..7] + DirtySuffix(rev.dirty)
  {
    NatToStringRoundTrip(rev.counter);
  }

  /** "-dirty" is always the last component: a dirty revision prints as the same
      clean revision followed by "-dirty". */
  lemma GetVersionDirtyIsLast(rev: GitRevision)
    requires rev.counter != 0 ==> |rev.hash| >= 7
    ensures GetVersion(rev.(dirty := true)) == GetVersion(rev.(dirty := false)) + "-dirty"
  {
  }

  /** The version reads only the tag, the counter, the first seven characters of
      the hash (and only when the counter is not zero) and the dirty flag; an
      empty tag and "v0" print alike. */
  lemma GetVersionDependsOn(r1: GitRevision, r2: GitRevision)
    requires r1.counter != 0 ==> |r1.hash| >= 7
    requires r2.counter != 0 ==> |r2.hash| >= 7
    requires DisplayTag(r1.tag) == DisplayTag(r2.tag)
    requires r1.counter == r2.counter && r1.dirty == r2.dirty
    requires r1.counter != 0 ==> r1.hash[..7] == r2.hash[..7]
    ensures GetVersion(r1) == GetVersion(r2)
  {
  }

  /** Cases of internal/gitrevision_test .go. */
  lemma GetVersionCountedExample()
    ensures GetVersion(GitRevision("v1.0.0", 1, "1234567890abcdef", false, "")) == "v1.0.0-1-g1234567"
  {
    assert IntToString(1) == "1";
    assert "1234567890abcdef"[..7] == "1234567";
    assert DisplayTag("v1.0.0") + ("-" + IntToString(1) + "-g" + "1234567890abcdef"[..7]) == "v1.0.0-1-g1234567";
  }

  lemma GetVersionDirtyExample()
    ensures GetVersion(GitRevision("v1.0.0", 1, "1234567890abcdef", true, "")) == "v1.0.0-1-g1234567-dirty"
  {
    assert IntToString(1) == "1";
    assert "1234567890abcdef"[..7] == "1234567";
    assert DisplayTag("v1.0.0") + ("-" + IntToString(1) + "-g" + "1234567890abcdef"[..7]) + "-dirty" == "v1.0.0-1-g1234567-dirty";
  }

  lemma GetVersionOnTagExample()
    ensures GetVersion(GitRevision("v1.0.0", 0, "1234567890abcdef", false, "")) == "v1.0.0"
  {
    assert DisplayTag("v1.0.0") + "" + "" == "v1.0.0";
  }

  /** An untagged history prints as "v0", at the head and past it. */
  lemma GetVersionUntaggedExample()
    ensures GetVersion(GitRevision("", 0, "1234567890abcdef", false, "")) == "v0"
    ensures GetVersion(GitRevision("", 3, "1234567890abcdef", true, "")) == "v0-3-g1234567-dirty"
  {
    assert IntToString(3) == "3";
    assert "1234567890abcdef"[..7] == "1234567";
    assert DisplayTag("") + ("-" + IntToString(3) + "-g" + "1234567890abcdef"[..7]) + "-dirty" == "v0-3-g1234567-dirty";
  }

  /** The version a bump prints: a release candidate `n` becomes `n + 1` in place,
      and a version that is not a release candidate gets the next patch number and
      the single pre-release identifier "rc0". */
  function Bumped(v: SemVer, rc: int): (w: SemVer)
    requires rc != -1 ==> |v.prerelease| > 0
    ensures w.major == v.major && w.minor == v.minor
  {
    if rc == -1 then v.(patch := v.patch + 1, prerelease := [RcLabel(0)])
    else v.(prerelease := [RcLabel(rc + 1)] + v.prerelease[1..])
  }

  /** Go indexes the first pre-release identifier when a release candidate is
      found; the reader must therefore only report one with a pre-release. */
  predicate BumpIndexable(rev: GitRevision, codec: Codec) {
    rev.tag != "" && codec.parse(rev.tag).Some? && codec.releaseCandidate(codec.parse(rev.tag).value).Ok? ==>
      var n := codec.releaseCandidate(codec.parse(rev.tag).value).value;
      n != -1 ==> |codec.parse(rev.tag).value.prerelease| > 0
  }

  /** `UpgradeTag`: the tag of the next release candidate. */
  function UpgradeTag(rev: GitRevision, codec: Codec): (r: Result<string>)
    requires BumpIndexable(rev, codec)
    ensures rev.tag == "" ==> r == Ok("v0")
    ensures rev.tag != "" && codec.parse(rev.tag).None? ==> r == Err(InvalidSemVer(rev.tag))
    ensures rev.tag != "" && codec.parse(rev.tag).Some? && codec.releaseCandidate(codec.parse(rev.tag).value).Err? ==>
      r == Err(ReleaseCandidate(rev.tag))
    ensures r.Err? ==> rev.tag != ""
  {
    var tag := rev.tag;
    if tag == "" then Ok("v0")
    else match codec.parse(tag)
      case None => Err(InvalidSemVer(tag))
      case Some(v) =>
        match codec.releaseCandidate(v)
        case Err(_) => Err(ReleaseCandidate(tag))
        case Ok(rcId) => Ok(codec.render(Bumped(v, rcId)))
  }

  /** What a successful bump means, for a codec that reads back what it prints:
      the new tag parses to a version with the same major and minor numbers;
      without a release candidate the patch number goes up by one and the
      pre-release becomes exactly ["rc0"]; with candidate `n` the patch number
      is kept, the first identifier becomes "rc" followed by `n + 1`, and the
      others are kept. */
  lemma UpgradeTagMeaning(rev: GitRevision, codec: Codec)
    requires BumpIndexable(rev, codec) && LawfulCodec(codec)
    requires rev.tag != "" && codec.parse(rev.tag).Some?
    requires codec.releaseCandidate(codec.parse(rev.tag).value).Ok?
    ensures var v := codec.parse(rev.tag).value;
      var n := codec.releaseCandidate(v).value;
      var r := UpgradeTag(rev, codec);
      && r.Ok?
      && codec.parse(r.value).Some?
      && var w := codec.parse(r.value).value;
      && w.major == v.major && w.minor == v.minor
      && (n == -1 ==> w.patch == v.patch + 1 && w.prerelease == ["rc0"])
      && (n != -1 ==> w.patch == v.patch && w.prerelease == [RcLabel(n + 1)] + v.prerelease[1..])
  {
    assert IntToString(0) == "0";
    assert RcLabel(0) == "rc" + "0" == "rc0";
  }

  /** Bumping a tag that is not a release candidate twice gives candidate 1 of
      the next patch: the second bump reads back the "rc0" the first one wrote. */
  lemma UpgradeTagTwice(rev: GitRevision, codec: Codec)
    requires LawfulCodec(codec)
    requires rev.tag != "" && codec.parse(rev.tag).Some?
    requires codec.releaseCandidate(codec.parse(rev.tag).value) == Ok(-1)
    ensures BumpIndexable(rev, codec)
    ensures var first := UpgradeTag(rev, codec);
      && first.Ok?
      && BumpIndexable(rev.(tag := first.value), codec)
      && var v := codec.parse(rev.tag).value;
      UpgradeTag(rev.(tag := first.value), codec) == Ok(codec.render(v.(patch := v.patch + 1, prerelease := [RcLabel(1)])))
  {
    var v := codec.parse(rev.tag).value;
    var w := Bumped(v, -1);
    assert codec.parse(codec.render(w)) == Some(w);
    assert w.prerelease[0] == RcLabel(0);
    assert codec.releaseCandidate(w) == Ok(0);
    assert Bumped(w, 0) == v.(patch := v.patch + 1, prerelease := [RcLabel(1)]);
  }
}
