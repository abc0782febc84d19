/** Semantic versions as the core uses them. The parser, the renderer and the
    release-candidate reader live outside the modelled files, so they are
    gathered in a `Codec` the caller supplies; `LawfulCodec` states the few
    facts about them that the release bump relies on. */
module SemVers {
  import opened Errors
  import opened Text

  /** A parsed version: `major.minor.patch`, then the dot-separated
      pre-release identifiers. */
  datatype SemVer = SemVer(major: int, minor: int, patch: int, prerelease: seq<string>)

  /** `SemVerParse` (`None` for a name that is not a semantic version),
      `SemVer.String` and `SemVer.ParseReleaseCandidate` (-1 when there is no
      release-candidate identifier). */
  datatype Codec = Codec(
    parse: string -> Option<SemVer>,
    render: SemVer -> string,
    releaseCandidate: SemVer -> Result<int>)

  /** The pre-release identifier of release candidate `n`. */
  function RcLabel(n: int): (s: string)
    ensures HasPrefix(s, "rc")
    ensures n >= 0 ==> var d := s[2..]; (forall i :: 0 <= i < |d| ==> IsDigit(d[i])) && ParseNat(d) == n
  {
    var s := "rc" + IntToString(n);
    assert s[..2] == "rc" && s[2..] == IntToString(n);
    if n >= 0 then (NatToStringRoundTrip(n); s) else s
  }

  /** The codec renders every version as a non-empty string it reads back, a
      version without pre-release has no release candidate, and a leading `rcN`
      identifier is candidate `n`. */
  ghost predicate LawfulCodec(codec: Codec) {
    && (forall v :: codec.render(v) != "" && codec.parse(codec.render(v)) == Some(v))
    && (forall v: SemVer :: v.prerelease == [] ==> codec.releaseCandidate(v) == Ok(-1))
    && (forall v: SemVer, n: nat :: |v.prerelease| > 0 && v.prerelease[0] == RcLabel(n) ==>
          codec.releaseCandidate(v) == Ok(n))
  }
}
