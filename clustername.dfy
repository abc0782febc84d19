/** cmd/get_clustername.go: the name of the kind cluster of a developer, made
    from the user name, the branch, the head hash and the dirty flag, then
    reduced to lowercase letters, digits and single dashes, at most fifty
    characters long. */
module ClusterNames {
  import opened Text
  import opened GitRevisions

  /** `$USER`, or "unknown" when it is empty. */
  function UserName(user: string): (u: string)
    ensures u != ""
    ensures user != "" ==> u == user
  {
    if user == "" then "unknown" else user
  }

  /** `fmt.Sprintf("%s-%s-%.6s%s", ...)`: user, branch, at most six characters
      of the hash, and "-dirty" for a dirty worktree. */
  function RawClusterName(user: string, rev: GitRevision): string
  {
    UserName(user) + "-" + rev.branch + "-" + Take(rev.hash, 6) + DirtySuffix(rev.dirty)
  }

  /** Where each part sits in the raw name: the user (or "unknown"), '-', the
      branch, '-', the first six characters of the hash (all of a shorter one),
      then "-dirty" exactly when the worktree is dirty. */
  lemma RawClusterNameLayout(user: string, rev: GitRevision)
    ensures var raw := RawClusterName(user, rev);
      var u := if user == "" then "unknown" else user;
      var n := |u| + 1 + |rev.branch| + 1;
      var h := Take(rev.hash, 6);
      && |h| <= 6 && h == rev.hash[..|h|]
      && |raw| == n + |h| + (if rev.dirty then 6 else 0)
      && raw[..|u|] == u && raw[|u|] == '-'
      && raw[|u| + 1..n - 1] == rev.branch && raw[n - 1] == '-'
      && raw[n..n + |h|] == h
      && raw[n + |h|..] == (if rev.dirty then "-dirty" else "")
  {
    RawClusterNameHead(user, rev);
    RawClusterNameTail(user, rev);
  }

  lemma RawClusterNameHead(user: string, rev: GitRevision)
    ensures var raw := RawClusterName(user, rev);
      var u := if user == "" then "unknown" else user;
      var n := |u| + 1 + |rev.branch| + 1;
      && n <= |raw|
      && raw[..|u|] == u && raw[|u|] == '-'
      && raw[|u| + 1..n - 1] == rev.branch && raw[n - 1] == '-'
  {
    var u, h, d := UserName(user), Take(rev.hash, 6), DirtySuffix(rev.dirty);
    var head := u + "-" + rev.branch + "-";
    assert RawClusterName(user, rev) == head + (h + d);
    assert head == u + ("-" + (rev.branch + "-"));
  }

  lemma RawClusterNameTail(user: string, rev: GitRevision)
    ensures var raw := RawClusterName(user, rev);
      var u := if user == "" then "unknown" else user;
      var n := |u| + 1 + |rev.branch| + 1;
      var h := Take(rev.hash, 6);
      && |h| <= 6 && h == rev.hash[..|h|]
      && |raw| == n + |h| + (if rev.dirty then 6 else 0)
      && raw[n..n + |h|] == h
      && raw[n + |h|..] == (if rev.dirty then "-dirty" else "")
  {
    var u, h, d := UserName(user), Take(rev.hash, 6), DirtySuffix(rev.dirty);
    var head := u + "-" + rev.branch + "-";
    assert RawClusterName(user, rev) == head + (h + d);
  }

  /** `s` without its leading run of characters outside `[A-Za-z0-9]`. */
  function DropRun(s: string): (r: string)
    ensures |r| <= |s| && r == s[|s| - |r|..]
    ensures r == "" || IsAlnum(r[0])
    ensures forall i :: 0 <= i < |s| - |r| ==> !IsAlnum(s[i])
  {
    if s == "" || IsAlnum(s[0]) then s else DropRun(s[1..])
  }

  /** `regexp.MustCompile("[^A-Za-z0-9]+").ReplaceAllString(s, "-")`: every
      maximal run of characters outside `[A-Za-z0-9]` becomes one '-'. */
  function CollapseRuns(s: string): (r: string)
    ensures forall i :: 0 <= i < |r| ==> IsAlnum(r[i]) || r[i] == '-'
    ensures forall i :: 0 <= i < |r| - 1 ==> !(r[i] == '-' && r[i + 1] == '-')
    ensures (r == "") == (s == "")
    ensures s != "" ==> r[0] == if IsAlnum(s[0]) then s[0] else '-'
    decreases |s|
  {
    if s == "" then ""
    else if IsAlnum(s[0]) then [s[0]] + CollapseRuns(s[1..])
    else "-" + CollapseRuns(DropRun(s[1..]))
  }

  /** Letters and digits pass through unchanged. */
  lemma {:induction false} CollapseRunsOfAlnumPrefix(p: string, s: string)
    requires forall i :: 0 <= i < |p| ==> IsAlnum(p[i])
    ensures CollapseRuns(p + s) == p + CollapseRuns(s)
  {
    if p == "" {
      assert p + s == s;
    } else {
      assert (p + s)[0] == p[0];
      assert (p + s)[1..] == p[1..] + s;
      CollapseRunsOfAlnumPrefix(p[1..], s);
      assert CollapseRuns(p + s) == [p[0]] + (p[1..] + CollapseRuns(s));
      assert p == [p[0]] + p[1..];
    }
  }

  /** Dropping a whole run of characters outside `[A-Za-z0-9]` reaches what
      follows it. */
  lemma {:induction false} DropRunOfRun(x: string, s: string)
    requires forall i :: 0 <= i < |x| ==> !IsAlnum(x[i])
    requires s == "" || IsAlnum(s[0])
    ensures DropRun(x + s) == s
  {
    if x == "" {
      assert x + s == s;
    } else {
      assert (x + s)[0] == x[0];
      assert (x + s)[1..] == x[1..] + s;
      DropRunOfRun(x[1..], s);
    }
  }

  /** A maximal run of characters outside `[A-Za-z0-9]` becomes exactly one '-'. */
  lemma CollapseRunsOfRun(x: string, s: string)
    requires x != ""
    requires forall i :: 0 <= i < |x| ==> !IsAlnum(x[i])
    requires s == "" || IsAlnum(s[0])
    ensures CollapseRuns(x + s) == "-" + CollapseRuns(s)
  {
    assert (x + s)[0] == x[0];
    assert (x + s)[1..] == x[1..] + s;
    DropRunOfRun(x[1..], s);
  }

  /** The characters of `s` in `[A-Za-z0-9]`, in order. */
  function Alnums(s: string): (r: string)
    ensures |r| <= |s|
  {
    if s == "" then "" else (if IsAlnum(s[0]) then [s[0]] else "") + Alnums(s[1..])
  }

  lemma {:induction false} AlnumsOfDropRun(s: string)
    ensures Alnums(DropRun(s)) == Alnums(s)
  {
    if s != "" && !IsAlnum(s[0]) {
      AlnumsOfDropRun(s[1..]);
    }
  }

  /** Collapsing keeps every letter and digit, in order, and adds none. */
  lemma {:induction false} CollapseRunsKeepsAlnums(s: string)
    ensures Alnums(CollapseRuns(s)) == Alnums(s)
    decreases |s|
  {
    if s != "" {
      var r := CollapseRuns(s);
      if IsAlnum(s[0]) {
        CollapseRunsKeepsAlnums(s[1..]);
        assert r[1..] == CollapseRuns(s[1..]);
      } else {
        var rest := DropRun(s[1..]);
        CollapseRunsKeepsAlnums(rest);
        AlnumsOfDropRun(s[1..]);
        assert r[1..] == CollapseRuns(rest);
      }
    }
  }

  /** A string of letters, digits and single dashes is collapsed to itself. */
  lemma {:induction false} CollapseRunsOfCollapsed(s: string)
    requires forall i :: 0 <= i < |s| ==> IsAlnum(s[i]) || s[i] == '-'
    requires forall i :: 0 <= i < |s| - 1 ==> !(s[i] == '-' && s[i + 1] == '-')
    ensures CollapseRuns(s) == s
    decreases |s|
  {
    if s != "" {
      CollapseRunsOfCollapsed(s[1..]);
      if !IsAlnum(s[0]) {
        assert DropRun(s[1..]) == s[1..];
      }
    }
  }

  /** Collapsing is idempotent. */
  lemma CollapseRunsIdempotent(s: string)
    ensures CollapseRuns(CollapseRuns(s)) == CollapseRuns(s)
  {
    CollapseRunsOfCollapsed(CollapseRuns(s));
  }

  /** The name printed by `ciux get clustername`: the collapsed raw name,
      lowercased, cut to fifty characters by `%.50s`. */
  function ClusterName(user: string, rev: GitRevision): (name: string)
    ensures |name| <= 50
    ensures forall i :: 0 <= i < |name| ==> IsDigit(name[i]) || IsAsciiLower(name[i]) || name[i] == '-'
    ensures forall i :: 0 <= i < |name| - 1 ==> !(name[i] == '-' && name[i + 1] == '-')
    ensures name == Take(ToLower(CollapseRuns(RawClusterName(user, rev))), 50)
  {
    Take(ToLower(CollapseRuns(RawClusterName(user, rev))), 50)
  }

  /** Up to the cut, the letters and digits of the name are those of the raw
      name, lowercased, in order. */
  lemma ClusterNameKeepsAlnums(user: string, rev: GitRevision)
    ensures var full := ToLower(CollapseRuns(RawClusterName(user, rev)));
      Alnums(full) == ToLower(Alnums(RawClusterName(user, rev)))
  {
    var raw := RawClusterName(user, rev);
    CollapseRunsKeepsAlnums(raw);
    AlnumsOfLower(CollapseRuns(raw));
  }

  lemma {:induction false} AlnumsOfLower(s: string)
    ensures Alnums(ToLower(s)) == ToLower(Alnums(s))
  {
    if s != "" {
      AlnumsOfLower(s[1..]);
      assert ToLower(s)[1..] == ToLower(s[1..]);
      assert IsAlnum(LowerChar(s[0])) == IsAlnum(s[0]);
      assert ToLower(Alnums(s)) == (if IsAlnum(s[0]) then [LowerChar(s[0])] else "") + ToLower(Alnums(s[1..]));
    }
  }

  /** A clean checkout of branch "main" at a hash starting "abcdef", with no
      `$USER`. */
  lemma ClusterNameExample(rev: GitRevision)
    requires rev.branch == "main" && rev.hash == "abcdef0123" && !rev.dirty
    ensures RawClusterName("", rev) == "unknown-main-abcdef"
    ensures ClusterName("", rev) == "unknown-main-abcdef"
  {
    ExampleRaw(rev);
    ExampleCollapsed();
    ExampleLower();
  }

  lemma ExampleRaw(rev: GitRevision)
    requires rev.branch == "main" && rev.hash == "abcdef0123" && !rev.dirty
    ensures RawClusterName("", rev) == "unknown-main-abcdef"
  {
    assert Take(rev.hash, 6) == "abcdef";
  }

  lemma ExampleCollapsed()
    ensures CollapseRuns("unknown-main-abcdef") == "unknown-main-abcdef"
  {
    var raw := "unknown-main-abcdef";
    forall i | 0 <= i < |raw| ensures IsAlnum(raw[i]) || raw[i] == '-' {
    }
    forall i | 0 <= i < |raw| - 1 ensures !(raw[i] == '-' && raw[i + 1] == '-') {
    }
    CollapseRunsOfCollapsed(raw);
  }

  lemma ExampleLower()
    ensures ToLower("unknown-main-abcdef") == "unknown-main-abcdef"
  {
    var raw := "unknown-main-abcdef";
    forall i | 0 <= i < |raw| ensures LowerChar(raw[i]) == raw[i] {
    }
  }
}
