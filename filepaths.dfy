/** The lexical path functions of Go's `path` and `path/filepath` packages on a
    Unix system (separator '/'), on which the core's path checks rest:
    `filepath.IsAbs`, `filepath.Clean`, `filepath.Join` and `path.Base`. */
module FilePaths {

  /** `filepath.IsAbs` on Unix: the path is rooted. */
  predicate IsAbs(p: string) {
    |p| > 0 && p[0] == '/'
  }

  /** The pieces of `p` between slashes, empty pieces included:
      `SplitSlash("a//b") == ["a", "", "b"]`. */
  function SplitSlash(p: string): (r: seq<string>)
    ensures |r| >= 1
    ensures forall i :: 0 <= i < |r| ==> '/' !in r[i]
  {
    if p == [] then [""]
    else
      var rest := SplitSlash(p[1..]);
      if p[0] == '/' then [""] + rest else [[p[0]] + rest[0]] + rest[1..]
  }

  /** The pieces joined with single slashes; `JoinSlash([]) == ""`. */
  function JoinSlash(es: seq<string>): string {
    if es == [] then ""
    else if |es| == 1 then es[0]
    else es[0] + "/" + JoinSlash(es[1..])
  }

  /** One element of the lexical walk of `filepath.Clean`: empty and "." elements
      vanish, ".." removes the last real element (or, at the root, nothing; on a
      relative path with nothing to remove, it is kept), and any other element is
      pushed. */
  function CleanStep(stack: seq<string>, e: string, rooted: bool): seq<string> {
    if e == "" || e == "." then stack
    else if e == ".." then
      if |stack| > 0 && stack[|stack| - 1] != ".." then stack[..|stack| - 1]
      else if rooted then stack
      else stack + [".."]
    else stack + [e]
  }

  function CleanElements(es: seq<string>, rooted: bool, stack: seq<string>): seq<string> {
    if es == [] then stack else CleanElements(es[1..], rooted, CleanStep(stack, es[0], rooted))
  }

  /** `filepath.Clean`: the shortest lexically equivalent path. */
  function Clean(p: string): (c: string)
    ensures c != ""
  {
    if p == "" then "."
    else
      var rooted := p[0] == '/';
      var out := (if rooted then "/" else "") + JoinSlash(CleanElements(SplitSlash(p), rooted, []));
      if out == "" then "." else out
  }

  /** `filepath.Join(a, b)`: the non-empty arguments joined with '/' and cleaned. */
  function Join(a: string, b: string): (r: string)
    ensures r == "" <==> a == "" && b == ""
    ensures r != "" ==> Clean(r) == r
    ensures r != "" ==> (IsAbs(r) <==> if a != "" then IsAbs(a) else IsAbs(b))
  {
    var joined := if a == "" then b else a + "/" + b;
    if a == "" && b == "" then ""
    else
      assert a != "" ==> joined[0] == a[0];
      CleanIdempotent(joined);
      CleanKeepsRootedness(joined);
      Clean(joined)
  }

  /** A stack the walk of `Clean` can leave behind: real elements, preceded on a
      relative path by any number of "..". */
  ghost predicate CleanStack(s: seq<string>, rooted: bool) {
    && (forall i :: 0 <= i < |s| ==> s[i] != "" && s[i] != "." && '/' !in s[i])
    && (forall i, j :: 0 <= i < j < |s| && s[j] == ".." ==> s[i] == "..")
    && (rooted ==> forall i :: 0 <= i < |s| ==> s[i] != "..")
  }

  lemma {:induction false} CleanElementsKeepsCleanStack(es: seq<string>, rooted: bool, stack: seq<string>)
    requires forall i :: 0 <= i < |es| ==> '/' !in es[i]
    requires CleanStack(stack, rooted)
    ensures CleanStack(CleanElements(es, rooted, stack), rooted)
  {
    if es != [] {
      var next := CleanStep(stack, es[0], rooted);
      assert CleanStack(next, rooted);
      CleanElementsKeepsCleanStack(es[1..], rooted, next);
    }
  }

  /** Walking an already clean stack pushes every element back unchanged. */
  lemma {:induction false} CleanElementsOfCleanStack(es: seq<string>, rooted: bool, stack: seq<string>)
    requires CleanStack(stack + es, rooted)
    ensures CleanElements(es, rooted, stack) == stack + es
  {
    if es != [] {
      var e := es[0];
      assert (stack + es)[|stack|] == e;
      if e == ".." {
        assert forall i :: 0 <= i < |stack| ==> stack[i] == (stack + es)[i] == "..";
      }
      assert CleanStep(stack, e, rooted) == stack + [e];
      assert stack + [e] + es[1..] == stack + es;
      CleanElementsOfCleanStack(es[1..], rooted, stack + [e]);
    }
  }

  lemma {:induction false} SplitJoin(es: seq<string>)
    requires es != []
    requires forall i :: 0 <= i < |es| ==> '/' !in es[i]
    ensures SplitSlash(JoinSlash(es)) == es
  {
    if |es| > 1 {
      SplitJoin(es[1..]);
      SplitPrefix(es[0], JoinSlash(es[1..]));
    } else {
      SplitPrefix(es[0], "");
      assert es[0] + "" == es[0];
      assert SplitSlash("") == [""];
      assert ["/"] != [];
      assert SplitSlash(es[0]) == [es[0]] by {
        SplitPlain(es[0]);
      }
    }
  }

  lemma {:induction false} SplitPlain(e: string)
    requires '/' !in e
    ensures SplitSlash(e) == [e]
  {
    if e != [] {
      assert '/' !in e[1..] by {
        forall k | 0 <= k < |e[1..]| ensures e[1..][k] != '/' { assert e[1..][k] == e[k + 1]; }
      }
      SplitPlain(e[1..]);
      assert [e[0]] + e[1..] == e;
    }
  }

  /** Splitting `e + "/" + rest` yields `e` followed by the pieces of `rest`. */
  lemma {:induction false} SplitPrefix(e: string, rest: string)
    requires '/' !in e
    ensures SplitSlash(e + "/" + rest) == [e] + SplitSlash(rest)
  {
    if e == [] {
      assert e + "/" + rest == "/" + rest;
      assert ("/" + rest)[1..] == rest;
    } else {
      assert '/' !in e[1..] by {
        forall k | 0 <= k < |e[1..]| ensures e[1..][k] != '/' { assert e[1..][k] == e[k + 1]; }
      }
      SplitPrefix(e[1..], rest);
      assert (e + "/" + rest)[1..] == e[1..] + "/" + rest;
      assert (e + "/" + rest)[0] == e[0];
      assert [e[0]] + e[1..] == e;
    }
  }

  lemma {:induction false} JoinSlashNonEmpty(es: seq<string>)
    requires es != [] && es[0] != "" && '/' !in es[0]
    ensures JoinSlash(es) != "" && JoinSlash(es)[0] == es[0][0]
  {
  }

  /** `filepath.Clean` is idempotent: a cleaned path is its own clean form. */
  lemma CleanIdempotent(p: string)
    ensures Clean(Clean(p)) == Clean(p)
  {
    if p == "" {
      CleanOfDot();
    } else {
      var rooted := p[0] == '/';
      var s := CleanElements(SplitSlash(p), rooted, []);
      CleanElementsKeepsCleanStack(SplitSlash(p), rooted, []);
      if s == [] {
        if rooted {
          CleanOfRoot();
        } else {
          CleanOfDot();
        }
      } else {
        CleanOfCleanStack(s, rooted);
      }
    }
  }

  lemma CleanOfDot()
    ensures Clean(".") == "."
  {
    assert SplitSlash(".") == ["."] by { SplitPlain("."); }
    assert CleanElements(["."], false, []) == [];
  }

  lemma CleanOfRoot()
    ensures Clean("/") == "/"
  {
    assert SplitSlash("/") == ["", ""];
    assert CleanElements(["", ""], true, []) == [];
    assert "/" + JoinSlash([]) == "/";
  }

  /** A path spelled from a non-empty clean stack is its own clean form. */
  lemma CleanOfCleanStack(s: seq<string>, rooted: bool)
    requires s != [] && CleanStack(s, rooted)
    ensures var c := (if rooted then "/" else "") + JoinSlash(s); Clean(c) == c
  {
    SplitJoin(s);
    JoinSlashNonEmpty(s);
    assert [] + s == s;
    CleanElementsOfCleanStack(s, rooted, []);
    if rooted {
      CleanOfRootedStack(s);
    } else {
      CleanOfRelativeStack(s);
    }
  }

  lemma CleanOfRootedStack(s: seq<string>)
    requires s != [] && SplitSlash(JoinSlash(s)) == s
    requires CleanElements(s, true, []) == s
    ensures Clean("/" + JoinSlash(s)) == "/" + JoinSlash(s)
  {
    var body := JoinSlash(s);
    var c := "/" + body;
    SplitPrefix("", body);
    assert "" + "/" + body == c;
    assert SplitSlash(c) == [""] + s;
    assert ([""] + s)[1..] == s;
    assert CleanElements([""] + s, true, []) == CleanElements(s, true, []);
  }

  lemma CleanOfRelativeStack(s: seq<string>)
    requires s != [] && SplitSlash(JoinSlash(s)) == s
    requires CleanElements(s, false, []) == s
    requires JoinSlash(s) != "" && JoinSlash(s)[0] != '/'
    ensures Clean("" + JoinSlash(s)) == "" + JoinSlash(s)
  {
    var body := JoinSlash(s);
    assert "" + body == body;
    assert Clean(body) == "" + JoinSlash(CleanElements(SplitSlash(body), false, []));
  }

  /** Cleaning keeps a path rooted or relative: `Clean` never turns a relative
      path into an absolute one, nor the reverse. */
  lemma CleanKeepsRootedness(p: string)
    ensures IsAbs(Clean(p)) <==> IsAbs(p)
  {
    if p != "" && p[0] != '/' {
      var es := SplitSlash(p);
      var s := CleanElements(es, false, []);
      CleanElementsKeepsCleanStack(es, false, []);
      if s != [] {
        JoinSlashNonEmpty(s);
      }
    }
  }

  /** Trailing slashes removed. */
  function TrimTrailingSlashes(p: string): (r: string)
    ensures |r| <= |p| && r == p[..|r|]
    ensures r == "" || r[|r| - 1] != '/'
    ensures forall i :: |r| <= i < |p| ==> p[i] == '/'
  {
    if p != "" && p[|p| - 1] == '/' then TrimTrailingSlashes(p[..|p| - 1]) else p
  }

  /** What follows the last slash. */
  function LastElement(p: string): (r: string)
    ensures |r| <= |p| && r == p[|p| - |r|..]
    ensures '/' !in r
    ensures |r| < |p| ==> p[|p| - |r| - 1] == '/'
  {
    if p == "" || p[|p| - 1] == '/' then ""
    else
      var r := LastElement(p[..|p| - 1]) + [p[|p| - 1]];
      assert p[..|p| - 1][|p| - 1 - (|r| - 1)..] + [p[|p| - 1]] == p[|p| - |r|..];
      r
  }

  /** Trailing slashes after a path that does not end in one are exactly what
      `TrimTrailingSlashes` removes. */
  lemma {:induction false} TrimTrailingSlashesOf(body: string, trailing: string)
    requires body == "" || body[|body| - 1] != '/'
    requires forall i :: 0 <= i < |trailing| ==> trailing[i] == '/'
    ensures TrimTrailingSlashes(body + trailing) == body
  {
    if trailing == "" {
      assert body + trailing == body;
    } else {
      var p := body + trailing;
      var shorter := trailing[..|trailing| - 1];
      assert p[..|p| - 1] == body + shorter;
      TrimTrailingSlashesOf(body, shorter);
    }
  }

  /** After a directory prefix (empty or ending in '/'), a slash-free element is
      what `LastElement` returns. */
  lemma {:induction false} LastElementAfterSlash(dir: string, name: string)
    requires dir == "" || dir[|dir| - 1] == '/'
    requires name != "" && '/' !in name
    ensures LastElement(dir + name) == name
  {
    var p := dir + name;
    var c := name[|name| - 1];
    var prefix := name[..|name| - 1];
    assert p[..|p| - 1] == dir + prefix;
    assert name == prefix + [c];
    if prefix == "" {
      assert dir + prefix == dir;
    } else {
      assert '/' !in prefix;
      LastElementAfterSlash(dir, prefix);
    }
  }

  /** `path.Base`: the last element of a path, trailing slashes ignored;
      "." for the empty path and "/" for a path of slashes only. */
  function Base(p: string): (b: string)
    ensures b != ""
  {
    if p == "" then "."
    else
      var t := TrimTrailingSlashes(p);
      if t == "" then "/" else LastElement(t)
  }

  /** `b` is a non-empty, slash-free element of `p` at offset `k`: it follows
      either nothing or a '/', and only slashes follow it. */
  ghost predicate ElementAt(p: string, b: string, k: int)
  {
    && 0 <= k <= |p| - |b|
    && p[k..k + |b|] == b
    && b != "" && '/' !in b
    && (k == 0 || p[k - 1] == '/')
    && forall j :: k + |b| <= j < |p| ==> p[j] == '/'
  }

  /** What `Base` means: for a path with at least one non-slash character, the
      result is a non-empty, slash-free element such that the path is some prefix
      ending in '/' (or empty), then the result, then only slashes. */
  lemma BaseIsLastElement(p: string)
    ensures p == "" ==> Base(p) == "."
    ensures p != "" && (forall i :: 0 <= i < |p| ==> p[i] == '/') ==> Base(p) == "/"
    ensures (exists i :: 0 <= i < |p| && p[i] != '/') ==>
      ElementAt(p, Base(p), |TrimTrailingSlashes(p)| - |Base(p)|)
  {
    if p != "" {
      if forall i :: 0 <= i < |p| ==> p[i] == '/' {
        BaseOfSlashes(p);
      } else {
        BaseOfElement(p);
      }
    }
  }

  lemma BaseOfSlashes(p: string)
    requires p != "" && forall i :: 0 <= i < |p| ==> p[i] == '/'
    ensures Base(p) == "/"
  {
    assert TrimTrailingSlashes(p) == "";
  }

  lemma BaseOfElement(p: string)
    requires exists i :: 0 <= i < |p| && p[i] != '/'
    ensures ElementAt(p, Base(p), |TrimTrailingSlashes(p)| - |Base(p)|)
  {
    var i :| 0 <= i < |p| && p[i] != '/';
    var t := TrimTrailingSlashes(p);
    assert i < |t|;
    assert t[|t| - 1] != '/';
    var b := LastElement(t);
    assert b != "";
    assert Base(p) == b;
    var k := |t| - |b|;
    SuffixOfPrefix(p, t, b);
    assert ElementAt(p, b, k);
  }

  /** A suffix `b` of a prefix `t` of `p`, after a '/' in `t`, sits in `p` where
      it sits in `t`, after the same '/'. */
  lemma SuffixOfPrefix(p: string, t: string, b: string)
    requires |t| <= |p| && t == p[..|t|]
    requires |b| <= |t| && b == t[|t| - |b|..]
    requires |b| < |t| ==> t[|t| - |b| - 1] == '/'
    ensures p[|t| - |b|..|t|] == b
    ensures |t| - |b| == 0 || p[|t| - |b| - 1] == '/'
  {
  }
}
