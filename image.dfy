/** internal/image.go: container image references and the environment
    variable prefix derived from an image name. */
module Images {
  import opened Errors
  import opened Text

  datatype Image = Image(inRegistry: bool, registry: string, name: string, tag: string, temporaryRegistry: string)

  /** `Image.Url`: `registry/name:tag`, the name lowercased. */
  function Url(i: Image): (u: string)
    ensures HasPrefix(u, i.registry + "/")
    ensures |u| == |i.registry| + 1 + |i.name| + 1 + |i.tag|
    ensures forall k :: 0 <= k < |i.name| ==> u[|i.registry| + 1 + k] == LowerChar(i.name[k])
    ensures u[|i.registry| + 1 + |i.name|] == ':'
    ensures u[|u| - |i.tag|..] == i.tag
  {
    var u := i.registry + "/" + ToLower(i.name) + ":" + i.tag;
    assert u[..|i.registry + "/"|] == i.registry + "/";
    u
  }

  /** The URL reads the name only through its lowercase form. */
  lemma UrlIgnoresNameCase(i: Image, name: string)
    requires ToLower(name) == ToLower(i.name)
    ensures Url(i.(name := name)) == Url(i)
  {
  }

  /** The position of the first `sep` in `u` (`|u|` when there is none). */
  function SeparatorIndex(u: string, sep: char): (n: nat)
    ensures n <= |u|
    ensures forall k :: 0 <= k < n ==> u[k] != sep
    ensures n < |u| ==> u[n] == sep
  {
    if |u| == 0 || u[0] == sep then 0 else 1 + SeparatorIndex(u[1..], sep)
  }

  /** A prefix free of `sep` and followed by `sep` ends at the first `sep`. */
  lemma {:induction false} SeparatorIndexAfter(u: string, r: string, sep: char)
    requires sep !in r && HasPrefix(u, r + [sep])
    ensures SeparatorIndex(u, sep) == |r|
  {
    if r != [] {
      assert u[0] == r[0];
      assert HasPrefix(u[1..], r[1..] + [sep]) by {
        assert u[1..][..|r|] == u[..|r| + 1][1..];
      }
      SeparatorIndexAfter(u[1..], r[1..], sep);
    } else {
      assert u[0] == (r + [sep])[0];
    }
  }

  /** A URL is the registry, '/', and what follows it. */
  lemma UrlParts(i: Image)
    ensures Url(i) == i.registry + ['/'] + (ToLower(i.name) + [':'] + i.tag)
  {
  }

  lemma HasPrefixOfAppend(p: string, q: string)
    ensures HasPrefix(p + q, p)
  {
    assert (p + q)[..|p|] == p;
  }

  /** A string cut at its first `sep` has one way to be cut. */
  lemma SplitAtFirst(a: string, b: string, x: string, y: string, sep: char)
    requires sep !in a && sep !in b
    requires a + [sep] + x == b + [sep] + y
    ensures a == b && x == y
  {
    var u := a + [sep] + x;
    HasPrefixOfAppend(a + [sep], x);
    HasPrefixOfAppend(b + [sep], y);
    SeparatorIndexAfter(u, a, sep);
    SeparatorIndexAfter(u, b, sep);
    assert a == u[..|a|] == b;
    assert x == u[|a| + 1..] == y;
  }

  /** Lowering a name free of ':' leaves it free of ':'. */
  lemma LowerKeepsColonOut(name: string)
    requires ':' !in name
    ensures ':' !in ToLower(name)
  {
    var l := ToLower(name);
    forall k | 0 <= k < |l| ensures l[k] != ':' {
      assert l[k] == LowerChar(name[k]);
    }
  }

  /** Two images with the same URL agree on the registry and the tag, and on
      the name up to case, when the registry holds no '/' and the name no ':'. */
  lemma UrlDeterminesImage(i: Image, j: Image)
    requires '/' !in i.registry && '/' !in j.registry
    requires ':' !in i.name && ':' !in j.name
    requires Url(i) == Url(j)
    ensures i.registry == j.registry
    ensures ToLower(i.name) == ToLower(j.name)
    ensures i.tag == j.tag
  {
    UrlParts(i);
    UrlParts(j);
    var li, lj := ToLower(i.name), ToLower(j.name);
    SplitAtFirst(i.registry, j.registry, li + [':'] + i.tag, lj + [':'] + j.tag, '/');
    LowerKeepsColonOut(i.name);
    LowerKeepsColonOut(j.name);
    SplitAtFirst(li, lj, i.tag, j.tag, ':');
  }

  /** `Image.String`: the URL and whether the image is in the registry. */
  function String(i: Image): (s: string)
    ensures HasPrefix(s, Url(i))
    ensures s[|Url(i)|..] == ", in registry: " + BoolToString(i.inRegistry)
  {
    var s := Url(i) + ", in registry: " + BoolToString(i.inRegistry);
    assert s[..|Url(i)|] == Url(i);
    s
  }

  /** The prefix of the environment variables of an image: the repository path
      uppercased, with '/' and '-' written '_'. */
  function EnvVarName(repository: string): (r: string)
    ensures |r| == |repository|
    ensures forall k :: 0 <= k < |r| ==> r[k] != '/' && r[k] != '-' && !IsAsciiLower(r[k])
    ensures forall k :: 0 <= k < |r| ==>
      r[k] == (if repository[k] == '/' || repository[k] == '-' then '_' else UpperChar(repository[k]))
  {
    ToUpper(ReplaceChar(ReplaceChar(repository, '/', '_'), '-', '_'))
  }

  /** The prefix is a fixed point: an environment variable name maps to itself. */
  lemma EnvVarNameIdempotent(repository: string)
    ensures EnvVarName(EnvVarName(repository)) == EnvVarName(repository)
  {
    var once := EnvVarName(repository);
    forall k | 0 <= k < |once| ensures EnvVarName(once)[k] == once[k] {
    }
  }

  /** `GetImageEnVarPrefix`. `repositoryOf` stands for `name.ParseReference`
      followed by `Context().RepositoryStr()`; a parse failure is reported. */
  function GetImageEnVarPrefix(image: string, repositoryOf: string -> Result<string>): (r: Result<string>)
    ensures repositoryOf(image).Err? <==> r.Err?
    ensures r.Err? ==> r == Err(UrlParse(image))
    ensures r.Ok? ==> r.value == EnvVarName(repositoryOf(image).value)
  {
    match repositoryOf(image)
    case Err(_) => Err(UrlParse(image))
    case Ok(repStr) => Ok(EnvVarName(repStr))
  }

  /** The name is computed character by character. */
  lemma EnvVarNameAppend(a: string, b: string)
    ensures EnvVarName(a + b) == EnvVarName(a) + EnvVarName(b)
  {
  }

  /** The environment variable names of two repositories of
      internal/image_test.go. */
  lemma EnvVarNameAlpine()
    ensures EnvVarName("library/alpine") == "LIBRARY_ALPINE"
  {
    var r := EnvVarName("library/alpine");
    forall k | 0 <= k < 14 ensures r[k] == "LIBRARY_ALPINE"[k] {
    }
  }

  lemma EnvVarNameFinkBroker()
    ensures EnvVarName("astrolabsoftware/fink/fink-broker") == "ASTROLABSOFTWARE_FINK_FINK_BROKER"
  {
    EnvVarNameWords();
    EnvVarNameOfWords("astrolab", "software/", "fink/", "fink-broker", "ASTROLAB", "SOFTWARE_", "FINK_", "FINK_BROKER");
    FinkBrokerSpelling();
  }

  /** The two example strings, spelled as their words. */
  lemma FinkBrokerSpelling()
    ensures "astrolab" + "software/" + "fink/" + "fink-broker" == "astrolabsoftware/fink/fink-broker"
    ensures "ASTROLAB" + "SOFTWARE_" + "FINK_" + "FINK_BROKER" == "ASTROLABSOFTWARE_FINK_FINK_BROKER"
  {
  }

  /** The name of four words, given the name of each. */
  lemma EnvVarNameOfWords(a: string, b: string, c: string, d: string, na: string, nb: string, nc: string, nd: string)
    requires EnvVarName(a) == na && EnvVarName(b) == nb && EnvVarName(c) == nc && EnvVarName(d) == nd
    ensures EnvVarName(a + b + c + d) == na + nb + nc + nd
  {
    EnvVarNameAppend(a, b);
    EnvVarNameAppend(a + b, c);
    EnvVarNameAppend(a + b + c, d);
  }

  /** The words of the second example, checked character by character. */
  lemma EnvVarNameWords()
    ensures EnvVarName("astrolab") == "ASTROLAB"
    ensures EnvVarName("software/") == "SOFTWARE_"
    ensures EnvVarName("fink/") == "FINK_"
    ensures EnvVarName("fink-broker") == "FINK_BROKER"
  {
    var r0 := EnvVarName("astrolab");
    forall k | 0 <= k < 8 ensures r0[k] == "ASTROLAB"[k] {
    }
    var r1 := EnvVarName("software/");
    forall k | 0 <= k < 9 ensures r1[k] == "SOFTWARE_"[k] {
    }
    var r2 := EnvVarName("fink/");
    forall k | 0 <= k < 5 ensures r2[k] == "FINK_"[k] {
    }
    var r3 := EnvVarName("fink-broker");
    forall k | 0 <= k < 11 ensures r3[k] == "FINK_BROKER"[k] {
    }
  }

  /** Cases of internal/image_test.go, given the repositories the reference
      parser reports for them. */
  lemma EnvVarPrefixExamples(repositoryOf: string -> Result<string>)
    requires repositoryOf("docker.io/library/alpine:3.18.3") == Ok("library/alpine")
    requires repositoryOf("gitlab-registry.in2p3.fr/astrolabsoftware/fink/fink-broker:latest") == Ok("astrolabsoftware/fink/fink-broker")
    ensures GetImageEnVarPrefix("docker.io/library/alpine:3.18.3", repositoryOf) == Ok("LIBRARY_ALPINE")
    ensures GetImageEnVarPrefix("gitlab-registry.in2p3.fr/astrolabsoftware/fink/fink-broker:latest", repositoryOf)
      == Ok("ASTROLABSOFTWARE_FINK_FINK_BROKER")
  {
    EnvVarNameAlpine();
    EnvVarNameFinkBroker();
  }
}
