/** The path and name helpers of internal/utils.go. The filesystem probe
    `isDirectory` and Go's `url.Parse` are oracles passed in by the caller. */
module Utils {
  import opened Errors
  import opened Text
  import opened FilePaths
  import opened Labels

  /** `LabelSelectorToFileName`: a suffix for a file name naming the selector:
      empty for the empty selector, otherwise '_' followed by the selector's
      text with each '=' written '_' and each ',' written '-'. */
  function LabelSelectorToFileName(selector: Selector): (r: string)
    ensures r == "" <==> selector.text == ""
    ensures r != "" ==>
      |r| == |selector.text| + 1 && r[0] == '_' &&
      forall i :: 0 <= i < |selector.text| ==>
        r[i + 1] == (if selector.text[i] == '=' then '_' else if selector.text[i] == ',' then '-' else selector.text[i])
    ensures '=' !in r && ',' !in r
  {
    var str := selector.text;
    if str == "" then ""
    else
      var r := "_" + ReplaceChar(ReplaceChar(str, '=', '_'), ',', '-');
      assert forall i :: 0 <= i < |r| ==> r[i] != '=' && r[i] != ',' by {
        forall i | 0 <= i < |r| ensures r[i] != '=' && r[i] != ',' {
          if i > 0 { assert r[i] == ReplaceChar(ReplaceChar(str, '=', '_'), ',', '-')[i - 1]; }
        }
      }
      r
  }

  /** `LastDir`: the last element of a URL's path. `urlPath` is `url.Parse`
      followed by `.Path`; its failure is returned unchanged. */
  function LastDir(permalink: string, urlPath: string -> Result<string>): (r: Result<string>)
    ensures urlPath(permalink).Err? ==> r == Err(urlPath(permalink).error)
    ensures urlPath(permalink).Ok? ==> r.Ok? && r.value != ""
    ensures urlPath(permalink) == Ok("") ==> r == Ok(".")
  {
    var path :- urlPath(permalink);
    Ok(Base(path))
  }

  /** What `LastDir` means: when the parsed path is a directory prefix (empty or
      ending in '/'), then a slash-free element, then only slashes, the result is
      that element. */
  lemma LastDirIsLastElement(permalink: string, urlPath: string -> Result<string>,
                             dir: string, name: string, trailing: string)
    requires urlPath(permalink) == Ok(dir + name + trailing)
    requires dir == "" || dir[|dir| - 1] == '/'
    requires name != "" && '/' !in name
    requires forall i :: 0 <= i < |trailing| ==> trailing[i] == '/'
    ensures LastDir(permalink, urlPath) == Ok(name)
  {
    TrimTrailingSlashesOf(dir + name, trailing);
    LastElementAfterSlash(dir, name);
  }

  /** Cases of internal/utils_test.go, for URLs whose parsed path is the text
      itself: a file and a directory with a trailing slash. */
  lemma LastDirOfFile(urlPath: string -> Result<string>)
    requires urlPath("/home/user/documents/file.txt") == Ok("/home/user/documents/file.txt")
    ensures LastDir("/home/user/documents/file.txt", urlPath) == Ok("file.txt")
  {
    var dir, name := "/home/user/documents/", "file.txt";
    assert dir + name + "" == "/home/user/documents/file.txt";
    assert '/' !in name;
    LastDirIsLastElement("/home/user/documents/file.txt", urlPath, dir, name, "");
  }

  lemma LastDirOfDirectory(urlPath: string -> Result<string>)
    requires urlPath("/home/user/documents/") == Ok("/home/user/documents/")
    ensures LastDir("/home/user/documents/", urlPath) == Ok("documents")
  {
    var dir, name := "/home/user/", "documents";
    assert dir + name + "/" == "/home/user/documents/";
    assert '/' !in name;
    LastDirIsLastElement("/home/user/documents/", urlPath, dir, name, "/");
  }

  /** `IsPathInSubdirectory`: an empty file path is refused; otherwise the file
      is inside the directory exactly when it starts with the directory followed
      by the separator. */
  function IsPathInSubdirectory(absFilePath: string, absSubdirectory: string): (r: Result<bool>)
    ensures r.Err? <==> absFilePath == ""
    ensures r.Err? ==> r.error == InvalidArgument(absFilePath)
    ensures r.Ok? ==> (r.value <==> HasPrefix(absFilePath, absSubdirectory + "/"))
  {
    if absFilePath == "" then Err(InvalidArgument(absFilePath))
    else Ok(HasPrefix(absFilePath, absSubdirectory + "/"))
  }

  /** A directory is never inside itself, the empty directory contains every
      absolute path, and being inside is transitive. */
  lemma SubdirectoryFacts(f: string, a: string, b: string)
    ensures f != "" ==> IsPathInSubdirectory(f, f) == Ok(false)
    ensures IsAbs(f) ==> IsPathInSubdirectory(f, "") == Ok(true)
    ensures IsPathInSubdirectory(f, b) == Ok(true) && IsPathInSubdirectory(b, a) == Ok(true) ==>
      IsPathInSubdirectory(f, a) == Ok(true)
  {
    assert IsAbs(f) ==> ("" + "/") == f[..1];
    if IsPathInSubdirectory(f, b) == Ok(true) && IsPathInSubdirectory(b, a) == Ok(true) {
      assert f[..|a + "/"|] == b[..|a + "/"|];
    }
  }

  /** Cases of internal/utils_test.go. */
  lemma IsPathInSubdirectoryExamples()
    ensures IsPathInSubdirectory("/home/user/documents/file.txt", "/home/user") == Ok(true)
    ensures IsPathInSubdirectory("/home/user/documents/file.txt", "/tmp") == Ok(false)
    ensures IsPathInSubdirectory("cwd/documents/file.txt", "cwd/documents") == Ok(true)
    ensures IsPathInSubdirectory("cwd/documents/file.txt", "tmp") == Ok(false)
    ensures IsPathInSubdirectory("", "/home/user").Err?
    ensures IsPathInSubdirectory("/home/user/documents/file.txt", "") == Ok(true)
  {
    assert "/home/user/documents/file.txt"[..11] == "/home/user" + "/";
    assert "/home/user/documents/file.txt"[..5][1] != ("/tmp" + "/")[1];
    assert "cwd/documents/file.txt"[..14] == "cwd/documents" + "/";
    assert "cwd/documents/file.txt"[..4][0] != ("tmp" + "/")[0];
    assert "/home/user/documents/file.txt"[..1] == "" + "/";
  }

  /** The verdict of one entry of the source path list: refused when absolute, the
      probe's error when the probe fails, the prefix rule when the root-joined entry
      is a directory, and equality of the relative paths otherwise. */
  function EntryVerdict(root: string, filePath: string, absFilePath: string, sourcePath: string,
                        isDirectory: string -> Result<bool>): Result<bool>
  {
    if IsAbs(sourcePath) then Err(InvalidArgument(sourcePath))
    else
      var absSourcePath := Join(root, sourcePath);
      match isDirectory(absSourcePath)
      case Err(e) => Err(e)
      case Ok(isDir) =>
        if isDir then IsPathInSubdirectory(absFilePath, absSourcePath)
        else Ok(sourcePath == filePath)
  }

  /** The entries are tried in order; the first that does not say "no match" decides. */
  function FirstVerdict(root: string, filePath: string, absFilePath: string, sourcePathes: seq<string>,
                        isDirectory: string -> Result<bool>): Result<bool>
  {
    if sourcePathes == [] then Ok(false)
    else
      var v := EntryVerdict(root, filePath, absFilePath, sourcePathes[0], isDirectory);
      if v == Ok(false) then FirstVerdict(root, filePath, absFilePath, sourcePathes[1..], isDirectory) else v
  }

  /** What `IsFileInSourcePathes` computes. */
  function FileInSourcePathes(root: string, filePath: string, sourcePathes: seq<string>,
                              isDirectory: string -> Result<bool>): (r: Result<bool>)
    ensures sourcePathes == [] ==> r == Ok(true)
    ensures sourcePathes != [] && IsAbs(filePath) ==> r == Err(InvalidArgument(filePath))
  {
    if sourcePathes == [] then Ok(true)
    else if IsAbs(filePath) then Err(InvalidArgument(filePath))
    else FirstVerdict(root, filePath, Join(root, filePath), sourcePathes, isDirectory)
  }

  /** `IsFileInSourcePathes`: whether a file path, relative to `root`, lies in one of
      the source paths. */
  method IsFileInSourcePathes(root: string, filePath: string, sourcePathes: seq<string>,
                              isDirectory: string -> Result<bool>) returns (r: Result<bool>)
    ensures r == FileInSourcePathes(root, filePath, sourcePathes, isDirectory)
  {
    if |sourcePathes| == 0 {
      return Ok(true);
    }
    var absFilePath: string;
    if IsAbs(filePath) {
      return Err(InvalidArgument(filePath));
    } else {
      absFilePath := Join(root, filePath);
    }
    var i := 0;
    while i < |sourcePathes|
      invariant 0 <= i <= |sourcePathes|
      invariant FirstVerdict(root, filePath, absFilePath, sourcePathes, isDirectory)
             == FirstVerdict(root, filePath, absFilePath, sourcePathes[i..], isDirectory)
    {
      var sourcePath := sourcePathes[i];
      assert sourcePathes[i..][1..] == sourcePathes[i + 1..];
      var absSourcePath: string;
      if IsAbs(sourcePath) {
        return Err(InvalidArgument(sourcePath));
      } else {
        absSourcePath := Join(root, sourcePath);
      }
      var isDir := isDirectory(absSourcePath);
      if isDir.Err? {
        return Err(isDir.error);
      }
      if isDir.value {
        var inSubdirectory := IsPathInSubdirectory(absFilePath, absSourcePath);
        if inSubdirectory.Err? {
          return Err(inSubdirectory.error);
        }
        if inSubdirectory.value {
          return Ok(true);
        }
      } else {
        if sourcePath == filePath {
          return Ok(true);
        }
      }
      i := i + 1;
    }
    return Ok(false);
  }

  /** An entry matches the file: a directory whose root-joined path prefixes the
      root-joined file path, or a non-directory equal to the file path. */
  ghost predicate EntryMatches(root: string, filePath: string, sourcePath: string,
                               isDirectory: string -> Result<bool>)
  {
    var absSourcePath := Join(root, sourcePath);
    var absFilePath := Join(root, filePath);
    && !IsAbs(sourcePath)
    && isDirectory(absSourcePath).Ok?
    && (if isDirectory(absSourcePath).value
        then absFilePath != "" && HasPrefix(absFilePath, absSourcePath + "/")
        else sourcePath == filePath)
  }

  /** An entry fails the check: it is absolute, its probe fails, or it is a
      directory and the joined file path is empty. */
  ghost predicate EntryFails(root: string, filePath: string, sourcePath: string,
                             isDirectory: string -> Result<bool>)
  {
    var absSourcePath := Join(root, sourcePath);
    || IsAbs(sourcePath)
    || isDirectory(absSourcePath).Err?
    || (isDirectory(absSourcePath) == Ok(true) && Join(root, filePath) == "")
  }

  /** None of the first `k` entries decides anything. */
  ghost predicate Undecided(root: string, filePath: string, sourcePathes: seq<string>, k: int,
                            isDirectory: string -> Result<bool>)
    requires 0 <= k <= |sourcePathes|
  {
    forall j :: 0 <= j < k ==>
      !EntryMatches(root, filePath, sourcePathes[j], isDirectory) &&
      !EntryFails(root, filePath, sourcePathes[j], isDirectory)
  }

  /** Some entry matches before any decides otherwise. */
  ghost predicate MatchesFirst(root: string, filePath: string, sourcePathes: seq<string>,
                               isDirectory: string -> Result<bool>)
  {
    exists k :: 0 <= k < |sourcePathes| && EntryMatches(root, filePath, sourcePathes[k], isDirectory) &&
      Undecided(root, filePath, sourcePathes, k, isDirectory)
  }

  /** Some entry fails before any decides otherwise. */
  ghost predicate FailsFirst(root: string, filePath: string, sourcePathes: seq<string>,
                             isDirectory: string -> Result<bool>)
  {
    exists k :: 0 <= k < |sourcePathes| && EntryFails(root, filePath, sourcePathes[k], isDirectory) &&
      Undecided(root, filePath, sourcePathes, k, isDirectory)
  }

  lemma UndecidedCons(root: string, filePath: string, sourcePathes: seq<string>, k: int,
                      isDirectory: string -> Result<bool>)
    requires 0 <= k < |sourcePathes|
    ensures Undecided(root, filePath, sourcePathes, k + 1, isDirectory) <==>
      !EntryMatches(root, filePath, sourcePathes[0], isDirectory) &&
      !EntryFails(root, filePath, sourcePathes[0], isDirectory) &&
      Undecided(root, filePath, sourcePathes[1..], k, isDirectory)
  {
    var rest := sourcePathes[1..];
    assert forall j :: 0 <= j < k ==> rest[j] == sourcePathes[j + 1];
    if !EntryMatches(root, filePath, sourcePathes[0], isDirectory) &&
       !EntryFails(root, filePath, sourcePathes[0], isDirectory) &&
       Undecided(root, filePath, rest, k, isDirectory) {
      forall j | 0 <= j < k + 1
        ensures !EntryMatches(root, filePath, sourcePathes[j], isDirectory) &&
                !EntryFails(root, filePath, sourcePathes[j], isDirectory)
      {
        if j > 0 { assert sourcePathes[j] == rest[j - 1]; }
      }
    }
  }

  lemma {:induction false} FirstVerdictIsFirstDecisiveEntry(root: string, filePath: string, sourcePathes: seq<string>,
                                                            isDirectory: string -> Result<bool>)
    ensures var v := FirstVerdict(root, filePath, Join(root, filePath), sourcePathes, isDirectory);
      && (v == Ok(true) <==> MatchesFirst(root, filePath, sourcePathes, isDirectory))
      && (v.Err? <==> FailsFirst(root, filePath, sourcePathes, isDirectory))
  {
    if sourcePathes != [] {
      var sp := sourcePathes[0];
      var rest := sourcePathes[1..];
      FirstVerdictIsFirstDecisiveEntry(root, filePath, rest, isDirectory);
      var e := EntryVerdict(root, filePath, Join(root, filePath), sp, isDirectory);
      assert e == Ok(true) <==> EntryMatches(root, filePath, sp, isDirectory);
      assert e.Err? <==> EntryFails(root, filePath, sp, isDirectory);
      assert Undecided(root, filePath, sourcePathes, 0, isDirectory);
      if e == Ok(false) {
        if MatchesFirst(root, filePath, sourcePathes, isDirectory) {
          var k :| 0 <= k < |sourcePathes| && EntryMatches(root, filePath, sourcePathes[k], isDirectory) &&
            Undecided(root, filePath, sourcePathes, k, isDirectory);
          UndecidedCons(root, filePath, sourcePathes, k - 1, isDirectory);
          assert rest[k - 1] == sourcePathes[k];
        }
        if MatchesFirst(root, filePath, rest, isDirectory) {
          var k :| 0 <= k < |rest| && EntryMatches(root, filePath, rest[k], isDirectory) &&
            Undecided(root, filePath, rest, k, isDirectory);
          UndecidedCons(root, filePath, sourcePathes, k, isDirectory);
          assert rest[k] == sourcePathes[k + 1];
        }
        if FailsFirst(root, filePath, sourcePathes, isDirectory) {
          var k :| 0 <= k < |sourcePathes| && EntryFails(root, filePath, sourcePathes[k], isDirectory) &&
            Undecided(root, filePath, sourcePathes, k, isDirectory);
          UndecidedCons(root, filePath, sourcePathes, k - 1, isDirectory);
          assert rest[k - 1] == sourcePathes[k];
        }
        if FailsFirst(root, filePath, rest, isDirectory) {
          var k :| 0 <= k < |rest| && EntryFails(root, filePath, rest[k], isDirectory) &&
            Undecided(root, filePath, rest, k, isDirectory);
          UndecidedCons(root, filePath, sourcePathes, k, isDirectory);
          assert rest[k] == sourcePathes[k + 1];
        }
      } else if e == Ok(true) {
        assert MatchesFirst(root, filePath, sourcePathes, isDirectory);
      } else {
        assert FailsFirst(root, filePath, sourcePathes, isDirectory);
      }
    }
  }

  /** What `IsFileInSourcePathes` promises: an empty list admits every file; an
      absolute file path against a non-empty list is refused; otherwise the file
      is in scope exactly when some entry matches before any entry fails, and the
      check fails exactly when some entry fails before any matches. */
  lemma FileInSourcePathesMeaning(root: string, filePath: string, sourcePathes: seq<string>,
                                  isDirectory: string -> Result<bool>)
    ensures var v := FileInSourcePathes(root, filePath, sourcePathes, isDirectory);
      && (sourcePathes == [] ==> v == Ok(true))
      && (sourcePathes != [] && IsAbs(filePath) ==> v == Err(InvalidArgument(filePath)))
      && (sourcePathes != [] && !IsAbs(filePath) ==>
           && (v == Ok(true) <==> MatchesFirst(root, filePath, sourcePathes, isDirectory))
           && (v.Err? <==> FailsFirst(root, filePath, sourcePathes, isDirectory)))
  {
    FirstVerdictIsFirstDecisiveEntry(root, filePath, sourcePathes, isDirectory);
  }
}
