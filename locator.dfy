/**
  The two upward searches of rehash.rb: `RbenvBundler.gemfile`, which finds
  the nearest Gemfile, and `RbenvBundler.rbenv_version`, which finds the rbenv
  version that applies to a directory. Both walk from an expanded directory
  towards the root and stop before examining the root itself.
*/
module Locator {
  import opened Wrappers
  import opened Files
  import Strings

  /** The Gemfile the search returns: the nearest non-root ancestor of `dir`
      (`dir` included) holding an entry named "Gemfile", or nil. */
  function NearestGemfile(fs: FileSystem, dir: Path): Option<Path>
    decreases |dir|
  {
    if |dir| == 0 then None
    else if dir + ["Gemfile"] in fs then Some(dir + ["Gemfile"])
    else NearestGemfile(fs, Parent(dir))
  }

  /** The search finds the nearest Gemfile, finds nothing only when no non-root
      ancestor has one, and never returns the root's Gemfile. */
  lemma {:induction false} NearestGemfileIsNearest(fs: FileSystem, dir: Path)
    ensures NearestGemfile(fs, dir).None? <==>
      forall k :: 1 <= k <= |dir| ==> dir[..k] + ["Gemfile"] !in fs
    ensures NearestGemfile(fs, dir).Some? ==>
      var g := NearestGemfile(fs, dir).value;
      var d := Parent(g);
      && 1 <= |d| <= |dir| && d == dir[..|d|]
      && g == d + ["Gemfile"] && g in fs
      && forall j :: |d| < j <= |dir| ==> dir[..j] + ["Gemfile"] !in fs
    decreases |dir|
  {
    if |dir| > 0 {
      assert dir[..|dir|] == dir;
      if dir + ["Gemfile"] !in fs {
        var p := Parent(dir);
        NearestGemfileIsNearest(fs, p);
        assert forall k :: 1 <= k <= |p| ==> p[..k] == dir[..k];
      } else {
        assert Parent(dir + ["Gemfile"]) == dir;
      }
    }
  }

  /** A found Gemfile is the entry "Gemfile" of its parent directory. */
  lemma {:induction false} NearestGemfileShape(fs: FileSystem, dir: Path)
    ensures NearestGemfile(fs, dir).Some? ==>
      var g := NearestGemfile(fs, dir).value;
      |g| > 0 && g == Parent(g) + ["Gemfile"] && g in fs
    decreases |dir|
  {
    if |dir| > 0 {
      if dir + ["Gemfile"] !in fs {
        NearestGemfileShape(fs, Parent(dir));
      } else {
        assert Parent(dir + ["Gemfile"]) == dir;
      }
    }
  }

  /** `RbenvBundler.gemfile(dir)` for an expanded `dir`. */
  method FindGemfile(fs: FileSystem, start: Path) returns (gemfile: Option<Path>)
    ensures gemfile == NearestGemfile(fs, start)
  {
    var dir := start;
    while dir != []
      invariant NearestGemfile(fs, dir) == NearestGemfile(fs, start)
      decreases |dir|
    {
      var candidate := dir + ["Gemfile"];
      if candidate in fs {
        return Some(candidate);
      }
      dir := Parent(dir);
    }
    return None;
  }

  /** `Pathname.new("version").expand_path(ENV["RBENV_ROOT"])`; an unset
      RBENV_ROOT expands against the working directory. */
  function RootVersionFile(vars: map<string, string>, cwd: Path): Path
  {
    (if "RBENV_ROOT" in vars then ExpandPath(cwd, vars["RBENV_ROOT"]) else cwd) + ["version"]
  }

  /** The version files `rbenv_version` consults, in order. */
  function VersionCandidates(dir: Path, rootFile: Path): seq<Path>
    decreases |dir|
  {
    if |dir| == 0 then [rootFile]
    else [dir + [".rbenv-version"]] + VersionCandidates(Parent(dir), rootFile)
  }

  /** `.rbenv-version` in each non-root ancestor, nearest first, then the root
      version file last. */
  lemma {:induction false} VersionCandidatesShape(dir: Path, rootFile: Path)
    ensures |VersionCandidates(dir, rootFile)| == |dir| + 1
    ensures forall i :: 0 <= i < |dir| ==>
      VersionCandidates(dir, rootFile)[i] == dir[..|dir| - i] + [".rbenv-version"]
    ensures VersionCandidates(dir, rootFile)[|dir|] == rootFile
    decreases |dir|
  {
    if |dir| > 0 {
      var p := Parent(dir);
      var vs := VersionCandidates(dir, rootFile);
      VersionCandidatesShape(p, rootFile);
      assert vs == [dir + [".rbenv-version"]] + VersionCandidates(p, rootFile);
      forall i | 0 <= i < |dir| ensures vs[i] == dir[..|dir| - i] + [".rbenv-version"] {
        if i > 0 {
          assert vs[i] == VersionCandidates(p, rootFile)[i - 1];
          assert p[..|p| - (i - 1)] == dir[..|dir| - i];
        }
      }
    }
  }

  /** The loop of `rbenv_version` that collects its candidate files. */
  method VersionFiles(start: Path, rootFile: Path) returns (files: seq<Path>)
    ensures files == VersionCandidates(start, rootFile)
  {
    files := [];
    var dir := start;
    while dir != []
      invariant files + VersionCandidates(dir, rootFile) == VersionCandidates(start, rootFile)
      decreases |dir|
    {
      files := files + [dir + [".rbenv-version"]];
      dir := Parent(dir);
    }
    files := files + [rootFile];
  }

  /** A file's contents with one line terminator chomped, or what reading it raised. */
  function ChompedRead(fs: FileSystem, p: Path): Result<string, Error>
  {
    match ReadFile(fs, p)
    case Ok(text) => Ok(Strings.Chomp(text))
    case Err(e) => Err(e)
  }

  /** The first existing file, read and chomped; "system" when none exists. */
  function FirstVersion(fs: FileSystem, files: seq<Path>): Result<string, Error>
  {
    if |files| == 0 then Ok("system")
    else if files[0] in fs then ChompedRead(fs, files[0])
    else FirstVersion(fs, files[1..])
  }

  lemma {:induction false} FirstVersionIsFirst(fs: FileSystem, files: seq<Path>)
    ensures (forall i :: 0 <= i < |files| ==> files[i] !in fs) ==> FirstVersion(fs, files) == Ok("system")
    ensures forall i :: 0 <= i < |files| && files[i] in fs && (forall j :: 0 <= j < i ==> files[j] !in fs) ==>
      FirstVersion(fs, files) == ChompedRead(fs, files[i])
  {
    if |files| > 0 {
      FirstVersionIsFirst(fs, files[1..]);
      forall i | 0 < i < |files| && files[i] in fs && (forall j :: 0 <= j < i ==> files[j] !in fs)
        ensures FirstVersion(fs, files) == ChompedRead(fs, files[i])
      {
        assert files[0] !in fs;
        assert files[1..][i - 1] == files[i];
        assert forall j :: 0 <= j < i - 1 ==> files[1..][j] == files[j + 1];
      }
    }
  }

  /** `RbenvBundler.rbenv_version(dir)` for an expanded `dir`. */
  function RbenvVersionOf(fs: FileSystem, vars: map<string, string>, cwd: Path, dir: Path): Result<string, Error>
  {
    FirstVersion(fs, VersionCandidates(dir, RootVersionFile(vars, cwd)))
  }

  /** The nearest non-root `.rbenv-version` decides the version. */
  lemma RbenvVersionNearest(fs: FileSystem, vars: map<string, string>, cwd: Path, dir: Path, k: int)
    requires 1 <= k <= |dir| && dir[..k] + [".rbenv-version"] in fs
    requires forall j :: k < j <= |dir| ==> dir[..j] + [".rbenv-version"] !in fs
    ensures RbenvVersionOf(fs, vars, cwd, dir) == ChompedRead(fs, dir[..k] + [".rbenv-version"])
  {
    var files := VersionCandidates(dir, RootVersionFile(vars, cwd));
    VersionCandidatesShape(dir, RootVersionFile(vars, cwd));
    FirstVersionIsFirst(fs, files);
    var i := |dir| - k;
    assert files[i] == dir[..k] + [".rbenv-version"];
    forall j | 0 <= j < i ensures files[j] !in fs {
      assert files[j] == dir[..|dir| - j] + [".rbenv-version"];
    }
  }

  /** With no non-root `.rbenv-version`, the version comes from
      `$RBENV_ROOT/version`, else it is "system". */
  lemma RbenvVersionRoot(fs: FileSystem, vars: map<string, string>, cwd: Path, dir: Path)
    requires forall k :: 1 <= k <= |dir| ==> dir[..k] + [".rbenv-version"] !in fs
    ensures var rootFile := RootVersionFile(vars, cwd);
      RbenvVersionOf(fs, vars, cwd, dir) == if rootFile in fs then ChompedRead(fs, rootFile) else Ok("system")
  {
    FallBackToRoot(fs, dir, RootVersionFile(vars, cwd));
  }

  /** The candidates of a directory without `.rbenv-version` files come down
      to the root version file. */
  lemma {:induction false} FallBackToRoot(fs: FileSystem, dir: Path, rootFile: Path)
    requires forall k :: 1 <= k <= |dir| ==> dir[..k] + [".rbenv-version"] !in fs
    ensures FirstVersion(fs, VersionCandidates(dir, rootFile)) ==
      if rootFile in fs then ChompedRead(fs, rootFile) else Ok("system")
    decreases |dir|
  {
    if |dir| > 0 {
      var p := Parent(dir);
      assert dir[..|dir|] == dir;
      forall k | 1 <= k <= |p| ensures p[..k] + [".rbenv-version"] !in fs {
        assert p[..k] == dir[..k];
      }
      FallBackToRoot(fs, p, rootFile);
      assert VersionCandidates(dir, rootFile)[1..] == VersionCandidates(p, rootFile);
    }
  }

  /** `RbenvBundler.rbenv_version(dir)`: collect the candidates, then return the first that exists. */
  method RbenvVersion(fs: FileSystem, vars: map<string, string>, cwd: Path, dir: Path)
    returns (version: Result<string, Error>)
    ensures version == RbenvVersionOf(fs, vars, cwd, dir)
  {
    var files := VersionFiles(dir, RootVersionFile(vars, cwd));
    var i := 0;
    while i < |files|
      invariant 0 <= i <= |files|
      invariant FirstVersion(fs, files[i..]) == FirstVersion(fs, files)
    {
      if files[i] in fs {
        assert files[i..][0] == files[i];
        return ChompedRead(fs, files[i]);
      }
      assert files[i..][1..] == files[i + 1..];
      i := i + 1;
    }
    return Ok("system");
  }
}
