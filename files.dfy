/**
  Paths and the filesystem as the script sees them through Ruby's Pathname
  and File: expanded paths, `exist?`, reading a file, `open("w")` and
  `Pathname#delete`. Failures are the errors Ruby would raise.
*/
module Files {
  import opened Wrappers
  import Strings

  /** An expanded path as its segments; the root directory is []. */
  type Path = seq<string>

  /** What Ruby would raise, named after the condition (ENOENT, EISDIR, ...). */
  datatype Error =
    | NoSuchFile(path: Path)          // Errno::ENOENT
    | IsADirectory(path: Path)        // Errno::EISDIR
    | NotADirectory(path: Path)       // Errno::ENOTDIR
    | DirectoryNotEmpty(path: Path)   // Errno::ENOTEMPTY
    | OutputDirectoryMissing          // "The output directory does not exist"
    | OddNumberOfArguments            // Hash[] given an odd number of elements
    | NullByteInPath                  // Pathname.new of a string holding "\0"
    | NilValue(what: string)          // a method called on nil (NoMethodError / TypeError)
    | BundlerSetupFailed(gemfile: Path)
    | NoCapableRuby                   // "Could not locate a Ruby capable of running this script"

  predicate IsSegment(s: string)
  {
    s != "" && s != "." && s != ".." && '/' !in s
  }

  predicate IsNormal(p: Path)
  {
    forall i :: 0 <= i < |p| ==> IsSegment(p[i])
  }

  /** `Pathname#parent` of an expanded path; the root is its own parent. */
  function Parent(p: Path): (q: Path)
    ensures |p| > 0 ==> |q| == |p| - 1 && p == q + [p[|p| - 1]]
  {
    if |p| == 0 then [] else p[..|p| - 1]
  }

  /** `Pathname#to_s` of an expanded path. */
  function Text(p: Path): string
  {
    if |p| == 0 then "/" else Strings.Join([""] + p, '/')
  }

  /** Walks path segments from `base` the way `File.expand_path` does: "" and
      "." stay, ".." goes to the parent, anything else descends. */
  function Resolve(base: Path, segs: seq<string>): (p: Path)
    ensures IsNormal(base) && Strings.NoneContains(segs, '/') ==> IsNormal(p)
    decreases |segs|
  {
    if |segs| == 0 then base
    else
      var s := segs[0];
      var next := if s == "" || s == "." then base else if s == ".." then Parent(base) else base + [s];
      Resolve(next, segs[1..])
  }

  /** `File.expand_path(s, cwd)`: an absolute text from the root, any other from `cwd`. */
  function ExpandPath(cwd: Path, s: string): (p: Path)
    ensures IsNormal(cwd) ==> IsNormal(p)
  {
    var segs := Strings.SplitAll(s, '/');
    if |s| > 0 && s[0] == '/' then Resolve([], segs) else Resolve(cwd, segs)
  }

  lemma {:induction false} ResolveNormal(base: Path, segs: seq<string>)
    requires IsNormal(segs)
    ensures Resolve(base, segs) == base + segs
    decreases |segs|
  {
    if |segs| > 0 {
      ResolveNormal(base + [segs[0]], segs[1..]);
      assert base + [segs[0]] + segs[1..] == base + segs;
    }
  }

  /** Expanding the text of an expanded path gives the same path back, from any working directory. */
  lemma ExpandText(cwd: Path, p: Path)
    requires IsNormal(p)
    ensures ExpandPath(cwd, Text(p)) == p
  {
    if |p| == 0 {
      var t: string := "/";
      assert t[0] == '/' && t[1..] == "";
      assert Strings.SplitAll(t, '/') == ["", ""];
      assert Resolve([], ["", ""]) == Resolve([], [""]) == [];
    } else {
      var xs := [""] + p;
      assert Strings.NoneContains(xs, '/');
      Strings.SplitJoin(xs, '/');
      assert Text(p) == "" + ['/'] + Strings.Join(xs[1..], '/');
      assert xs[1..] == p;
      ResolveNormal([], p);
    }
  }

  datatype Node = File(text: string) | Dir

  type FileSystem = map<Path, Node>

  /** Some entry lies strictly below directory `d`. */
  predicate HasEntriesBelow(fs: FileSystem, d: Path)
  {
    exists q | q in fs :: |d| < |q| && q[..|d|] == d
  }

  /** Reading a whole file. */
  function ReadFile(fs: FileSystem, p: Path): (r: Result<string, Error>)
    ensures r.Ok? <==> p in fs && fs[p].File?
    ensures r.Ok? ==> r.value == fs[p].text
  {
    if p !in fs then Err(NoSuchFile(p))
    else if fs[p].Dir? then Err(IsADirectory(p))
    else Ok(fs[p].text)
  }

  /** `Pathname#delete`: unlinks a file, or removes an empty directory. */
  function Delete(fs: FileSystem, p: Path): (r: Result<FileSystem, Error>)
    ensures r.Ok? <==> p in fs && (fs[p].Dir? ==> !HasEntriesBelow(fs, p))
    ensures r.Ok? ==> r.value == fs - {p}
  {
    if p !in fs then Err(NoSuchFile(p))
    else if fs[p].Dir? && HasEntriesBelow(fs, p) then Err(DirectoryNotEmpty(p))
    else Ok(fs - {p})
  }

  /** `open("w")`: creates the file, or truncates it, inside an existing directory. */
  function OpenForWrite(fs: FileSystem, p: Path): (r: Result<FileSystem, Error>)
    ensures r.Ok? <==> !(p in fs && fs[p].Dir?) && Parent(p) in fs && fs[Parent(p)].Dir?
    ensures r.Ok? ==> r.value == fs[p := File("")]
  {
    if p in fs && fs[p].Dir? then Err(IsADirectory(p))
    else if Parent(p) !in fs then Err(NoSuchFile(p))
    else if fs[Parent(p)].File? then Err(NotADirectory(p))
    else Ok(fs[p := File("")])
  }

  /** The filesystem, which the script changes in place. */
  class Disk {
    var fs: FileSystem

    constructor (initial: FileSystem)
      ensures fs == initial
    {
      fs := initial;
    }

    /** `Pathname#delete`; on failure nothing changes. */
    method Remove(p: Path) returns (err: Option<Error>)
      modifies this
      ensures var r := Delete(old(fs), p);
        if r.Ok? then fs == r.value && err == None else fs == old(fs) && err == Some(r.error)
    {
      var r := Delete(fs, p);
      if r.Ok? {
        fs := r.value;
        err := None;
      } else {
        err := Some(r.error);
      }
    }

    /** `open("w")`: leaves an empty file at `p`; on failure nothing changes. */
    method Create(p: Path) returns (err: Option<Error>)
      modifies this
      ensures var r := OpenForWrite(old(fs), p);
        if r.Ok? then fs == r.value && err == None else fs == old(fs) && err == Some(r.error)
    {
      var r := OpenForWrite(fs, p);
      if r.Ok? {
        fs := r.value;
        err := None;
      } else {
        err := Some(r.error);
      }
    }

    /** The contents of an open file once its writes are flushed. */
    method Store(p: Path, text: string)
      modifies this
      ensures fs == old(fs)[p := File(text)]
    {
      fs := fs[p := File(text)];
    }
  }
}
