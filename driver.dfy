/**
  The main block of rehash.rb: the directories named on the command line are
  replaced by the directories of their Gemfiles, each starts without a
  recorded listing, and with `--refresh` the previous index is merged over
  them. Then the profiles are built, a capable Ruby ensured, and `rehash` run.
*/
module Driver {
  import opened Wrappers
  import opened Files
  import opened RubyHash
  import opened GemEnv
  import opened Versions
  import opened Profiles
  import opened Capable
  import opened Manifest
  import opened Locator
  import opened Rehash

  /** `positional_args.map { |arg| gemfile(Pathname.new(arg)) }`. */
  function ArgGemfiles(fs: FileSystem, cwd: Path, args: seq<string>): (gs: seq<Option<Path>>)
    ensures |gs| == |args|
    ensures forall i :: 0 <= i < |args| ==> gs[i] == NearestGemfile(fs, ExpandPath(cwd, args[i]))
  {
    if |args| == 0 then [] else [NearestGemfile(fs, ExpandPath(cwd, args[0]))] + ArgGemfiles(fs, cwd, args[1..])
  }

  /** `.compact.map { |gemfile| gemfile.parent }`. */
  function CompactParents(gs: seq<Option<Path>>): (dirs: seq<Path>)
    ensures forall d :: d in dirs ==> exists i :: 0 <= i < |gs| && gs[i].Some? && d == Parent(gs[i].value)
    ensures forall i :: 0 <= i < |gs| && gs[i].Some? ==> Parent(gs[i].value) in dirs
  {
    if |gs| == 0 then []
    else
      var rest := CompactParents(gs[1..]);
      assert forall i :: 1 <= i < |gs| ==> gs[i] == gs[1..][i - 1];
      if gs[0].Some? then [Parent(gs[0].value)] + rest else rest
  }

  /** The directories named on the command line, replaced by those of their Gemfiles. */
  function ArgDirs(fs: FileSystem, cwd: Path, args: seq<string>): seq<Path>
  {
    CompactParents(ArgGemfiles(fs, cwd, args))
  }

  /** Every directory is that of the Gemfile found for some argument, and the
      directory of every Gemfile found is there. */
  lemma ArgDirsSpec(fs: FileSystem, cwd: Path, args: seq<string>)
    ensures forall d :: d in ArgDirs(fs, cwd, args) ==>
      exists i :: 0 <= i < |args| && NearestGemfile(fs, ExpandPath(cwd, args[i])) == Some(d + ["Gemfile"])
    ensures forall i :: 0 <= i < |args| && NearestGemfile(fs, ExpandPath(cwd, args[i])).Some? ==>
      Parent(NearestGemfile(fs, ExpandPath(cwd, args[i])).value) in ArgDirs(fs, cwd, args)
  {
    var gs := ArgGemfiles(fs, cwd, args);
    forall d | d in ArgDirs(fs, cwd, args)
      ensures exists i :: 0 <= i < |args| && NearestGemfile(fs, ExpandPath(cwd, args[i])) == Some(d + ["Gemfile"])
    {
      var i :| 0 <= i < |gs| && gs[i].Some? && d == Parent(gs[i].value);
      NearestGemfileShape(fs, ExpandPath(cwd, args[i]));
    }
  }

  /** `Hash[dirs.zip([nil] * dirs.size)]`, keyed by the directories' text. */
  function Unrecorded(dirs: seq<Path>): (ps: seq<(string, Option<string>)>)
    ensures |ps| == |dirs|
    ensures forall i :: 0 <= i < |dirs| ==> ps[i] == (Text(dirs[i]), None)
  {
    if |dirs| == 0 then [] else [(Text(dirs[0]), None)] + Unrecorded(dirs[1..])
  }

  /** The previous index with every listing name as a recorded value. */
  function Recorded(h: Hash<string, string>): (r: Hash<string, Option<string>>)
    ensures |r| == |h|
    ensures forall i :: 0 <= i < |h| ==> r[i] == (h[i].0, Some(h[i].1))
  {
    if |h| == 0 then [] else [(h[0].0, Some(h[0].1))] + Recorded(h[1..])
  }

  lemma {:induction false} RecordedGet(h: Hash<string, string>, k: string)
    ensures Get(Recorded(h), k) == if Get(h, k).Some? then Some(Some(Get(h, k).value)) else None
  {
    if |h| > 0 && h[0].0 != k {
      RecordedGet(h[1..], k);
      assert Recorded(h)[1..] == Recorded(h[1..]);
    }
  }

  /** The manifest map handed to `rehash`. */
  function InitialManifest(fs: FileSystem, cwd: Path, outDir: Path, args: seq<string>, refresh: bool)
    : Result<Hash<string, Option<string>>, Error>
  {
    var unrecorded := FromPairs(Unrecorded(ArgDirs(fs, cwd, args)));
    if !refresh then Ok(unrecorded)
    else
      var previous :- ReadManifest(fs, outDir);
      Ok(Merge(unrecorded, Recorded(previous)))
  }

  /** Each directory found from the arguments is a key with no recorded
      listing, and there is no other key. */
  lemma UnrecordedGet(dirs: seq<Path>, k: string)
    ensures Get(FromPairs(Unrecorded(dirs)), k) == if exists d :: d in dirs && Text(d) == k then Some(None) else None
  {
    var ps := Unrecorded(dirs);
    FromPairsHas(ps, k);
    FromPairsUniform(ps, None, k);
    if exists d :: d in dirs && Text(d) == k {
      var d :| d in dirs && Text(d) == k;
      var i :| 0 <= i < |dirs| && dirs[i] == d;
      assert ps[i].0 == k;
    }
    if Get(FromPairs(ps), k).Some? {
      var i :| 0 <= i < |ps| && ps[i].0 == k;
      assert dirs[i] in dirs && Text(dirs[i]) == k;
    }
  }

  /** A directory found from an argument starts with no recorded listing; with
      `--refresh` every directory of the previous index gets its recorded
      listing, overriding nil; nothing else is in the map. A previous index
      that cannot be read ends the run. */
  lemma InitialManifestSpec(fs: FileSystem, cwd: Path, outDir: Path, args: seq<string>, refresh: bool, k: string)
    ensures refresh ==> (InitialManifest(fs, cwd, outDir, args, refresh).Err? <==> ReadManifest(fs, outDir).Err?)
    ensures !refresh ==> InitialManifest(fs, cwd, outDir, args, refresh).Ok?
    ensures InitialManifest(fs, cwd, outDir, args, refresh).Ok? ==>
      var m := InitialManifest(fs, cwd, outDir, args, refresh).value;
      var fromArgs := exists d :: d in ArgDirs(fs, cwd, args) && Text(d) == k;
      Get(m, k) ==
        if refresh && Get(ReadManifest(fs, outDir).value, k).Some? then Some(Some(Get(ReadManifest(fs, outDir).value, k).value))
        else if fromArgs then Some(None)
        else None
  {
    var unrecorded := FromPairs(Unrecorded(ArgDirs(fs, cwd, args)));
    UnrecordedGet(ArgDirs(fs, cwd, args), k);
    if refresh && ReadManifest(fs, outDir).Ok? {
      var previous := ReadManifest(fs, outDir).value;
      RecordedGet(previous, k);
      assert UniqueKeys(Recorded(previous));
      MergeGet(unrecorded, Recorded(previous), k);
    }
  }

  /** How a run of the script ends. */
  datatype Ending = Done | Reran(version: string) | Failed(error: Error)

  /** The main block after the profiles are built: ensure a capable Ruby, build
      the manifest map, and rehash. `s.profiles` is what `build_ruby_profiles`
      returned. */
  method RunScript(disk: Disk, env: Environment, s: Setup, scriptVersion: seq<int>, scriptEngine: string,
              args: seq<string>, refresh: bool)
    returns (ending: Ending)
    modifies disk, env
    ensures AtLeast19(scriptVersion) && scriptEngine != "jruby" ==>
      env.vars == old(env.vars) &&
      match InitialManifest(old(disk.fs), s.cwd, s.outDir, args, refresh)
      case Err(e) => ending == Failed(e) && disk.fs == old(disk.fs)
      case Ok(m) =>
        var r := RehashSpec(s, old(env.vars), old(disk.fs), m);
        disk.fs == r.fs && ending == (if r.error.Some? then Failed(r.error.value) else Done)
    ensures !(AtLeast19(scriptVersion) && scriptEngine != "jruby") ==>
      disk.fs == old(disk.fs) &&
      match Chosen(s.profiles)
      case None => ending == Failed(NoCapableRuby) && env.vars == old(env.vars)
      case Some(v) =>
        match ChildEnv(old(env.vars), v)
        case Ok(e) => ending == Reran(v) && env.vars == e
        case Err(err) => ending == Failed(err) && env.vars == Scrubbed(old(env.vars))
  {
    var decision := EnsureCapableRuby(env, scriptVersion, scriptEngine, s.profiles);
    match decision {
      case Reexec(v) => return Reran(v);
      case Abort(e) => return Failed(e);
      case Continue =>
    }
    var manifest := InitialManifest(disk.fs, s.cwd, s.outDir, args, refresh);
    if manifest.Err? {
      return Failed(manifest.error);
    }
    var err := Rehash.Rehash(disk, env, s, manifest.value);
    ending := if err.Some? then Failed(err.value) else Done;
  }
}
