/**
  `RbenvBundler.build_ruby_profiles`: one profile per rbenv Ruby, read from
  what a probe run under that Ruby prints, or taken from the cache file when
  the cache is not older than the versions directory. Running the probe is an
  opaque function from the child's environment to its output.
*/
module Profiles {
  import opened Wrappers
  import opened Files
  import opened RubyHash
  import opened GemEnv
  import opened Versions
  import Strings

  /** What the probe reports about one Ruby: `RUBY_VERSION` as numbers,
      `Gem.dir`, `Gem.ruby_engine` and RubyGems' `ruby_version`; the last two
      are nil when the probe printed fewer lines. */
  datatype Profile = Profile(
    rubyVersion: seq<int>,
    gemDir: string,
    engine: Option<string>,
    engineVersion: Option<string>)

  /** `values[i]`: nil past the end. */
  function At(values: seq<string>, i: nat): (r: Option<string>)
    ensures r.Some? <==> i < |values|
    ensures r.Some? ==> r.value == values[i]
  {
    if i < |values| then Some(values[i]) else None
  }

  /** The probe's output read as a profile: empty output means the Ruby does
      not exist; otherwise its newline-terminated lines are the version, the gem
      directory and the two engine values. A missing version or gem directory
      line raises, and so does a NUL in the gem directory. */
  function ParseProbe(out: string): (r: Result<Option<Profile>, Error>)
    ensures out == "" <==> r == Ok(None)
    ensures r.Err? <==> out != "" && (|Strings.Lines(out)| < 2 || '\0' in Strings.Lines(out)[1])
    ensures r.Ok? && r.value.Some? ==>
      var values := Strings.Lines(out);
      |values| >= 2 && r.value.value == Profile(ParseVersion(values[0]), values[1], At(values, 2), At(values, 3))
  {
    if out == "" then Ok(None)
    else
      var values := Strings.Lines(out);
      if |values| < 1 then Err(NilValue("values[0]"))
      else if |values| < 2 then Err(NilValue("values[1]"))
      else if '\0' in values[1] then Err(NullByteInPath)
      else Ok(Some(Profile(ParseVersion(values[0]), values[1], At(values, 2), At(values, 3))))
  }

  /** The output of the probe for a Ruby with the given values. */
  function ProbeOutput(version: seq<nat>, gemDir: string, engine: string, engineVersion: string): string
  {
    Strings.Terminated([VersionText(version), gemDir, engine, engineVersion])
  }

  /** The probe's four lines read back as the profile they describe. */
  lemma ParseProbeOutput(version: seq<nat>, gemDir: string, engine: string, engineVersion: string)
    requires '\n' !in gemDir && '\n' !in engine && '\n' !in engineVersion && '\0' !in gemDir
    ensures ParseProbe(ProbeOutput(version, gemDir, engine, engineVersion)) ==
      Ok(Some(Profile(version, gemDir, Some(engine), Some(engineVersion))))
  {
    var lines := [VersionText(version), gemDir, engine, engineVersion];
    VersionTextFree(version, '\n');
    assert Strings.NoneContains(lines, '\n');
    Strings.LinesOfTerminated(lines);
    ParseVersionText(version);
    assert ProbeOutput(version, gemDir, engine, engineVersion) != "";
  }

  /** `ENV["PATH"].split(":", -1)[1..-1].join(":")`: PATH without its first
      directory. Both an unset PATH and an empty one end in a method called on nil. */
  function PopPath(path: Option<string>): (r: Result<string, Error>)
    ensures r.Err? <==> path.None? || path.value == ""
  {
    if path.None? then Err(NilValue("PATH"))
    else
      var pieces := Strings.RubySplit(path.value, ':');
      if |pieces| == 0 then Err(NilValue("PATH"))
      else Ok(Strings.Join(pieces[1..], ':'))
  }

  /** Popping a PATH made of directories leaves the directories after the first. */
  lemma PopPathDropsFirst(dirs: seq<string>)
    requires |dirs| >= 1 && Strings.NoneContains(dirs, ':') && Strings.Join(dirs, ':') != ""
    ensures PopPath(Some(Strings.Join(dirs, ':'))) == Ok(Strings.Join(dirs[1..], ':'))
  {
    Strings.SplitJoin(dirs, ':');
  }

  /** The environment variables a child Ruby must not inherit. */
  function Scrubbed(vars: map<string, string>): (r: map<string, string>)
    ensures forall n :: n in r <==> n in vars && n != "PWD" && n != "RBENV_DIR" && n != "RBENV_HOOK_PATH" && n != "RBENV_ROOT"
    ensures forall n :: n in r ==> r[n] == vars[n]
  {
    vars - {"PWD", "RBENV_DIR", "RBENV_HOOK_PATH", "RBENV_ROOT"}
  }

  /** The environment a Ruby of rbenv version `version` is run with: no PWD,
      RBENV_DIR, RBENV_HOOK_PATH or RBENV_ROOT, PATH without its first
      directory, RBENV_VERSION set to the version, every other variable as
      before. It cannot be built when PATH is unset or empty. */
  function ChildEnv(vars: map<string, string>, version: string): (r: Result<map<string, string>, Error>)
    ensures r.Err? <==> Lookup(vars, "PATH") in {None, Some("")}
    ensures r.Ok? ==>
      var e := r.value;
      && "PWD" !in e && "RBENV_DIR" !in e && "RBENV_HOOK_PATH" !in e && "RBENV_ROOT" !in e
      && Lookup(e, "RBENV_VERSION") == Some(version)
      && "PATH" in e && PopPath(Lookup(vars, "PATH")) == Ok(e["PATH"])
      && forall n :: n !in {"PWD", "RBENV_DIR", "RBENV_HOOK_PATH", "RBENV_ROOT", "PATH", "RBENV_VERSION"} ==>
           Lookup(e, n) == Lookup(vars, n)
  {
    var scrubbed := Scrubbed(vars);
    var path :- PopPath(Lookup(scrubbed, "PATH"));
    Ok(scrubbed["PATH" := path]["RBENV_VERSION" := version])
  }

  /** The profile of one rbenv version, or nil when its probe printed nothing. */
  function Probed(vars: map<string, string>, probe: map<string, string> -> string, version: string): Result<Option<Profile>, Error>
  {
    var env :- ChildEnv(vars, version);
    ParseProbe(probe(env))
  }

  /** The `map` over the versions followed by the `select` dropping nils;
      `probed` gives each version's probe result. */
  function ProbeAll(versions: seq<string>, probed: string -> Result<Option<Profile>, Error>)
    : Result<seq<(string, Profile)>, Error>
  {
    if |versions| == 0 then Ok([])
    else
      var first :- probed(versions[0]);
      var rest :- ProbeAll(versions[1..], probed);
      Ok(if first.Some? then [(versions[0], first.value)] + rest else rest)
  }

  /** Probing succeeds exactly when every version's probe does. */
  lemma {:induction false} ProbeAllOk(versions: seq<string>, probed: string -> Result<Option<Profile>, Error>)
    ensures ProbeAll(versions, probed).Ok? <==>
      forall i :: 0 <= i < |versions| ==> probed(versions[i]).Ok?
  {
    if |versions| > 0 {
      ProbeAllOk(versions[1..], probed);
      assert forall i :: 1 <= i < |versions| ==> versions[i] == versions[1..][i - 1];
    }
  }

  /** Every version kept is one of those probed, with the profile its output describes. */
  lemma {:induction false} ProbeAllSound(versions: seq<string>, probed: string -> Result<Option<Profile>, Error>)
    requires ProbeAll(versions, probed).Ok?
    ensures var ps := ProbeAll(versions, probed).value;
      forall j :: 0 <= j < |ps| ==> ps[j].0 in versions && probed(ps[j].0) == Ok(Some(ps[j].1))
  {
    if |versions| > 0 {
      var first := probed(versions[0]);
      var rest := ProbeAll(versions[1..], probed);
      assert first.Ok? && rest.Ok?;
      ProbeAllSound(versions[1..], probed);
    }
  }

  /** Every version whose probe printed something is kept. */
  lemma {:induction false} ProbeAllComplete(versions: seq<string>, probed: string -> Result<Option<Profile>, Error>,
                                            i: int, p: Profile)
    requires ProbeAll(versions, probed).Ok?
    requires 0 <= i < |versions| && probed(versions[i]) == Ok(Some(p))
    ensures (versions[i], p) in ProbeAll(versions, probed).value
  {
    var first := probed(versions[0]);
    var rest := ProbeAll(versions[1..], probed);
    assert first.Ok? && rest.Ok?;
    var all := ProbeAll(versions, probed).value;
    assert all == if first.value.Some? then [(versions[0], first.value.value)] + rest.value else rest.value;
    if i > 0 {
      assert versions[1..][i - 1] == versions[i];
      ProbeAllComplete(versions[1..], probed, i - 1, p);
      assert (versions[i], p) in rest.value;
    }
  }

  /** A file's modification time together with what it holds. */
  datatype Stamped<T> = Stamped(mtime: int, contents: T)

  /** The profiles, and whether they are written to the cache file. */
  datatype Built = Built(profiles: Hash<string, Profile>, store: bool)

  /** `build_ruby_profiles`: `cache` is the cache file, if it exists, with the
      profiles it holds; `versions` is the versions directory, if it exists,
      with the names of its entries. */
  function BuildProfiles(
    cache: Option<Stamped<Hash<string, Profile>>>,
    versions: Option<Stamped<seq<string>>>,
    versionsDir: Path,
    scriptVersion: seq<int>,
    vars: map<string, string>,
    probe: map<string, string> -> string): Result<Built, Error>
  {
    if versions.None? then Err(NoSuchFile(versionsDir))
    else if cache.Some? && versions.value.mtime <= cache.value.mtime then Ok(Built(cache.value.contents, false))
    else if !AtLeast19(scriptVersion) then Ok(Built([], false))
    else
      var ps :- ProbeAll(versions.value.contents + ["system"], v => Probed(vars, probe, v));
      Ok(Built(FromPairs(ps), true))
  }

  /** In a freshly built map a version has a profile exactly when it was
      probed and its probe printed the output describing that profile. */
  lemma ProbedProfileFor(names: seq<string>, probed: string -> Result<Option<Profile>, Error>,
                         name: string, p: Profile)
    requires ProbeAll(names, probed).Ok?
    ensures Get(FromPairs(ProbeAll(names, probed).value), name) == Some(p) <==>
      name in names && probed(name) == Ok(Some(p))
  {
    var ps := ProbeAll(names, probed).value;
    ProbeAllSound(names, probed);
    var h := FromPairs(ps);
    FromPairsGet(ps, name, p);
    if Get(h, name) == Some(p) {
      var j :| 0 <= j < |ps| && ps[j] == (name, p) && forall k :: j < k < |ps| ==> ps[k].0 != name;
    }
    if name in names && probed(name) == Ok(Some(p)) {
      var i :| 0 <= i < |names| && names[i] == name;
      ProbeAllComplete(names, probed, i, p);
      var j :| 0 <= j < |ps| && ps[j] == (name, p);
      FromPairsHasKey(ps, j);
      var q := Get(h, name).value;
      FromPairsGet(ps, name, q);
      var k :| 0 <= k < |ps| && ps[k] == (name, q) && forall m :: k < m < |ps| ==> ps[m].0 != name;
    }
  }

  /** The cache is used exactly when it exists and is not older than the
      versions directory; a Ruby older than 1.9 builds nothing; otherwise every
      directory name and "system" is probed, a version has a profile exactly
      when its probe printed something, and the new profiles are stored. */
  lemma BuildProfilesSpec(
    cache: Option<Stamped<Hash<string, Profile>>>,
    versions: Option<Stamped<seq<string>>>,
    versionsDir: Path,
    scriptVersion: seq<int>,
    vars: map<string, string>,
    probe: map<string, string> -> string,
    name: string, p: Profile)
    ensures var r := BuildProfiles(cache, versions, versionsDir, scriptVersion, vars, probe);
      && (versions.None? ==> r.Err?)
      && (versions.Some? && cache.Some? && versions.value.mtime <= cache.value.mtime ==>
            r == Ok(Built(cache.value.contents, false)))
      && (versions.Some? && !(cache.Some? && versions.value.mtime <= cache.value.mtime) ==>
            && (!AtLeast19(scriptVersion) ==> r == Ok(Built([], false)))
            && (AtLeast19(scriptVersion) ==>
                 var names := versions.value.contents + ["system"];
                 && (r.Ok? <==> forall i :: 0 <= i < |names| ==> Probed(vars, probe, names[i]).Ok?)
                 && (r.Ok? ==> r.value.store && UniqueKeys(r.value.profiles))
                 && (r.Ok? ==> (Get(r.value.profiles, name) == Some(p) <==>
                                 name in names && Probed(vars, probe, name) == Ok(Some(p))))))
  {
    if versions.Some? && !(cache.Some? && versions.value.mtime <= cache.value.mtime) && AtLeast19(scriptVersion) {
      var names := versions.value.contents + ["system"];
      var probed := v => Probed(vars, probe, v);
      ProbeAllOk(names, probed);
      if ProbeAll(names, probed).Ok? {
        ProbedProfileFor(names, probed, name, p);
      }
    }
  }
}
