/**
  `RbenvBundler.gemspecs`: the environment it sets up so that Bundler
  searches the gem directories of the profiled Ruby rather than those of the
  Ruby running the script, and the save/restore of BUNDLE_GEMFILE, GEM_HOME
  and GEM_PATH around the resolution. Bundler itself and the forked child
  that asks it for the gemspecs are an opaque resolver.
*/
module GemEnv {
  import opened Wrappers
  import opened Files
  import Strings

  /** `ENV[name]`, nil when unset. */
  function Lookup(vars: map<string, string>, name: string): (r: Option<string>)
    ensures r.Some? <==> name in vars
    ensures r.Some? ==> r.value == vars[name]
  {
    if name in vars then Some(vars[name]) else None
  }

  /** `ENV[name] = value`, where assigning nil removes the variable. */
  function Assigned(vars: map<string, string>, name: string, value: Option<string>): (r: map<string, string>)
    ensures Lookup(r, name) == value
    ensures forall n :: n != name ==> Lookup(r, n) == Lookup(vars, n)
  {
    if value.Some? then vars[name := value.value] else vars - {name}
  }

  /** Removing a variable and then assigning back what it held restores the
      environment exactly; a variable that was unset is unset again. */
  lemma RestoreRemoved(vars: map<string, string>, name: string)
    ensures Assigned(vars - {name}, name, Lookup(vars, name)) == vars
  {
    var r := Assigned(vars - {name}, name, Lookup(vars, name));
    forall n ensures n in r <==> n in vars {
      assert Lookup(r, n) == Lookup(vars, n);
    }
    forall n | n in r ensures r[n] == vars[n] {
      assert Lookup(r, n) == Lookup(vars, n);
    }
  }

  /** The process environment, which the script changes in place. */
  class Environment {
    var vars: map<string, string>

    constructor (initial: map<string, string>)
      ensures vars == initial
    {
      vars := initial;
    }

    /** `ENV.delete(name)`: removes the variable and answers what it held. */
    method Delete(name: string) returns (previous: Option<string>)
      modifies this
      ensures previous == Lookup(old(vars), name)
      ensures vars == old(vars) - {name}
    {
      previous := Lookup(vars, name);
      vars := vars - {name};
    }

    /** `ENV[name] = value`. */
    method Assign(name: string, value: Option<string>)
      modifies this
      ensures vars == Assigned(old(vars), name, value)
    {
      vars := Assigned(vars, name, value);
    }
  }

  /** What Bundler reports for the Gemfile being processed: the bundle path
      (`Bundler.bundle_path`) when its `path` setting is set, whether its
      `disable_shared_gems` setting is set, and RubyGems' own `gem_dir` and
      `gem_path`. */
  datatype BundlerContext = BundlerContext(
    bundlePath: Option<Path>,
    disableSharedGems: bool,
    rubygemsDir: string,
    rubygemsPath: seq<string>)

  predicate NoDuplicates(xs: seq<string>)
  {
    forall i, j :: 0 <= i < j < |xs| ==> xs[i] != xs[j]
  }

  /** `xs.select { |x| x != d }`. */
  function Without(xs: seq<string>, d: string): (r: seq<string>)
    ensures forall x :: x in r <==> x in xs && x != d
    ensures |xs| > 0 && xs[0] != d ==> |r| > 0 && r[0] == xs[0]
  {
    if |xs| == 0 then []
    else if xs[0] == d then Without(xs[1..], d)
    else [xs[0]] + Without(xs[1..], d)
  }

  lemma {:induction false} WithoutDistinct(xs: seq<string>, d: string)
    requires NoDuplicates(xs)
    ensures NoDuplicates(Without(xs, d))
  {
    if |xs| > 0 {
      assert NoDuplicates(xs[1..]);
      WithoutDistinct(xs[1..], d);
      assert xs[0] !in xs[1..];
    }
  }

  /** `xs.uniq`: the first occurrence of each element, in order. */
  function Uniq(xs: seq<string>): (r: seq<string>)
    ensures NoDuplicates(r)
    ensures forall x :: x in r <==> x in xs
  {
    if |xs| == 0 then []
    else
      var init := Uniq(xs[..|xs| - 1]);
      assert forall x :: x in xs <==> x in xs[..|xs| - 1] || x == xs[|xs| - 1];
      if xs[|xs| - 1] in init then init else init + [xs[|xs| - 1]]
  }

  /** `uniq` keeps the first element first. */
  lemma {:induction false} UniqHead(xs: seq<string>)
    requires |xs| > 0
    ensures |Uniq(xs)| > 0 && Uniq(xs)[0] == xs[0]
  {
    if |xs| > 1 {
      UniqHead(xs[..|xs| - 1]);
    }
  }

  /** `uniq` changes nothing in a sequence without duplicates. */
  lemma {:induction false} UniqDistinct(xs: seq<string>)
    requires NoDuplicates(xs)
    ensures Uniq(xs) == xs
  {
    if |xs| > 0 {
      var init := xs[..|xs| - 1];
      assert NoDuplicates(init);
      UniqDistinct(init);
      assert xs[|xs| - 1] !in init;
      assert init + [xs[|xs| - 1]] == xs;
    }
  }

  /** The GEM_PATH entries before joining: with a bundle path the profile's gem
      directory leads, then RubyGems' path without RubyGems' own directory;
      duplicates and empty entries removed. */
  function GemPathEntries(ctx: BundlerContext, gemDir: string): seq<string>
  {
    var lead := if ctx.bundlePath.Some? then [gemDir] else [];
    Without(Uniq(lead + Without(ctx.rubygemsPath, ctx.rubygemsDir)), "")
  }

  /** The GEM_HOME the resolution runs with. */
  function GemHome(ctx: BundlerContext, gemDir: string): (home: string)
    ensures ctx.bundlePath.Some? ==> home == Text(ctx.bundlePath.value)
    ensures ctx.bundlePath.None? ==> home == gemDir
  {
    if ctx.bundlePath.Some? then Text(ctx.bundlePath.value) else gemDir
  }

  /** The GEM_PATH the resolution runs with; shared gems are only switched off
      together with a bundle path. */
  function GemPath(ctx: BundlerContext, gemDir: string): string
  {
    if ctx.bundlePath.Some? && ctx.disableSharedGems then ""
    else Strings.Join(GemPathEntries(ctx, gemDir), ':')
  }

  /** The entries have no empty member and no duplicate; RubyGems' own directory
      is left out unless it is the profile's gem directory leading a bundle
      path; every other non-empty directory of RubyGems' path is kept. */
  lemma GemPathEntriesSpec(ctx: BundlerContext, gemDir: string)
    ensures var es := GemPathEntries(ctx, gemDir);
      && NoDuplicates(es)
      && (forall e :: e in es ==> e != "")
      && (forall e :: e in es ==> (e in ctx.rubygemsPath && e != ctx.rubygemsDir) || (ctx.bundlePath.Some? && e == gemDir))
      && (forall e :: e in ctx.rubygemsPath && e != ctx.rubygemsDir && e != "" ==> e in es)
      && (ctx.bundlePath.Some? && gemDir != "" ==> |es| > 0 && es[0] == gemDir)
      && (ctx.bundlePath.None? ==> gemDir !in es || gemDir in ctx.rubygemsPath)
  {
    var lead := if ctx.bundlePath.Some? then [gemDir] else [];
    var u := Uniq(lead + Without(ctx.rubygemsPath, ctx.rubygemsDir));
    WithoutDistinct(u, "");
    if ctx.bundlePath.Some? && gemDir != "" {
      UniqHead(lead + Without(ctx.rubygemsPath, ctx.rubygemsDir));
    }
  }

  /** With shared gems disabled under a bundle path GEM_PATH is empty;
      otherwise splitting GEM_PATH on ":" gives back exactly the entries (when
      no directory holds a ":"), so it has no empty segment and no duplicate. */
  lemma GemPathSegments(ctx: BundlerContext, gemDir: string)
    requires ':' !in gemDir && Strings.NoneContains(ctx.rubygemsPath, ':')
    ensures ctx.bundlePath.Some? && ctx.disableSharedGems ==> GemPath(ctx, gemDir) == ""
    ensures !(ctx.bundlePath.Some? && ctx.disableSharedGems) ==>
      Strings.RubySplit(GemPath(ctx, gemDir), ':') == GemPathEntries(ctx, gemDir)
  {
    if !(ctx.bundlePath.Some? && ctx.disableSharedGems) {
      var es := GemPathEntries(ctx, gemDir);
      GemPathEntriesSpec(ctx, gemDir);
      assert Strings.NoneContains(es, ':') by {
        forall i | 0 <= i < |es| ensures ':' !in es[i] {
          assert es[i] in es;
          if es[i] != gemDir {
            assert es[i] in ctx.rubygemsPath;
            var j :| 0 <= j < |ctx.rubygemsPath| && ctx.rubygemsPath[j] == es[i];
          }
        }
      }
      if |es| == 0 {
      } else if |es| == 1 {
        Strings.SplitJoin(es, ':');
        assert es[0] in es;
      } else {
        Strings.SplitJoin(es, ':');
        assert Strings.Join(es, ':') == es[0] + [':'] + Strings.Join(es[1..], ':');
      }
    }
  }

  /** The environment the resolution runs in: the three variables overridden,
      everything else as before. */
  function ResolutionEnv(vars: map<string, string>, gemfile: Path, ctx: BundlerContext, gemDir: string): (r: map<string, string>)
    ensures Lookup(r, "BUNDLE_GEMFILE") == Some(Text(gemfile))
    ensures Lookup(r, "GEM_HOME") == Some(GemHome(ctx, gemDir))
    ensures Lookup(r, "GEM_PATH") == Some(GemPath(ctx, gemDir))
    ensures forall n :: n != "BUNDLE_GEMFILE" && n != "GEM_HOME" && n != "GEM_PATH" ==> Lookup(r, n) == Lookup(vars, n)
  {
    vars["BUNDLE_GEMFILE" := Text(gemfile)]["GEM_HOME" := GemHome(ctx, gemDir)]["GEM_PATH" := GemPath(ctx, gemDir)]
  }

  /** One gemspec as the child reports it. */
  datatype Gemspec = Gemspec(binDir: string, executables: seq<string>)

  /** What resolving a Gemfile comes to: the child's gemspecs, a child that
      reported nothing because it rescued Bundler::GemNotFound or
      Bundler::GitError, or an exception while Bundler was being set up in the
      parent. */
  datatype Resolution = Resolved(specs: seq<Gemspec>) | ChildFailed | SetupFailed

  /** `YAML.load(child_in) || []` in the parent: a child that reported
      nothing yields no gemspecs; a setup failure propagates. */
  function GemspecsResult(res: Resolution, gemfile: Path): (r: Result<seq<Gemspec>, Error>)
    ensures r.Err? <==> res.SetupFailed?
    ensures res.Resolved? ==> r == Ok(res.specs)
    ensures res.ChildFailed? ==> r == Ok([])
    ensures r.Ok? && |r.value| > 0 ==> res == Resolved(r.value)
  {
    match res
    case Resolved(specs) => Ok(specs)
    case ChildFailed => Ok([])
    case SetupFailed => Err(BundlerSetupFailed(gemfile))
  }

  /** Saves the three variables, overrides them for the resolution, and puts
      them back. */
  method Override(env: Environment, gemfile: Path, ctx: BundlerContext, gemDir: string)
    returns (saved: (Option<string>, Option<string>, Option<string>))
    modifies env
    ensures saved == (Lookup(old(env.vars), "BUNDLE_GEMFILE"), Lookup(old(env.vars), "GEM_HOME"), Lookup(old(env.vars), "GEM_PATH"))
    ensures env.vars == ResolutionEnv(old(env.vars), gemfile, ctx, gemDir)
  {
    var oldGemfile := env.Delete("BUNDLE_GEMFILE");
    var oldHome := env.Delete("GEM_HOME");
    var oldPath := env.Delete("GEM_PATH");
    saved := (oldGemfile, oldHome, oldPath);
    env.Assign("BUNDLE_GEMFILE", Some(Text(gemfile)));
    var home, path;
    if ctx.bundlePath.Some? {
      if ctx.disableSharedGems {
        home, path := Text(ctx.bundlePath.value), "";
      } else {
        home, path := Text(ctx.bundlePath.value), Strings.Join(GemPathEntries(ctx, gemDir), ':');
      }
    } else {
      home, path := gemDir, Strings.Join(GemPathEntries(ctx, gemDir), ':');
    }
    assert home == GemHome(ctx, gemDir) && path == GemPath(ctx, gemDir);
    env.Assign("GEM_HOME", Some(home));
    env.Assign("GEM_PATH", Some(path));
    OverrideSteps(old(env.vars), Text(gemfile), home, path);
  }

  /** Deleting the three variables and assigning them afresh is the same as
      overwriting them. */
  lemma OverrideSteps(vars: map<string, string>, gemfile: string, home: string, path: string)
    ensures Assigned(Assigned(Assigned(vars - {"BUNDLE_GEMFILE"} - {"GEM_HOME"} - {"GEM_PATH"},
              "BUNDLE_GEMFILE", Some(gemfile)), "GEM_HOME", Some(home)), "GEM_PATH", Some(path))
            == vars["BUNDLE_GEMFILE" := gemfile]["GEM_HOME" := home]["GEM_PATH" := path]
  {
    var a := Assigned(Assigned(Assigned(vars - {"BUNDLE_GEMFILE"} - {"GEM_HOME"} - {"GEM_PATH"},
               "BUNDLE_GEMFILE", Some(gemfile)), "GEM_HOME", Some(home)), "GEM_PATH", Some(path));
    var b := vars["BUNDLE_GEMFILE" := gemfile]["GEM_HOME" := home]["GEM_PATH" := path];
    forall n ensures Lookup(a, n) == Lookup(b, n) {
    }
    SameEnv(a, b);
  }

  /** Environments that agree on every lookup are equal. */
  lemma SameEnv(a: map<string, string>, b: map<string, string>)
    requires forall n :: Lookup(a, n) == Lookup(b, n)
    ensures a == b
  {
    forall n ensures n in a <==> n in b {
      assert Lookup(a, n) == Lookup(b, n);
    }
    forall n | n in a ensures a[n] == b[n] {
      assert Lookup(a, n) == Lookup(b, n);
    }
  }

  /** The `ensure` block: the three variables get their saved values back. */
  method Restore(env: Environment, saved: (Option<string>, Option<string>, Option<string>))
    modifies env
    ensures env.vars == Assigned(Assigned(Assigned(old(env.vars), "BUNDLE_GEMFILE", saved.0), "GEM_HOME", saved.1), "GEM_PATH", saved.2)
  {
    env.Assign("BUNDLE_GEMFILE", saved.0);
    env.Assign("GEM_HOME", saved.1);
    env.Assign("GEM_PATH", saved.2);
  }

  /** Restoring the saved values after the override gives back the environment
      from before, unset variables unset again. */
  lemma RestoreOverride(vars: map<string, string>, gemfile: Path, ctx: BundlerContext, gemDir: string)
    ensures Assigned(Assigned(Assigned(ResolutionEnv(vars, gemfile, ctx, gemDir),
      "BUNDLE_GEMFILE", Lookup(vars, "BUNDLE_GEMFILE")), "GEM_HOME", Lookup(vars, "GEM_HOME")),
      "GEM_PATH", Lookup(vars, "GEM_PATH")) == vars
  {
    var r := Assigned(Assigned(Assigned(ResolutionEnv(vars, gemfile, ctx, gemDir),
      "BUNDLE_GEMFILE", Lookup(vars, "BUNDLE_GEMFILE")), "GEM_HOME", Lookup(vars, "GEM_HOME")),
      "GEM_PATH", Lookup(vars, "GEM_PATH"));
    forall n ensures Lookup(r, n) == Lookup(vars, n) {
    }
    SameEnv(r, vars);
  }

  /** `RbenvBundler.gemspecs(gemfile)` with every exit path restoring the
      environment: the resolver runs in the overridden environment, and
      afterwards BUNDLE_GEMFILE, GEM_HOME and GEM_PATH hold what they held
      before, whether the call returns gemspecs or fails. */
  method Gemspecs(env: Environment, gemfile: Path, ctx: BundlerContext, gemDir: string,
                  resolve: map<string, string> -> Resolution)
    returns (r: Result<seq<Gemspec>, Error>)
    modifies env
    ensures r == GemspecsResult(resolve(ResolutionEnv(old(env.vars), gemfile, ctx, gemDir)), gemfile)
    ensures env.vars == old(env.vars)
  {
    var saved := Override(env, gemfile, ctx, gemDir);
    var res := resolve(env.vars);
    Restore(env, saved);
    RestoreOverride(old(env.vars), gemfile, ctx, gemDir);
    r := GemspecsResult(res, gemfile);
  }

  /** `RbenvBundler.gemspecs(gemfile)` as written: the Bundler set-up before the
      `begin` is not covered by its `ensure`, so when it raises the overridden
      variables stay in place. */
  method GemspecsAsWritten(env: Environment, gemfile: Path, ctx: BundlerContext, gemDir: string,
                           resolve: map<string, string> -> Resolution)
    returns (r: Result<seq<Gemspec>, Error>)
    modifies env
    ensures r == GemspecsResult(resolve(ResolutionEnv(old(env.vars), gemfile, ctx, gemDir)), gemfile)
    ensures if r.Err? then env.vars == ResolutionEnv(old(env.vars), gemfile, ctx, gemDir) else env.vars == old(env.vars)
  {
    var saved := Override(env, gemfile, ctx, gemDir);
    var res := resolve(env.vars);
    if res.SetupFailed? {
      return Err(BundlerSetupFailed(gemfile));
    }
    Restore(env, saved);
    RestoreOverride(old(env.vars), gemfile, ctx, gemDir);
    r := GemspecsResult(res, gemfile);
  }

  /** The as-written exit path differs from the environment before the call:
      starting from an environment without BUNDLE_GEMFILE, a failing set-up
      leaves BUNDLE_GEMFILE set to the Gemfile. */
  lemma SetupFailureLeaksOverride(gemfile: Path, ctx: BundlerContext, gemDir: string)
    ensures ResolutionEnv(map[], gemfile, ctx, gemDir) != map[]
    ensures "BUNDLE_GEMFILE" in ResolutionEnv(map[], gemfile, ctx, gemDir)
  {
    assert Lookup(ResolutionEnv(map[], gemfile, ctx, gemDir), "BUNDLE_GEMFILE").Some?;
  }
}
