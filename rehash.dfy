/**
  `RbenvBundler.rehash`: for each directory of the manifest map, find its
  Gemfile, delete the listing recorded for it before, and, when its rbenv
  version has a profile, record the Gemfile's directory in the index and
  write a listing of the executables Bundler resolves for it.
*/
module Rehash {
  import opened Wrappers
  import opened Files
  import opened RubyHash
  import opened GemEnv
  import opened Profiles
  import opened Manifest
  import opened Locator

  /** The listing lines of one gemspec's executables, in order, "bundle" left out. */
  function SpecPairs(executables: seq<string>, binDir: string): seq<(string, string)>
  {
    if |executables| == 0 then []
    else
      var last := executables[|executables| - 1];
      SpecPairs(executables[..|executables| - 1], binDir) + (if last == "bundle" then [] else [(last, binDir)])
  }

  /** The listing pairs of the resolved gemspecs, gemspec after gemspec. */
  function ListingPairs(specs: seq<Gemspec>): seq<(string, string)>
  {
    if |specs| == 0 then []
    else
      var last := specs[|specs| - 1];
      ListingPairs(specs[..|specs| - 1]) + SpecPairs(last.executables, last.binDir)
  }

  /** Each pair of one gemspec is one of its executables other than "bundle",
      with the gemspec's bin directory, and every such executable has its pair. */
  lemma {:induction false} SpecPairsSpec(executables: seq<string>, binDir: string)
    ensures forall p :: p in SpecPairs(executables, binDir) <==>
      p.0 in executables && p.0 != "bundle" && p.1 == binDir
  {
    if |executables| > 0 {
      var init := executables[..|executables| - 1];
      SpecPairsSpec(init, binDir);
      assert executables == init + [executables[|executables| - 1]];
    }
  }

  /** The pairs of concatenated executables are the concatenated pairs: a
      gemspec's executables are listed in order, repeats included. */
  lemma {:induction false} SpecPairsAppend(a: seq<string>, b: seq<string>, binDir: string)
    ensures SpecPairs(a + b, binDir) == SpecPairs(a, binDir) + SpecPairs(b, binDir)
    decreases |b|
  {
    if |b| > 0 {
      var init := b[..|b| - 1];
      SpecPairsAppend(a, init, binDir);
      assert (a + b)[..|a + b| - 1] == a + init;
    } else {
      assert a + b == a;
    }
  }

  /** The listing of a concatenation is the concatenation of the listings: the
      listing follows gemspec order. */
  lemma {:induction false} ListingPairsAppend(a: seq<Gemspec>, b: seq<Gemspec>)
    ensures ListingPairs(a + b) == ListingPairs(a) + ListingPairs(b)
    decreases |b|
  {
    if |b| > 0 {
      var init := b[..|b| - 1];
      ListingPairsAppend(a, init);
      assert (a + b)[..|a + b| - 1] == a + init;
    } else {
      assert a + b == a;
    }
  }

  /** No listing line pair names "bundle"; every pair is an executable of some
      gemspec with that gemspec's bin directory; every other executable is listed. */
  lemma {:induction false} ListingPairsSpec(specs: seq<Gemspec>)
    ensures forall p :: p in ListingPairs(specs) ==>
      p.0 != "bundle" && exists i :: 0 <= i < |specs| && p.0 in specs[i].executables && p.1 == specs[i].binDir
    ensures forall i, e :: 0 <= i < |specs| && e in specs[i].executables && e != "bundle" ==>
      (e, specs[i].binDir) in ListingPairs(specs)
  {
    if |specs| > 0 {
      var init, last := specs[..|specs| - 1], specs[|specs| - 1];
      ListingPairsSpec(init);
      SpecPairsSpec(last.executables, last.binDir);
      forall p | p in ListingPairs(specs)
        ensures p.0 != "bundle" && exists i :: 0 <= i < |specs| && p.0 in specs[i].executables && p.1 == specs[i].binDir
      {
        if p in ListingPairs(init) {
          var i :| 0 <= i < |init| && p.0 in init[i].executables && p.1 == init[i].binDir;
          assert specs[i] == init[i];
        } else {
          assert p in SpecPairs(last.executables, last.binDir);
        }
      }
      forall i, e | 0 <= i < |specs| && e in specs[i].executables && e != "bundle"
        ensures (e, specs[i].binDir) in ListingPairs(specs)
      {
        if i < |specs| - 1 {
          assert specs[i] == init[i];
        }
      }
    }
  }

  /** The listing file text: `write(executable + "\n"); write(bin_dir + "\n")`
      for each executable of each gemspec, skipping "bundle". */
  method ListingText(specs: seq<Gemspec>) returns (text: string)
    ensures text == EncodePairs(ListingPairs(specs))
  {
    text := "";
    var i := 0;
    while i < |specs|
      invariant 0 <= i <= |specs|
      invariant text == EncodePairs(ListingPairs(specs[..i]))
    {
      var spec := specs[i];
      var j := 0;
      assert ListingPairs(specs[..i]) + SpecPairs(spec.executables[..0], spec.binDir) == ListingPairs(specs[..i]);
      while j < |spec.executables|
        invariant 0 <= j <= |spec.executables|
        invariant text == EncodePairs(ListingPairs(specs[..i]) + SpecPairs(spec.executables[..j], spec.binDir))
      {
        var executable := spec.executables[j];
        ghost var done := ListingPairs(specs[..i]) + SpecPairs(spec.executables[..j], spec.binDir);
        assert spec.executables[..j + 1][..j] == spec.executables[..j];
        assert SpecPairs(spec.executables[..j + 1], spec.binDir) ==
          SpecPairs(spec.executables[..j], spec.binDir) + (if executable == "bundle" then [] else [(executable, spec.binDir)]);
        if executable != "bundle" {
          EncodePairsAppend(done, executable, spec.binDir);
          assert done + [(executable, spec.binDir)] == ListingPairs(specs[..i]) + SpecPairs(spec.executables[..j + 1], spec.binDir);
          text := text + executable + "\n" + spec.binDir + "\n";
        } else {
          assert done == ListingPairs(specs[..i]) + SpecPairs(spec.executables[..j + 1], spec.binDir);
        }
        j := j + 1;
      }
      assert spec.executables[..j] == spec.executables;
      assert specs[..i + 1][..i] == specs[..i];
      i := i + 1;
    }
    assert specs[..i] == specs;
  }

  /** What a rehash run is given besides the filesystem, the environment and
      the manifest map: the working directory, the expanded output directory,
      the profiles, the MD5 hex digest, Bundler's view of a Gemfile under a
      profile, and the resolution of a Gemfile under a profile in an environment. */
  datatype Setup = Setup(
    cwd: Path,
    outDir: Path,
    profiles: Hash<string, Profile>,
    digest: string -> string,
    bundlerOf: (Path, Profile) -> BundlerContext,
    resolve: (Path, Profile, map<string, string>) -> Resolution)

  /** The listing name of a directory: `"#{Digest::MD5.hexdigest(dir.to_s)}.txt"`. */
  function ListingName(s: Setup, dir: Path): string
  {
    s.digest(Text(dir)) + ".txt"
  }

  /** The filesystem, the index pairs written so far, and the exception that
      ended the run, if any. */
  datatype Outcome = Outcome(fs: FileSystem, index: seq<(string, string)>, error: Option<Error>)

  /** The Gemfile found for a directory of the manifest map. */
  function EntryGemfile(s: Setup, fs: FileSystem, key: string): Option<Path>
  {
    NearestGemfile(fs, ExpandPath(s.cwd, key))
  }

  /** The deletion of the listing recorded for the entry, when one is. */
  function DeleteOld(s: Setup, fs: FileSystem, value: Option<string>): Result<FileSystem, Error>
  {
    if value.Some? then Delete(fs, ExpandPath(s.outDir, value.value)) else Ok(fs)
  }

  /** The gemspecs of a Gemfile under a profile, in the environment `vars`. */
  function Resolve(s: Setup, vars: map<string, string>, gemfile: Path, profile: Profile): Result<seq<Gemspec>, Error>
  {
    var ctx := s.bundlerOf(gemfile, profile);
    GemspecsResult(s.resolve(gemfile, profile, ResolutionEnv(vars, gemfile, ctx, profile.gemDir)), gemfile)
  }

  /** Whether the entry's directory is recorded in the index: its Gemfile is
      found, the old listing is deleted, its version is read and has a profile. */
  predicate Emits(s: Setup, vars: map<string, string>, fs: FileSystem, entry: (string, Option<string>))
  {
    var gemfile := EntryGemfile(s, fs, entry.0);
    var del := DeleteOld(s, fs, entry.1);
    && del.Ok? && gemfile.Some?
    && var version := RbenvVersionOf(del.value, vars, s.cwd, Parent(gemfile.value));
    && version.Ok? && Get(s.profiles, version.value).Some?
  }

  /** One iteration of `manifest_map.each`: the recorded listing is deleted,
      the Gemfile looked up, its directory's version read and its profile
      found; then the directory is recorded by `EmitListing`. */
  function Step(s: Setup, vars: map<string, string>, fs: FileSystem, index: seq<(string, string)>,
                entry: (string, Option<string>)): Outcome
  {
    var gemfile := EntryGemfile(s, fs, entry.0);
    match DeleteOld(s, fs, entry.1)
    case Err(e) => Outcome(fs, index, Some(e))
    case Ok(fs1) =>
      if gemfile.None? then Outcome(fs1, index, None)
      else
        var dir := Parent(gemfile.value);
        match RbenvVersionOf(fs1, vars, s.cwd, dir)
        case Err(e) => Outcome(fs1, index, Some(e))
        case Ok(version) =>
          match Get(s.profiles, version)
          case None => Outcome(fs1, index, None)
          case Some(profile) => EmitListing(s, fs1, index, gemfile.value, Resolve(s, vars, gemfile.value, profile))
  }

  /** An entry adds exactly one index pair when it emits and none otherwise;
      the pair is the Gemfile's directory with its digest-named listing. A
      recorded listing that cannot be deleted ends the run with nothing
      changed, and an entry without a Gemfile only loses its old listing. */
  lemma StepShape(s: Setup, vars: map<string, string>, fs: FileSystem, index: seq<(string, string)>,
                  entry: (string, Option<string>))
    ensures var o := Step(s, vars, fs, index, entry);
      Emits(s, vars, fs, entry) ==>
        var dir := Parent(EntryGemfile(s, fs, entry.0).value);
        o.index == index + [(Text(dir), ListingName(s, dir))]
    ensures !Emits(s, vars, fs, entry) ==> Step(s, vars, fs, index, entry).index == index
    ensures DeleteOld(s, fs, entry.1).Err? ==>
      Step(s, vars, fs, index, entry) == Outcome(fs, index, Some(DeleteOld(s, fs, entry.1).error))
    ensures DeleteOld(s, fs, entry.1).Ok? && EntryGemfile(s, fs, entry.0).None? ==>
      Step(s, vars, fs, index, entry) == Outcome(DeleteOld(s, fs, entry.1).value, index, None)
    ensures DeleteOld(s, fs, entry.1).Ok? && EntryGemfile(s, fs, entry.0).Some? ==>
      var fs1 := DeleteOld(s, fs, entry.1).value;
      var version := RbenvVersionOf(fs1, vars, s.cwd, Parent(EntryGemfile(s, fs, entry.0).value));
      && (version.Err? ==> Step(s, vars, fs, index, entry) == Outcome(fs1, index, Some(version.error)))
      && (version.Ok? && Get(s.profiles, version.value).None? ==> Step(s, vars, fs, index, entry) == Outcome(fs1, index, None))
  {
    var gemfile := EntryGemfile(s, fs, entry.0);
    match DeleteOld(s, fs, entry.1)
    case Err(_) =>
    case Ok(fs1) =>
      if gemfile.Some? {
        match RbenvVersionOf(fs1, vars, s.cwd, Parent(gemfile.value))
        case Err(_) =>
        case Ok(version) =>
          match Get(s.profiles, version)
          case None =>
          case Some(profile) =>
            assert Emits(s, vars, fs, entry);
      }
  }

  /** A step only appends, and what it appends names the digest listing of its key. */
  lemma StepNames(s: Setup, vars: map<string, string>, fs: FileSystem, index: seq<(string, string)>,
                  entry: (string, Option<string>))
    ensures var o := Step(s, vars, fs, index, entry);
      && index <= o.index
      && forall j :: |index| <= j < |o.index| ==> o.index[j].1 == s.digest(o.index[j].0) + ".txt"
  {
    StepShape(s, vars, fs, index, entry);
  }

  /** A deleted listing is gone afterwards, unless the new listing has its name. */
  lemma StepOldListing(s: Setup, vars: map<string, string>, fs: FileSystem, index: seq<(string, string)>,
                       entry: (string, Option<string>))
    requires entry.1.Some? && DeleteOld(s, fs, entry.1).Ok?
    ensures var previous := ExpandPath(s.outDir, entry.1.value);
      previous !in Step(s, vars, fs, index, entry).fs ||
      (Emits(s, vars, fs, entry) &&
       previous == ExpandPath(s.outDir, ListingName(s, Parent(EntryGemfile(s, fs, entry.0).value))))
  {
    var gemfile := EntryGemfile(s, fs, entry.0);
    var fs1 := DeleteOld(s, fs, entry.1).value;
    assert ExpandPath(s.outDir, entry.1.value) !in fs1;
    if gemfile.Some? {
      match RbenvVersionOf(fs1, vars, s.cwd, Parent(gemfile.value))
      case Err(_) =>
      case Ok(version) =>
        match Get(s.profiles, version)
        case None =>
        case Some(profile) =>
          assert Emits(s, vars, fs, entry);
    }
  }

  /** An opened listing holds the resolved executables, or nothing when the
      resolution failed; the index pair is written before the resolution. */
  lemma StepListing(s: Setup, vars: map<string, string>, fs: FileSystem, index: seq<(string, string)>,
                    entry: (string, Option<string>))
    requires Emits(s, vars, fs, entry)
    ensures var o := Step(s, vars, fs, index, entry);
      var gemfile := EntryGemfile(s, fs, entry.0).value;
      var dir := Parent(gemfile);
      var fs1 := DeleteOld(s, fs, entry.1).value;
      var profile := Get(s.profiles, RbenvVersionOf(fs1, vars, s.cwd, dir).value).value;
      var listing := ExpandPath(s.outDir, ListingName(s, dir));
      OpenForWrite(fs1, listing).Ok? ==>
        && listing in o.fs
        && (match Resolve(s, vars, gemfile, profile)
            case Ok(specs) => o.fs[listing] == File(EncodePairs(ListingPairs(specs))) && o.error.None?
            case Err(e) => o.fs[listing] == File("") && o.error == Some(e))
  {
    var gemfile := EntryGemfile(s, fs, entry.0).value;
    var fs1 := DeleteOld(s, fs, entry.1).value;
    var profile := Get(s.profiles, RbenvVersionOf(fs1, vars, s.cwd, Parent(gemfile)).value).value;
    assert Step(s, vars, fs, index, entry) == EmitListing(s, fs1, index, gemfile, Resolve(s, vars, gemfile, profile));
  }

  /** A step leaves every other path as it was: only the recorded listing of
      the entry and the listing named by the pair the step appends can change. */
  lemma StepFrame(s: Setup, vars: map<string, string>, fs: FileSystem, index: seq<(string, string)>,
                  entry: (string, Option<string>), p: Path)
    requires entry.1.Some? ==> p != ExpandPath(s.outDir, entry.1.value)
    requires var o := Step(s, vars, fs, index, entry);
      |index| <= |o.index| && SparesListings(s, p, o.index[|index|..])
    ensures Keeps(fs, Step(s, vars, fs, index, entry).fs, p)
  {
    var gemfile := EntryGemfile(s, fs, entry.0);
    match DeleteOld(s, fs, entry.1)
    case Err(_) =>
    case Ok(fs1) =>
      if gemfile.Some? {
        var dir := Parent(gemfile.value);
        match RbenvVersionOf(fs1, vars, s.cwd, dir)
        case Err(_) =>
        case Ok(version) =>
          match Get(s.profiles, version)
          case None =>
          case Some(profile) =>
            var o := EmitListing(s, fs1, index, gemfile.value, Resolve(s, vars, gemfile.value, profile));
            assert o.index[|index|..][0].1 == ListingName(s, dir);
      }
  }

  /** The part of an iteration that records a directory: the index pair, then
      the listing opened and filled with the executables of `resolved`, the
      outcome of resolving the Gemfile. Only the listing's path can be added
      to the filesystem, and every other path keeps its node. */
  function EmitListing(s: Setup, fs: FileSystem, index: seq<(string, string)>,
                       gemfile: Path, resolved: Result<seq<Gemspec>, Error>): (o: Outcome)
    ensures o.index == index + [(Text(Parent(gemfile)), ListingName(s, Parent(gemfile)))]
    ensures var listing := ExpandPath(s.outDir, ListingName(s, Parent(gemfile)));
      forall p :: p in o.fs ==> p in fs || p == listing
    ensures var listing := ExpandPath(s.outDir, ListingName(s, Parent(gemfile)));
      forall p :: p in fs && p != listing ==> p in o.fs && o.fs[p] == fs[p]
    ensures var listing := ExpandPath(s.outDir, ListingName(s, Parent(gemfile)));
      OpenForWrite(fs, listing).Err? ==> o.fs == fs && o.error == Some(OpenForWrite(fs, listing).error)
    ensures var listing := ExpandPath(s.outDir, ListingName(s, Parent(gemfile)));
      OpenForWrite(fs, listing).Ok? ==>
        && listing in o.fs
        && (match resolved
            case Ok(specs) => o.fs[listing] == File(EncodePairs(ListingPairs(specs))) && o.error.None?
            case Err(e) => o.fs[listing] == File("") && o.error == Some(e))
  {
    var dir := Parent(gemfile);
    var name := ListingName(s, dir);
    var index1 := index + [(Text(dir), name)];
    var listing := ExpandPath(s.outDir, name);
    match OpenForWrite(fs, listing)
    case Err(e) => Outcome(fs, index1, Some(e))
    case Ok(fs2) =>
      match resolved
      case Err(e) => Outcome(fs2, index1, Some(e))
      case Ok(specs) => Outcome(fs2[listing := File(EncodePairs(ListingPairs(specs)))], index1, None)
  }

  /** `manifest_map.each` from a given outcome: each entry in turn, until one raises. */
  function RunFrom(s: Setup, vars: map<string, string>, o: Outcome, entries: seq<(string, Option<string>)>): Outcome
    decreases |entries|
  {
    if |entries| == 0 || o.error.Some? then o
    else RunFrom(s, vars, Step(s, vars, o.fs, o.index, entries[0]), entries[1..])
  }

  /** A run only appends to the index. */
  lemma {:induction false} RunFromGrows(s: Setup, vars: map<string, string>, o: Outcome, entries: seq<(string, Option<string>)>)
    ensures o.index <= RunFrom(s, vars, o, entries).index
    decreases |entries|
  {
    if |entries| > 0 && o.error.None? {
      var next := Step(s, vars, o.fs, o.index, entries[0]);
      StepNames(s, vars, o.fs, o.index, entries[0]);
      RunFromGrows(s, vars, next, entries[1..]);
    }
  }

  /** A path that is not the listing named by any of the pairs. */
  predicate SparesListings(s: Setup, p: Path, pairs: seq<(string, string)>)
  {
    forall j :: 0 <= j < |pairs| ==> p != ExpandPath(s.outDir, pairs[j].1)
  }

  /** A path that is not the listing recorded for any of the entries. */
  predicate SparesRecorded(s: Setup, p: Path, entries: seq<(string, Option<string>)>)
  {
    forall j :: 0 <= j < |entries| && entries[j].1.Some? ==> p != ExpandPath(s.outDir, entries[j].1.value)
  }

  /** The path is in both filesystems with the same node, or in neither. */
  predicate Keeps(before: FileSystem, after: FileSystem, p: Path)
  {
    (p in after <==> p in before) && (p in before ==> after[p] == before[p])
  }

  /** A run leaves every path that is neither a recorded listing of its
      entries nor a listing named by a pair it appends as it was. */
  lemma {:induction false} RunFromFrame(s: Setup, vars: map<string, string>, o: Outcome,
                                        entries: seq<(string, Option<string>)>, p: Path)
    requires SparesRecorded(s, p, entries)
    requires var r := RunFrom(s, vars, o, entries);
      |o.index| <= |r.index| && SparesListings(s, p, r.index[|o.index|..])
    ensures Keeps(o.fs, RunFrom(s, vars, o, entries).fs, p)
    decreases |entries|
  {
    if |entries| > 0 && o.error.None? {
      var next := Step(s, vars, o.fs, o.index, entries[0]);
      RunFromFrameStep(s, vars, o, entries, p);
      RunFromFrame(s, vars, next, entries[1..], p);
    }
  }

  /** The first iteration of a run keeps the path, and the rest of the run
      still spares it. */
  lemma RunFromFrameStep(s: Setup, vars: map<string, string>, o: Outcome,
                         entries: seq<(string, Option<string>)>, p: Path)
    requires |entries| > 0 && o.error.None?
    requires SparesRecorded(s, p, entries)
    requires var r := RunFrom(s, vars, o, entries);
      |o.index| <= |r.index| && SparesListings(s, p, r.index[|o.index|..])
    ensures var next := Step(s, vars, o.fs, o.index, entries[0]);
      var rest := RunFrom(s, vars, next, entries[1..]);
      && RunFrom(s, vars, o, entries) == rest
      && Keeps(o.fs, next.fs, p)
      && SparesRecorded(s, p, entries[1..])
      && |next.index| <= |rest.index| && SparesListings(s, p, rest.index[|next.index|..])
  {
    var next := Step(s, vars, o.fs, o.index, entries[0]);
    var rest := RunFrom(s, vars, next, entries[1..]);
    RunFromGrows(s, vars, next, entries[1..]);
    StepNames(s, vars, o.fs, o.index, entries[0]);
    assert rest.index[|o.index|..] == next.index[|o.index|..] + rest.index[|next.index|..];
    SparesSplit(s, p, next.index[|o.index|..], rest.index[|next.index|..]);
    StepFrame(s, vars, o.fs, o.index, entries[0], p);
    forall j | 0 <= j < |entries| - 1 ensures entries[1..][j] == entries[j + 1] { }
  }

  lemma SparesSplit(s: Setup, p: Path, a: seq<(string, string)>, b: seq<(string, string)>)
    requires SparesListings(s, p, a + b)
    ensures SparesListings(s, p, a) && SparesListings(s, p, b)
  {
    forall j | 0 <= j < |b| ensures p != ExpandPath(s.outDir, b[j].1) {
      assert (a + b)[|a| + j] == b[j];
    }
    forall j | 0 <= j < |a| ensures p != ExpandPath(s.outDir, a[j].1) {
      assert (a + b)[j] == a[j];
    }
  }

  /** The index as the closed file leaves it; once deleted it stays gone. */
  function Flush(fs: FileSystem, indexFile: Path, index: seq<(string, string)>): FileSystem
  {
    if indexFile in fs then fs[indexFile := File(EncodePairs(index))] else fs
  }

  /** `RbenvBundler.rehash(ruby_profile_map, manifest_map, out_dir)`. */
  function RehashSpec(s: Setup, vars: map<string, string>, fs: FileSystem, entries: seq<(string, Option<string>)>): (r: Outcome)
    ensures s.outDir !in fs ==> r == Outcome(fs, [], Some(OutputDirectoryMissing))
  {
    if s.outDir !in fs then Outcome(fs, [], Some(OutputDirectoryMissing))
    else
      match OpenForWrite(fs, IndexFile(s.outDir))
      case Err(e) => Outcome(fs, [], Some(e))
      case Ok(fs0) =>
        var o := RunFrom(s, vars, Outcome(fs0, [], None), entries);
        Outcome(Flush(o.fs, IndexFile(s.outDir), o.index), o.index, o.error)
  }

  /** Every index pair names a directory and the listing named by its digest. */
  lemma {:induction false} RunFromNames(s: Setup, vars: map<string, string>, o: Outcome, entries: seq<(string, Option<string>)>)
    requires forall j :: 0 <= j < |o.index| ==> o.index[j].1 == s.digest(o.index[j].0) + ".txt"
    ensures var r := RunFrom(s, vars, o, entries);
      && o.index <= r.index
      && forall j :: 0 <= j < |r.index| ==> r.index[j].1 == s.digest(r.index[j].0) + ".txt"
    decreases |entries|
  {
    if |entries| > 0 && o.error.None? {
      var next := Step(s, vars, o.fs, o.index, entries[0]);
      StepNames(s, vars, o.fs, o.index, entries[0]);
      RunFromNames(s, vars, next, entries[1..]);
    }
  }

  /** What a run writes to the index is what `read_manifest` reads back, keyed
      by directory with the listing names as values, when the index is still
      there and no path holds a newline or a NUL; each listing is named after
      its directory's digest. */
  lemma RehashIndex(s: Setup, vars: map<string, string>, fs: FileSystem, entries: seq<(string, Option<string>)>)
    ensures var r := RehashSpec(s, vars, fs, entries);
      forall j :: 0 <= j < |r.index| ==> r.index[j].1 == s.digest(r.index[j].0) + ".txt"
    ensures var r := RehashSpec(s, vars, fs, entries);
      s.outDir in fs && OpenForWrite(fs, IndexFile(s.outDir)).Ok? &&
      IndexFile(s.outDir) in r.fs && PairsFree(r.index, '\n') && PairsFree(r.index, '\0') ==>
        ReadManifest(r.fs, s.outDir) == Ok(FromPairs(r.index))
  {
    var r := RehashSpec(s, vars, fs, entries);
    if s.outDir in fs && OpenForWrite(fs, IndexFile(s.outDir)).Ok? {
      var fs0 := OpenForWrite(fs, IndexFile(s.outDir)).value;
      RunFromNames(s, vars, Outcome(fs0, [], None), entries);
    }
    if IndexFile(s.outDir) in r.fs && PairsFree(r.index, '\n') && PairsFree(r.index, '\0') {
      ParseEncodedIndex(r.index);
    }
  }

  /** A rehash leaves the Gemfiles, the version files and every other path
      as they were, except `manifest.txt`, the listings recorded for the
      entries and the listings named in the written index. */
  lemma RehashFrame(s: Setup, vars: map<string, string>, fs: FileSystem, entries: seq<(string, Option<string>)>, p: Path)
    requires p != IndexFile(s.outDir)
    requires SparesRecorded(s, p, entries)
    requires SparesListings(s, p, RehashSpec(s, vars, fs, entries).index)
    ensures Keeps(fs, RehashSpec(s, vars, fs, entries).fs, p)
  {
    if s.outDir in fs && OpenForWrite(fs, IndexFile(s.outDir)).Ok? {
      var fs0 := OpenForWrite(fs, IndexFile(s.outDir)).value;
      var o := RunFrom(s, vars, Outcome(fs0, [], None), entries);
      assert o.index[0..] == o.index;
      RunFromFrame(s, vars, Outcome(fs0, [], None), entries, p);
    }
  }

  /** One iteration of the loop over the manifest map: the body of `each`. */
  method RehashEntry(disk: Disk, env: Environment, s: Setup, index: seq<(string, string)>, entry: (string, Option<string>))
    returns (index': seq<(string, string)>, err: Option<Error>)
    modifies disk, env
    ensures Outcome(disk.fs, index', err) == Step(s, old(env.vars), old(disk.fs), index, entry)
    ensures env.vars == old(env.vars)
  {
    index' := index;
    var gemfile := FindGemfile(disk.fs, ExpandPath(s.cwd, entry.0));
    if entry.1.Some? {
      err := disk.Remove(ExpandPath(s.outDir, entry.1.value));
      if err.Some? {
        return;
      }
    }
    if gemfile.None? {
      return index', None;
    }
    var dir := Parent(gemfile.value);
    var version := RbenvVersion(disk.fs, env.vars, s.cwd, dir);
    if version.Err? {
      return index', Some(version.error);
    }
    var profile := Get(s.profiles, version.value);
    if profile.None? {
      return index', None;
    }
    var name := ListingName(s, dir);
    index' := index + [(Text(dir), name)];
    var listing := ExpandPath(s.outDir, name);
    err := disk.Create(listing);
    if err.Some? {
      return;
    }
    var resolveHere := (vars: map<string, string>) => s.resolve(gemfile.value, profile.value, vars);
    var specs := Gemspecs(env, gemfile.value, s.bundlerOf(gemfile.value, profile.value), profile.value.gemDir, resolveHere);
    if specs.Err? {
      return index', Some(specs.error);
    }
    var text := ListingText(specs.value);
    disk.Store(listing, text);
    err := None;
  }

  /** `RbenvBundler.rehash(ruby_profile_map, manifest_map, out_dir)` on the disk
      and the environment; the environment ends as it started. */
  method Rehash(disk: Disk, env: Environment, s: Setup, entries: seq<(string, Option<string>)>)
    returns (err: Option<Error>)
    modifies disk, env
    ensures var r := RehashSpec(s, old(env.vars), old(disk.fs), entries);
      disk.fs == r.fs && err == r.error
    ensures env.vars == old(env.vars)
  {
    if s.outDir !in disk.fs {
      return Some(OutputDirectoryMissing);
    }
    var indexFile := IndexFile(s.outDir);
    err := disk.Create(indexFile);
    if err.Some? {
      return;
    }
    ghost var start := Outcome(disk.fs, [], None);
    var index: seq<(string, string)> := [];
    var i := 0;
    while i < |entries| && err.None?
      invariant 0 <= i <= |entries|
      invariant env.vars == old(env.vars)
      invariant RunFrom(s, env.vars, Outcome(disk.fs, index, err), entries[i..]) == RunFrom(s, env.vars, start, entries)
    {
      assert entries[i..][0] == entries[i] && entries[i..][1..] == entries[i + 1..];
      index, err := RehashEntry(disk, env, s, index, entries[i]);
      i := i + 1;
    }
    if indexFile in disk.fs {
      disk.Store(indexFile, EncodePairs(index));
    }
  }
}
