# rbenv-bundler rehash, modelled in Dafny

rbenv-bundler makes `rbenv which` and the rbenv shims find the executables of
gems installed by Bundler. This project models its rehash hook,
`etc/rbenv.d/bundler/rehash.rb`. The hook does the following:

- It finds the Gemfile of each directory named on the command line, searching
  upward from the directory.
- It reads the rbenv version governing the directory from the nearest
  `.rbenv-version`, or falls back to `$RBENV_ROOT/version`, or to "system".
- It probes every installed rbenv Ruby for a *profile*: its version, gem
  directory and RubyGems engine values. Profiles are cached in
  `ruby_profiles.yml`.
- It re-runs itself under a capable Ruby (at least 1.9 and not JRuby) when the
  Ruby running it is not capable.
- For each directory it resolves the bundle with Bundler. Bundler runs under
  the profile of the directory's Ruby, with `BUNDLE_GEMFILE`, `GEM_HOME` and
  `GEM_PATH` overridden and then restored.
- It writes one listing file per directory. A listing is named after the MD5
  digest of the directory and holds executable/bin-directory line pairs.
- It writes the index `manifest.txt` of directory/listing line pairs. With
  `--refresh` the previous index is merged into the directories to redo.

The model keeps the script's own shape:

- Code that changes state step by step is imperative Dafny:
  - the upward Gemfile search and the version-file list are `while` loops;
  - the rehash loop and the listing writer are nested loops;
  - the process environment is an `Environment` class whose `vars` map is
    updated in place, with `ENV.delete` and `ENV[]=`;
  - the filesystem is a `Disk` class over a map from paths to nodes.
- Each method is proved against a specification function: `NearestGemfile`,
  `VersionCandidates`, `RbenvVersionOf`, `ListingPairs`, `Step` and
  `RehashSpec`, and the lemmas about those functions state what the script promises.
- The rest of the script is pure and is modelled as functions with lemmas:
  - reading the index (`Hash[*lines]`);
  - the `GEM_PATH` pipeline (`select`, `uniq`, `select`, `join`);
  - version parsing with `to_i` and comparison with `<=>`;
  - parsing the probe output;
  - choosing a capable Ruby with `select`, `map` and `sort`.

Ruby semantics are written out:

- `split(c, -1)` keeps empty trailing fields and gives `[]` for `""`.
- `[0...-1]` drops the last field.
- `chomp("\n")` removes `\r\n`, `\n` or `\r`.
- `to_i` accepts leading white space, a sign and `_` separators.
- A `Hash` is an ordered association list: a later duplicate key replaces the
  value in place, and `merge` lets the argument win.
- `Array#<=>` and `String#<` are written out.
- An exception is an `Error` value, and every exception the script can raise
  on its data is modelled: a missing output directory, a listing that cannot
  be deleted or opened, an odd number of index lines, a NUL byte in a path,
  an unset `PATH`, a missing probe line, and no capable Ruby.

The following are parameters:

- the working directory;
- the MD5 hex digest (`string -> string`);
- Bundler's settings for a Gemfile under a profile (`BundlerContext`);
- the forked Bundler resolution. It returns the resolved gemspecs, a child
  that printed nothing (a missing gem), or a failure of the Bundler setup,
  which runs before the fork;
- the probe run under each Ruby;
- the modification times of the cache and the versions directory.

Notable behaviours of the script:

- Only `.rbenv-version` files are consulted (lines 198-201), not `.ruby-version`.
- The profile cache is used whole or not at all, depending only on whether it
  is at least as new as the versions directory (line 284). It is not updated
  per version.
- The index pair is written before the resolution (lines 237-238). A failed
  Bundler child still leaves the directory in the index, with an empty listing.
- A Bundler setup failure (lines 123-127) ends the whole rehash instead of
  skipping the directory.
- The versions directory is listed before the cache is consulted (line 282), so
  a missing versions directory raises even when the cache is fresh.
- A Ruby older than 1.9 returns no profiles without writing the cache (line 289).

## Model

| member | source | states |
|---|---|---|
| Files.Delete | etc/rbenv.d/bundler/rehash.rb:223 | `Pathname#delete` succeeds exactly when the path exists and is not a non-empty directory, and then removes only that path |
| Files.OpenForWrite | etc/rbenv.d/bundler/rehash.rb:240 | `open("w")` succeeds exactly when the path is not a directory and its parent is one, and then leaves an empty file there |
| Files.ReadFile | etc/rbenv.d/bundler/rehash.rb:206 | reading succeeds exactly on an existing file and returns its text |
| Files.ExpandText | etc/rbenv.d/bundler/rehash.rb:175 | expanding the text of a normal absolute path gives the path back, whatever the working directory |
| Files.Disk.Remove | etc/rbenv.d/bundler/rehash.rb:223 | the disk afterwards is `Delete` of the old one, or unchanged with the error |
| Files.Disk.Create | etc/rbenv.d/bundler/rehash.rb:240 | the disk afterwards is `OpenForWrite` of the old one, or unchanged with the error |
| Files.Disk.Store | etc/rbenv.d/bundler/rehash.rb:246-247 | the file holds exactly the written text and nothing else changes |
| Strings.SplitJoin | etc/rbenv.d/bundler/rehash.rb:301 | splitting a `:`-join of separator-free fields gives the fields back |
| Strings.JoinSplit | etc/rbenv.d/bundler/rehash.rb:301 | joining the fields of `split(":", -1)` gives the string back |
| Strings.LinesOfTerminated | etc/rbenv.d/bundler/rehash.rb:268 | `split("\n", -1)[0...-1]` of newline-terminated lines gives those lines |
| Strings.ChompLine | etc/rbenv.d/bundler/rehash.rb:206 | `chomp("\n")` removes exactly the final newline of a version line |
| Strings.ToINatText | etc/rbenv.d/bundler/rehash.rb:30 | `to_i` of a number's decimal text is that number |
| Locator.NearestGemfileIsNearest | etc/rbenv.d/bundler/rehash.rb:174-186 | no Gemfile is found exactly when no proper ancestor-or-self directory below the root holds one; otherwise the found Gemfile is in the deepest such directory |
| Locator.NearestGemfileShape | etc/rbenv.d/bundler/rehash.rb:178-180 | a found Gemfile exists and is the entry "Gemfile" of its directory |
| Locator.FindGemfile | etc/rbenv.d/bundler/rehash.rb:174-186 | the upward loop returns the nearest Gemfile |
| Locator.VersionCandidatesShape | etc/rbenv.d/bundler/rehash.rb:196-203 | one `.rbenv-version` per directory from the start upward, excluding the root, then `$RBENV_ROOT/version` |
| Locator.VersionFiles | etc/rbenv.d/bundler/rehash.rb:196-203 | the loop builds exactly that candidate list |
| Locator.FirstVersionIsFirst | etc/rbenv.d/bundler/rehash.rb:205-209 | the first existing candidate decides the version, read and chomped; with none, "system" |
| Locator.RbenvVersionNearest | etc/rbenv.d/bundler/rehash.rb:193-210 | the version is the chomped contents of the nearest non-root `.rbenv-version` |
| Locator.RbenvVersionRoot | etc/rbenv.d/bundler/rehash.rb:193-210 | with no such file, the version is the chomped `$RBENV_ROOT/version`, else "system" |
| Locator.FallBackToRoot | etc/rbenv.d/bundler/rehash.rb:203-209 | without `.rbenv-version` files the candidates come down to the root version file, else "system" |
| Locator.RbenvVersion | etc/rbenv.d/bundler/rehash.rb:193-210 | the method returns that version |
| RubyHash.FromPairsGet | etc/rbenv.d/bundler/rehash.rb:268 | `Hash[pairs]` maps a key to the value of its last pair |
| RubyHash.FromPairsHasKey | etc/rbenv.d/bundler/rehash.rb:268 | every key of the pairs is a key of `Hash[pairs]` |
| RubyHash.FromPairsHas | etc/rbenv.d/bundler/rehash.rb:405 | a key is in `Hash[pairs]` exactly when some pair has it |
| RubyHash.FromDistinctPairs | etc/rbenv.d/bundler/rehash.rb:268 | pairs with distinct keys are their own Hash |
| RubyHash.FromPairsUniform | etc/rbenv.d/bundler/rehash.rb:405 | when every pair has the same value, every key of `Hash[pairs]` has it |
| RubyHash.MergeGet | etc/rbenv.d/bundler/rehash.rb:406 | `a.merge(b)` takes `b`'s value for a key of `b`, else `a`'s |
| Manifest.EncodePairsAppend | etc/rbenv.d/bundler/rehash.rb:237-238 | writing one more pair appends the key line and the value line |
| Manifest.ParseIndex | etc/rbenv.d/bundler/rehash.rb:268 | a parsed index has unique keys |
| Manifest.ReadManifest | etc/rbenv.d/bundler/rehash.rb:262-270 | a missing index reads as `{}`; a read index has unique keys |
| Manifest.PairUpFlatten | etc/rbenv.d/bundler/rehash.rb:268 | pairing the flattened pairs gives them back |
| Manifest.ParseEncodedIndex | etc/rbenv.d/bundler/rehash.rb:262-270 | reading back written pairs free of newlines and NULs gives `Hash[pairs]` |
| Manifest.IndexRoundTrip | etc/rbenv.d/bundler/rehash.rb:262-270 | for pairs with distinct keys, reading back gives the pairs themselves |
| Manifest.OddIndexRefused | etc/rbenv.d/bundler/rehash.rb:268 | any index text whose lines are free of NUL but odd in number raises `ArgumentError` (odd number of arguments for `Hash[]`) |
| Manifest.OneLineIndexRefused | etc/rbenv.d/bundler/rehash.rb:268 | the text `"a\n"` is one line, so reading it as an index raises |
| GemEnv.Lookup | etc/rbenv.d/bundler/rehash.rb:84-86 | `ENV[name]` is nil exactly when the variable is unset, else its value |
| GemEnv.Assigned | etc/rbenv.d/bundler/rehash.rb:160-162 | after `ENV[name] = value` (nil unsets) the name reads `value` and every other name reads as before |
| GemEnv.RestoreRemoved | etc/rbenv.d/bundler/rehash.rb:158-162 | assigning back what `ENV.delete` returned restores the environment exactly |
| GemEnv.Environment.Delete | etc/rbenv.d/bundler/rehash.rb:84-86 | `ENV.delete` returns the previous value and unsets only that name |
| GemEnv.Environment.Assign | etc/rbenv.d/bundler/rehash.rb:89 | `ENV[]=` changes the environment as `Assigned` says |
| GemEnv.Without | etc/rbenv.d/bundler/rehash.rb:117 | `select { dir != rubygems_dir }` keeps exactly the other entries, the first one first |
| GemEnv.WithoutDistinct | etc/rbenv.d/bundler/rehash.rb:117 | the selection keeps entries distinct |
| GemEnv.Uniq | etc/rbenv.d/bundler/rehash.rb:118 | `uniq` has no duplicates and the same members |
| GemEnv.UniqHead | etc/rbenv.d/bundler/rehash.rb:110 | `uniq` keeps the first entry first |
| GemEnv.UniqDistinct | etc/rbenv.d/bundler/rehash.rb:118 | `uniq` of distinct entries is the identity |
| GemEnv.GemHome | etc/rbenv.d/bundler/rehash.rb:98-121 | `GEM_HOME` is the bundle path when one is set, else the profile's gem directory |
| GemEnv.GemPathEntriesSpec | etc/rbenv.d/bundler/rehash.rb:98-121 | the `GEM_PATH` entries are distinct and non-empty; they are exactly the RubyGems path entries other than its gem directory; when a bundle path is set, the profile's gem directory is also included, first |
| GemEnv.GemPathSegments | etc/rbenv.d/bundler/rehash.rb:104-120 | `GEM_PATH` is empty with shared gems disabled, else splitting it on `:` gives the entries back |
| GemEnv.ResolutionEnv | etc/rbenv.d/bundler/rehash.rb:84-121 | during resolution `BUNDLE_GEMFILE` is the expanded Gemfile, `GEM_HOME` and `GEM_PATH` are as above, and every other variable is unchanged |
| GemEnv.GemspecsResult | etc/rbenv.d/bundler/rehash.rb:123-157 | only a setup failure raises; a resolved bundle gives exactly its gemspecs, and a silent child gives `[]` |
| GemEnv.Override | etc/rbenv.d/bundler/rehash.rb:84-121 | the three old values are saved and the environment becomes the resolution environment |
| GemEnv.OverrideSteps | etc/rbenv.d/bundler/rehash.rb:84-121 | deleting the three variables and assigning them afresh equals overwriting them |
| GemEnv.Restore | etc/rbenv.d/bundler/rehash.rb:158-162 | the three saved values are assigned back |
| GemEnv.RestoreOverride | etc/rbenv.d/bundler/rehash.rb:158-162 | restoring the saved values after the override gives the original environment |
| GemEnv.Gemspecs | etc/rbenv.d/bundler/rehash.rb:82-167 | returns the resolution in the overridden environment and always leaves the environment as it found it |
| GemEnv.GemspecsAsWritten | etc/rbenv.d/bundler/rehash.rb:82-167 | as written: on a setup failure the overridden environment is left in place |
| GemEnv.SetupFailureLeaksOverride | etc/rbenv.d/bundler/rehash.rb:123-129 | the leaked environment differs from the original: an empty environment gains `BUNDLE_GEMFILE` |
| Versions.ParseVersionText | etc/rbenv.d/bundler/rehash.rb:30 | `split(".", -1).map(&:to_i)` of a dotted version gives its numbers |
| Versions.CompareProperties | etc/rbenv.d/bundler/rehash.rb:33 | `Array#<=>` is 0 exactly on equal arrays and is antisymmetric |
| Versions.AtLeast19Iff | etc/rbenv.d/bundler/rehash.rb:343 | `(v <=> [1, 9]) >= 0` exactly when the major is above 1, or is 1 with a minor of at least 9 |
| Profiles.ParseProbe | etc/rbenv.d/bundler/rehash.rb:312-321 | empty output means no Ruby; it raises exactly when the output is non-empty and has fewer than two lines or a NUL in the gem directory line; otherwise the lines are the version, gem directory and two engine values |
| Profiles.ParseProbeOutput | etc/rbenv.d/bundler/rehash.rb:304-321 | the probe's printed lines read back as the profile they describe |
| Profiles.PopPath | etc/rbenv.d/bundler/rehash.rb:301 | popping the first `PATH` directory fails exactly when `PATH` is unset or empty |
| Profiles.PopPathDropsFirst | etc/rbenv.d/bundler/rehash.rb:301 | popping drops exactly the first directory |
| Profiles.Scrubbed | etc/rbenv.d/bundler/rehash.rb:295-298 | exactly `PWD`, `RBENV_DIR`, `RBENV_HOOK_PATH` and `RBENV_ROOT` are removed |
| Profiles.ChildEnv | etc/rbenv.d/bundler/rehash.rb:294-302 | the child's environment has those four removed, `PATH` popped and `RBENV_VERSION` set, and everything else unchanged; it fails exactly when `PATH` is unset or empty |
| Profiles.ProbeAllOk | etc/rbenv.d/bundler/rehash.rb:293-327 | probing all versions succeeds exactly when every single probe does |
| Profiles.ProbeAllSound | etc/rbenv.d/bundler/rehash.rb:293-327 | every kept version was probed and has the profile its probe printed |
| Profiles.ProbeAllComplete | etc/rbenv.d/bundler/rehash.rb:293-327 | every version whose probe printed a profile is kept |
| Profiles.ProbedProfileFor | etc/rbenv.d/bundler/rehash.rb:293-327 | the profile map gives a version a profile exactly when its probe printed that profile |
| Profiles.BuildProfilesSpec | etc/rbenv.d/bundler/rehash.rb:279-335 | a missing versions directory raises; a fresh cache is used as is; an old Ruby builds `{}`; otherwise every entry and "system" is probed, the map has unique keys, gives exactly the probed profiles, and is stored |
| Capable.StrLessTotal | etc/rbenv.d/bundler/rehash.rb:350 | string order is total |
| Capable.StrLessTrans | etc/rbenv.d/bundler/rehash.rb:350 | string order is transitive |
| Capable.StrLessIrreflexive | etc/rbenv.d/bundler/rehash.rb:350 | string order is strict |
| Capable.InsertMultiset | etc/rbenv.d/bundler/rehash.rb:350 | insertion adds exactly the element |
| Capable.InsertSorted | etc/rbenv.d/bundler/rehash.rb:350 | insertion keeps a sorted list sorted and adds exactly the element |
| Capable.InsertAbove | etc/rbenv.d/bundler/rehash.rb:350 | a lower bound of the element and of the sequence bounds the insertion |
| Capable.SortedCons | etc/rbenv.d/bundler/rehash.rb:350 | a lower bound placed in front keeps a sequence sorted |
| Capable.SortSpec | etc/rbenv.d/bundler/rehash.rb:350 | `sort` is a sorted permutation |
| Capable.CapableNames | etc/rbenv.d/bundler/rehash.rb:346-349 | the selected names are exactly those of profiles at least 1.9 and not JRuby |
| Capable.ChosenSpec | etc/rbenv.d/bundler/rehash.rb:346-360 | a version is chosen exactly when a capable profile exists, and it is the least capable name |
| Capable.ScrubbedSteps | etc/rbenv.d/bundler/rehash.rb:354-357 | the four `ENV.delete` calls leave the scrubbed environment |
| Capable.EnsureCapableRuby | etc/rbenv.d/bundler/rehash.rb:341-366 | a capable running Ruby continues untouched; otherwise no capable profile raises with the environment untouched, else the environment becomes the child environment of the chosen version and the script re-executes under it (or raises on an unset or empty `PATH` after the scrub) |
| Rehash.SpecPairsSpec | etc/rbenv.d/bundler/rehash.rb:242-248 | one gemspec's pairs are its executables other than `bundle`, each with its bin directory |
| Rehash.SpecPairsAppend | etc/rbenv.d/bundler/rehash.rb:242-248 | the pairs of concatenated executables are the concatenated pairs: a gemspec's executables are listed in order, repeats included |
| Rehash.ListingPairsAppend | etc/rbenv.d/bundler/rehash.rb:241-249 | the listing of concatenated gemspecs is the concatenation of listings |
| Rehash.ListingPairsSpec | etc/rbenv.d/bundler/rehash.rb:240-250 | a listing holds no `bundle` entry, only executables of the gemspecs with their own bin directories, and every such executable |
| Rehash.ListingText | etc/rbenv.d/bundler/rehash.rb:240-250 | the nested loops write exactly the encoded listing pairs |
| Rehash.StepShape | etc/rbenv.d/bundler/rehash.rb:221-238 | one entry adds exactly one index pair, the Gemfile's directory and its digest name, when its Gemfile, version and profile are found, and none otherwise; a listing that cannot be deleted ends the run with nothing changed; an entry without a Gemfile only loses its old listing; a version file that cannot be read ends the run with that error after the deletion; a version without a profile is skipped with no error after the deletion |
| Rehash.StepNames | etc/rbenv.d/bundler/rehash.rb:235-238 | a step only appends index pairs, each naming the digest listing of its directory |
| Rehash.StepOldListing | etc/rbenv.d/bundler/rehash.rb:223 | a deleted listing is gone after the step, unless the new listing has its name |
| Rehash.StepListing | etc/rbenv.d/bundler/rehash.rb:237-250 | an opened listing holds the resolved executables, or is empty with the error, while the index pair is already written |
| Rehash.EmitListing | etc/rbenv.d/bundler/rehash.rb:235-250 | recording a directory appends its index pair, adds no path but its listing, leaves every other path with its node, ends the run with the disk unchanged and the error when the listing cannot be opened, and fills an opened listing with the resolved executables or leaves it empty with the error |
| Rehash.StepFrame | etc/rbenv.d/bundler/rehash.rb:221-250 | one iteration leaves every path as it was except the entry's recorded listing and the listing named by the pair it appends |
| Rehash.RehashSpec | etc/rbenv.d/bundler/rehash.rb:217-255 | a missing output directory raises before anything is written |
| Rehash.RunFromGrows | etc/rbenv.d/bundler/rehash.rb:221-251 | the loop only appends to the index |
| Rehash.RunFromFrame | etc/rbenv.d/bundler/rehash.rb:221-251 | the loop leaves every path as it was except the entries' recorded listings and the listings named by the pairs it appends |
| Rehash.RehashFrame | etc/rbenv.d/bundler/rehash.rb:217-255 | a rehash leaves the Gemfiles, the version files and every other path as they were, except `manifest.txt`, the listings recorded for the entries and the listings named in the written index |
| Rehash.RunFromNames | etc/rbenv.d/bundler/rehash.rb:235-238 | index pairs are only appended, and each value is its key's digest plus `.txt` |
| Rehash.RehashIndex | etc/rbenv.d/bundler/rehash.rb:217-270 | the written index names each directory's digest listing, and `read_manifest` reads back exactly `Hash[pairs]` of what was written |
| Rehash.RehashEntry | etc/rbenv.d/bundler/rehash.rb:221-250 | the loop body changes the disk and index as `Step` says and, with the corrected `gemspecs`, restores the environment |
| Rehash.Rehash | etc/rbenv.d/bundler/rehash.rb:217-255 | the whole rehash leaves the disk and error of `RehashSpec` and, with the corrected `gemspecs`, the environment as it was |
| Driver.ArgGemfiles | etc/rbenv.d/bundler/rehash.rb:402 | each argument is mapped to the Gemfile found from its expanded path |
| Driver.CompactParents | etc/rbenv.d/bundler/rehash.rb:402 | `compact.map(&:parent)` gives exactly the parents of the found Gemfiles |
| Driver.ArgDirsSpec | etc/rbenv.d/bundler/rehash.rb:402 | the directories are exactly those holding the Gemfiles found for the arguments |
| Driver.RecordedGet | etc/rbenv.d/bundler/rehash.rb:406 | the previous index gives each of its directories its recorded listing |
| Driver.UnrecordedGet | etc/rbenv.d/bundler/rehash.rb:405 | `Hash[dirs.zip(nils)]` has exactly the found directories, each with nil |
| Driver.InitialManifestSpec | etc/rbenv.d/bundler/rehash.rb:402-406 | a directory from the arguments starts with nil; with `--refresh` every previously indexed directory gets its recorded listing, and an unreadable index raises |
| Driver.RunScript | etc/rbenv.d/bundler/rehash.rb:397-408 | a capable Ruby leads to the rehash of the initial manifest map, with the environment unchanged under the corrected `gemspecs`; otherwise the disk is untouched, and the script re-runs in the child environment, fails with no capable Ruby leaving the environment as it was, or fails on `PATH` with the four variables scrubbed |

## Left out

- Process control is not modelled. The fork of lines 131-157 becomes the opaque
  resolution result; the YAML pipe, `waitpid`, `exit!`, `IO.popen` and
  `Kernel.exec` are outside the model. Re-execution is the returned `Reran`
  decision.
- Bundler's internals are not modelled: `Settings`, `Definition.build`,
  `Runtime#specs`, `clear_paths`/`refresh`, and the monkey patches at lines
  41-58. Bundler's view of a Gemfile is a parameter, and so is the
  resolution. A raise while Bundler's settings are read (lines 91-100) would
  leave `BUNDLE_GEMFILE` set and `GEM_HOME`/`GEM_PATH` deleted rather than
  overridden; the model's setup failure happens only after the full
  override (lines 123-127).
- MD5 is an opaque digest. The model does not use the fact that a hex digest
  never produces `manifest.txt`. Two consequences of such a name are not
  modelled as the script has them. A listing named `manifest.txt` written by
  `open("w")` (line 240) truncates the very file the index handle writes to,
  so in the script the two writes interleave in one file; in the model the
  index flush overwrites the listing. A recorded `manifest.txt` that is
  deleted (line 223) leaves the index handle writing to an unlinked file, so
  no index remains in the directory; the model's flush agrees with this.
- The YAML format of `ruby_profiles.yml` is not modelled. The cache is given
  as the profiles it holds. The write of the cache is the `store` flag of
  `BuildProfiles`, and a failing write is not modelled.
- File modification times and directory listing order are inputs.
- The logger, `OptionParser`, `--verbose` and the warning printed by the
  Bundler child are not modelled.
- `~` in paths is not expanded. Only `/`, `.` and `..` are resolved.
- `to_i` does not read the `0d` prefix. It does not occur in `RUBY_VERSION`.
- `compact` in the `GEM_PATH` pipeline is not modelled. RubyGems' path
  entries are strings, never nil.
- `ENV` values containing NUL and `ENV[]=` failures are not modelled.
- Driver.RunScript: starts after `build_ruby_profiles` has returned. The profile
  map is part of its setup, and the profile build is stated separately by
  `Profiles.BuildProfilesSpec`.
- Rehash.RehashEntry: the environment clause is that of the corrected
  `GemEnv.Gemspecs`. As written (lines 123-127), a Bundler setup failure leaves
  `BUNDLE_GEMFILE`, `GEM_HOME` and `GEM_PATH` overridden; see "## Findings"
  and `GemEnv.GemspecsAsWritten`.
- Rehash.Rehash: the environment clause is that of the corrected
  `GemEnv.Gemspecs`. As written, a rehash that ends on a Bundler setup failure
  leaves the three variables overridden.
- Driver.RunScript: on a capable Ruby, the environment clause is that of the
  corrected `GemEnv.Gemspecs`. As written, a run that fails on a Bundler setup
  failure leaves the three variables overridden.
- Rehash.RehashSpec: its ensures covers only the missing output directory.
  The rest of the run is stated by `Rehash.StepShape`, `Rehash.StepListing`,
  `Rehash.StepOldListing`, `Rehash.RunFromNames`, `Rehash.RehashIndex` and
  `Rehash.RehashFrame`.
- Rehash.RehashIndex: the index text is exactly the encoded pairs only
  because a Bundler child is taken to end through `exit!` (line 156). A child
  whose `runtime.specs` raises anything other than `Bundler::GemNotFound` or
  `Bundler::GitError` (line 149) skips `exit!` and unwinds through the
  `ensure` at line 158 and the `open("w")` blocks at lines 240 and 220.
  Closing the index in the child writes the child's copy of the index lines
  still buffered at the fork, so `manifest.txt` receives those pairs twice,
  misaligned if an earlier buffer flush split a pair. The parent sees such a
  child as one that reported nothing. The model does not capture the child's
  write.
- Manifest.ParseIndex: the contract states unique keys. Its content is stated
  by `Manifest.ParseEncodedIndex`, `Manifest.IndexRoundTrip` and
  `Manifest.OddIndexRefused`.

## Findings

| source | as written | input that shows it | evidently intended | confidence | as-written member | corrected member |
|---|---|---|---|---|---|---|
| etc/rbenv.d/bundler/rehash.rb:123-129 | Bundler's setup (`clear_paths`, `refresh`, `Definition.build`, `Runtime.new`) runs after the environment is overridden but before the `begin` whose `ensure` restores it | a Gemfile whose `Definition.build` raises (for example a syntax error in the Gemfile) leaves `BUNDLE_GEMFILE`, `GEM_HOME` and `GEM_PATH` overridden | the saved variables are restored on every exit from `gemspecs`, so the `begin` should start at line 88 | not executed; the script ends on that exception anyway, so only code that rescued it would see the leaked environment | GemEnv.GemspecsAsWritten, GemEnv.SetupFailureLeaksOverride | GemEnv.Gemspecs |
