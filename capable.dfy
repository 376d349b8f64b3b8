/**
  `RbenvBundler.ensure_capable_ruby`: when the Ruby running the script is
  older than 1.9 or is JRuby, pick the first, in name order, of the profiled
  Rubies that are neither, and prepare the environment to run the script
  again under it. `Kernel.exec` is the returned decision.
*/
module Capable {
  import opened Wrappers
  import opened Files
  import opened RubyHash
  import opened GemEnv
  import opened Versions
  import opened Profiles

  /** `a < b` for Ruby strings: the first differing character decides, and a
      proper prefix is smaller. */
  predicate StrLess(a: string, b: string)
  {
    if |a| == 0 then |b| > 0
    else if |b| == 0 then false
    else if a[0] != b[0] then a[0] < b[0]
    else StrLess(a[1..], b[1..])
  }

  predicate StrLe(a: string, b: string)
  {
    a == b || StrLess(a, b)
  }

  lemma {:induction false} StrLessIrreflexive(a: string)
    ensures !StrLess(a, a)
  {
    if |a| > 0 {
      StrLessIrreflexive(a[1..]);
    }
  }

  lemma {:induction false} StrLessTrans(a: string, b: string, c: string)
    requires StrLess(a, b) && StrLess(b, c)
    ensures StrLess(a, c)
  {
    if |a| > 0 && a[0] == b[0] && b[0] == c[0] {
      StrLessTrans(a[1..], b[1..], c[1..]);
    }
  }

  lemma {:induction false} StrLessTotal(a: string, b: string)
    ensures a == b || StrLess(a, b) || StrLess(b, a)
  {
    if |a| > 0 && |b| > 0 && a[0] == b[0] {
      StrLessTotal(a[1..], b[1..]);
      if a[1..] == b[1..] {
        assert a == [a[0]] + a[1..] && b == [b[0]] + b[1..];
      }
    }
  }

  lemma StrLeTrans(a: string, b: string, c: string)
    requires StrLe(a, b) && StrLe(b, c)
    ensures StrLe(a, c)
  {
    if StrLess(a, b) && StrLess(b, c) {
      StrLessTrans(a, b, c);
    }
  }

  predicate Sorted(s: seq<string>)
  {
    forall i, j :: 0 <= i < j < |s| ==> StrLe(s[i], s[j])
  }

  function Insert(x: string, s: seq<string>): seq<string>
  {
    if |s| == 0 then [x]
    else if StrLe(x, s[0]) then [x] + s
    else [s[0]] + Insert(x, s[1..])
  }

  /** Insertion adds exactly `x`. */
  lemma {:induction false} InsertMultiset(x: string, s: seq<string>)
    ensures multiset(Insert(x, s)) == multiset(s) + multiset{x}
  {
    if |s| > 0 && !StrLe(x, s[0]) {
      InsertMultiset(x, s[1..]);
      assert s == [s[0]] + s[1..];
    }
  }

  /** Inserting into a sorted sequence keeps it sorted and adds exactly `x`. */
  lemma {:induction false} InsertSorted(x: string, s: seq<string>)
    requires Sorted(s)
    ensures multiset(Insert(x, s)) == multiset(s) + multiset{x}
    ensures Sorted(Insert(x, s))
  {
    InsertMultiset(x, s);
    if |s| == 0 {
    } else if StrLe(x, s[0]) {
      forall j | 0 <= j < |s| ensures StrLe(x, s[j]) {
        StrLeTrans(x, s[0], s[j]);
      }
      SortedCons(x, s);
    } else {
      var tail := s[1..];
      InsertSorted(x, tail);
      StrLessTotal(x, s[0]);
      assert forall i :: 0 <= i < |tail| ==> StrLe(s[0], tail[i]) by {
        forall i | 0 <= i < |tail| ensures StrLe(s[0], tail[i]) {
          assert tail[i] == s[i + 1];
        }
      }
      InsertMultiset(x, tail);
      InsertAbove(s[0], x, tail);
      SortedCons(s[0], Insert(x, tail));
    }
  }

  /** A lower bound of `x` and of a sequence bounds the insertion. */
  lemma InsertAbove(lo: string, x: string, s: seq<string>)
    requires StrLe(lo, x) && forall i :: 0 <= i < |s| ==> StrLe(lo, s[i])
    requires multiset(Insert(x, s)) == multiset(s) + multiset{x}
    ensures forall j :: 0 <= j < |Insert(x, s)| ==> StrLe(lo, Insert(x, s)[j])
  {
    var rest := Insert(x, s);
    forall j | 0 <= j < |rest| ensures StrLe(lo, rest[j]) {
      assert rest[j] in multiset(s) + multiset{x};
      if rest[j] != x {
        assert rest[j] in s;
      }
    }
  }

  /** A sorted sequence stays sorted under a lower bound placed in front. */
  lemma SortedCons(lo: string, s: seq<string>)
    requires Sorted(s) && forall i :: 0 <= i < |s| ==> StrLe(lo, s[i])
    ensures Sorted([lo] + s)
  {
  }

  /** `Array#sort` on strings. */
  function Sort(xs: seq<string>): seq<string>
  {
    if |xs| == 0 then [] else Insert(xs[0], Sort(xs[1..]))
  }

  /** `sort` returns the same names in ascending order. */
  lemma {:induction false} SortSpec(xs: seq<string>)
    ensures multiset(Sort(xs)) == multiset(xs)
    ensures Sorted(Sort(xs))
  {
    if |xs| > 0 {
      SortSpec(xs[1..]);
      InsertSorted(xs[0], Sort(xs[1..]));
      assert xs == [xs[0]] + xs[1..];
    }
  }

  /** A Ruby of at least 1.9 that is not JRuby (which lacks `fork`). */
  predicate ProfileCapable(p: Profile)
  {
    AtLeast19(p.rubyVersion) && p.engine != Some("jruby")
  }

  /** The names of the capable profiles, in the Hash's order. */
  function CapableNames(profiles: Hash<string, Profile>): (names: seq<string>)
    ensures forall n :: n in names <==> exists i :: 0 <= i < |profiles| && profiles[i].0 == n && ProfileCapable(profiles[i].1)
  {
    if |profiles| == 0 then []
    else
      var rest := CapableNames(profiles[1..]);
      assert forall n :: n in rest <==> exists i :: 1 <= i < |profiles| && profiles[i].0 == n && ProfileCapable(profiles[i].1) by {
        forall n | n in rest ensures exists i :: 1 <= i < |profiles| && profiles[i].0 == n && ProfileCapable(profiles[i].1) {
          var i :| 0 <= i < |profiles[1..]| && profiles[1..][i].0 == n && ProfileCapable(profiles[1..][i].1);
          assert profiles[i + 1] == profiles[1..][i];
        }
        forall n | exists i :: 1 <= i < |profiles| && profiles[i].0 == n && ProfileCapable(profiles[i].1) ensures n in rest {
          var i :| 1 <= i < |profiles| && profiles[i].0 == n && ProfileCapable(profiles[i].1);
          assert profiles[1..][i - 1] == profiles[i];
        }
      }
      if ProfileCapable(profiles[0].1) then [profiles[0].0] + rest else rest
  }

  /** The rbenv version the script would re-run under: the least capable name. */
  function Chosen(profiles: Hash<string, Profile>): Option<string>
  {
    var sorted := Sort(CapableNames(profiles));
    if |sorted| == 0 then None else Some(sorted[0])
  }

  /** A version is chosen exactly when some profile is capable, and then it is
      the name of a capable profile that no other capable name precedes. */
  lemma ChosenSpec(profiles: Hash<string, Profile>)
    ensures Chosen(profiles).None? <==> forall i :: 0 <= i < |profiles| ==> !ProfileCapable(profiles[i].1)
    ensures Chosen(profiles).Some? ==>
      var v := Chosen(profiles).value;
      && (exists i :: 0 <= i < |profiles| && profiles[i].0 == v && ProfileCapable(profiles[i].1))
      && forall i :: 0 <= i < |profiles| && ProfileCapable(profiles[i].1) ==> StrLe(v, profiles[i].0)
  {
    var names := CapableNames(profiles);
    var sorted := Sort(names);
    SortSpec(names);
    assert forall n :: n in sorted <==> n in names by {
      forall n ensures n in sorted <==> n in names {
        assert n in sorted <==> n in multiset(sorted);
      }
    }
    if |sorted| == 0 {
      assert |names| == 0;
      forall i | 0 <= i < |profiles| ensures !ProfileCapable(profiles[i].1) {
        assert profiles[i].0 !in names;
      }
    } else {
      assert sorted[0] in sorted;
      forall i | 0 <= i < |profiles| && ProfileCapable(profiles[i].1) ensures StrLe(sorted[0], profiles[i].0) {
        assert profiles[i].0 in sorted;
        var j :| 0 <= j < |sorted| && sorted[j] == profiles[i].0;
      }
    }
  }

  /** The four `ENV.delete` calls leave the scrubbed environment. */
  lemma ScrubbedSteps(vars: map<string, string>)
    ensures vars - {"PWD"} - {"RBENV_DIR"} - {"RBENV_HOOK_PATH"} - {"RBENV_ROOT"} == Scrubbed(vars)
  {
    var a := vars - {"PWD"} - {"RBENV_DIR"} - {"RBENV_HOOK_PATH"} - {"RBENV_ROOT"};
    assert forall n :: n in a <==> n in Scrubbed(vars);
  }

  /** What `ensure_capable_ruby` ends in: returning nil, `Kernel.exec` of the
      script under an rbenv version, or an exception. */
  datatype Decision = Continue | Reexec(version: string) | Abort(error: Error)

  /** `RbenvBundler.ensure_capable_ruby(ruby_profile_map)`, given the running
      Ruby's version and engine. */
  method EnsureCapableRuby(env: Environment, scriptVersion: seq<int>, scriptEngine: string, profiles: Hash<string, Profile>)
    returns (d: Decision)
    modifies env
    ensures AtLeast19(scriptVersion) && scriptEngine != "jruby" ==> d == Continue && env.vars == old(env.vars)
    ensures !(AtLeast19(scriptVersion) && scriptEngine != "jruby") ==>
      match Chosen(profiles)
      case None => d == Abort(NoCapableRuby) && env.vars == old(env.vars)
      case Some(v) =>
        match ChildEnv(old(env.vars), v)
        case Ok(e) => d == Reexec(v) && env.vars == e
        case Err(err) => d == Abort(err) && env.vars == Scrubbed(old(env.vars))
  {
    if AtLeast19(scriptVersion) && scriptEngine != "jruby" {
      return Continue;
    }
    var sorted := Sort(CapableNames(profiles));
    if |sorted| == 0 {
      return Abort(NoCapableRuby);
    }
    var _ := env.Delete("PWD");
    var _ := env.Delete("RBENV_DIR");
    var _ := env.Delete("RBENV_HOOK_PATH");
    var _ := env.Delete("RBENV_ROOT");
    ScrubbedSteps(old(env.vars));
    var path := PopPath(Lookup(env.vars, "PATH"));
    if path.Err? {
      return Abort(path.error);
    }
    env.Assign("PATH", Some(path.value));
    env.Assign("RBENV_VERSION", Some(sorted[0]));
    d := Reexec(sorted[0]);
  }
}
