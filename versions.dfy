/**
  Ruby version numbers as the script handles them: `RUBY_VERSION`-style text
  split on "." with each piece read by `to_i`, compared with `Array#<=>`.
*/
module Versions {
  import Strings

  function ToInts(pieces: seq<string>): (ns: seq<int>)
    ensures |ns| == |pieces|
    ensures forall i :: 0 <= i < |pieces| ==> ns[i] == Strings.ToI(pieces[i])
  {
    if |pieces| == 0 then [] else [Strings.ToI(pieces[0])] + ToInts(pieces[1..])
  }

  /** `s.split(".", -1).map { |s| s.to_i }`. */
  function ParseVersion(s: string): seq<int>
  {
    ToInts(Strings.RubySplit(s, '.'))
  }

  function NatTexts(ns: seq<nat>): (ts: seq<string>)
    ensures |ts| == |ns|
    ensures forall i :: 0 <= i < |ns| ==> ts[i] == Strings.NatText(ns[i])
  {
    if |ns| == 0 then [] else [Strings.NatText(ns[0])] + NatTexts(ns[1..])
  }

  /** The text of a version number, as `RUBY_VERSION` prints one. */
  function VersionText(ns: seq<nat>): string
  {
    Strings.Join(NatTexts(ns), '.')
  }

  lemma VersionTextFree(ns: seq<nat>, d: char)
    requires d == '.' || !Strings.IsDigit(d)
    ensures d != '.' ==> d !in VersionText(ns)
  {
    if d != '.' {
      var ts := NatTexts(ns);
      forall i | 0 <= i < |ts| ensures d !in ts[i] {
        assert forall j :: 0 <= j < |ts[i]| ==> Strings.IsDigit(ts[i][j]);
      }
      Strings.JoinFree(ts, '.', d);
    }
  }

  /** Parsing the text of a version number gives back its components; the
      empty text parses as no components at all. */
  lemma ParseVersionText(ns: seq<nat>)
    ensures ParseVersion(VersionText(ns)) == ns
  {
    var ts := NatTexts(ns);
    if |ns| > 0 {
      forall i | 0 <= i < |ts| ensures '.' !in ts[i] {
        assert forall j :: 0 <= j < |ts[i]| ==> Strings.IsDigit(ts[i][j]);
      }
      Strings.SplitJoin(ts, '.');
      assert |Strings.Join(ts, '.')| > 0;
      var r := ParseVersion(VersionText(ns));
      forall i | 0 <= i < |ns| ensures r[i] == ns[i] {
        Strings.ToINatText(ns[i]);
      }
    }
  }

  /** `a <=> b` for arrays of integers: the first differing component decides,
      and a proper prefix is smaller. */
  function Compare(a: seq<int>, b: seq<int>): (r: int)
    ensures r == -1 || r == 0 || r == 1
  {
    if |a| == 0 && |b| == 0 then 0
    else if |a| == 0 then -1
    else if |b| == 0 then 1
    else if a[0] < b[0] then -1
    else if a[0] > b[0] then 1
    else Compare(a[1..], b[1..])
  }

  /** `<=>` answers 0 exactly for equal arrays, and swapping the operands negates it. */
  lemma {:induction false} CompareProperties(a: seq<int>, b: seq<int>)
    ensures Compare(a, b) == 0 <==> a == b
    ensures Compare(b, a) == -Compare(a, b)
  {
    if |a| > 0 && |b| > 0 && a[0] == b[0] {
      CompareProperties(a[1..], b[1..]);
      if a[1..] == b[1..] {
        assert a == [a[0]] + a[1..] && b == [b[0]] + b[1..];
      }
    }
  }

  /** `(v <=> [1, 9]) >= 0`. */
  predicate AtLeast19(v: seq<int>)
  {
    Compare(v, [1, 9]) >= 0
  }

  /** Version 1.9 or later: a major version above 1, or major 1 with a minor
      version of at least 9; "1" alone is older than "1.9". */
  lemma AtLeast19Iff(v: seq<int>)
    ensures AtLeast19(v) <==> |v| >= 1 && (v[0] > 1 || (v[0] == 1 && |v| >= 2 && v[1] >= 9))
  {
    if |v| >= 1 && v[0] == 1 {
      var t: seq<int> := [1, 9];
      assert t[1..] == [9];
      assert Compare(v, t) == Compare(v[1..], [9]);
      if |v| >= 2 && v[1] == 9 {
        var u: seq<int> := [9];
        assert u[1..] == [];
        assert Compare(v[1..], u) == Compare(v[1..][1..], []);
      }
    }
  }
}
