/**
  The line-pair text format of the index file `manifest.txt` (and of each
  listing file): every entry is written as two newline-terminated lines, and
  `RbenvBundler.read_manifest` reads the index back into a Hash.
*/
module Manifest {
  import opened Wrappers
  import opened Files
  import opened RubyHash
  import Strings

  /** The lines written for a sequence of pairs: key, then value, pair after pair. */
  function Flatten(ps: seq<(string, string)>): (lines: seq<string>)
    ensures |lines| == 2 * |ps|
    ensures forall i :: 0 <= i < |ps| ==> lines[2 * i] == ps[i].0 && lines[2 * i + 1] == ps[i].1
  {
    if |ps| == 0 then [] else [ps[0].0, ps[0].1] + Flatten(ps[1..])
  }

  /** `Hash[*lines]`'s view of an even number of lines: consecutive lines pair up. */
  function PairUp(lines: seq<string>): (ps: seq<(string, string)>)
    requires |lines| % 2 == 0
    ensures |ps| == |lines| / 2
    ensures forall i :: 0 <= i < |ps| ==> ps[i] == (lines[2 * i], lines[2 * i + 1])
  {
    if |lines| == 0 then [] else [(lines[0], lines[1])] + PairUp(lines[2..])
  }

  /** The text `write(key + "\n"); write(value + "\n")` leaves for each pair in turn. */
  function EncodePairs(ps: seq<(string, string)>): string
  {
    Strings.Terminated(Flatten(ps))
  }

  lemma {:induction false} FlattenAppend(ps: seq<(string, string)>, qs: seq<(string, string)>)
    ensures Flatten(ps + qs) == Flatten(ps) + Flatten(qs)
  {
    if |ps| > 0 {
      assert (ps + qs)[1..] == ps[1..] + qs;
      FlattenAppend(ps[1..], qs);
    } else {
      assert ps + qs == qs;
    }
  }

  /** Writing one more pair appends its two lines. */
  lemma EncodePairsAppend(ps: seq<(string, string)>, k: string, v: string)
    ensures EncodePairs(ps + [(k, v)]) == EncodePairs(ps) + k + "\n" + v + "\n"
  {
    var a, b := Flatten(ps), Flatten([(k, v)]);
    FlattenAppend(ps, [(k, v)]);
    Strings.TerminatedAppend(a, b);
    assert b == [k, v];
    assert [k, v][1..] == [v] && [v][1..] == [];
    assert Strings.Terminated([v]) == v + "\n";
    assert Strings.Terminated(b) == k + "\n" + (v + "\n");
    assert Strings.Terminated(a) + (k + "\n" + (v + "\n")) == Strings.Terminated(a) + k + "\n" + v + "\n";
  }

  predicate PairsFree(ps: seq<(string, string)>, c: char)
  {
    forall i :: 0 <= i < |ps| ==> c !in ps[i].0 && c !in ps[i].1
  }

  /** The index text read back: `Hash[*(text.split("\n", -1)[0...-1].map { |s| Pathname.new(s) })]`.
      Pathname.new raises on a NUL byte and Hash[] on an odd count. */
  function ParseIndex(text: string): (r: Result<Hash<string, string>, Error>)
    ensures r.Ok? ==> UniqueKeys(r.value)
  {
    var lines := Strings.Lines(text);
    if exists i | 0 <= i < |lines| :: '\0' in lines[i] then Err(NullByteInPath)
    else if |lines| % 2 == 1 then Err(OddNumberOfArguments)
    else Ok(FromPairs(PairUp(lines)))
  }

  function IndexFile(outDir: Path): Path
  {
    outDir + ["manifest.txt"]
  }

  /** `RbenvBundler.read_manifest(out_dir)`: a missing index reads as the empty Hash. */
  function ReadManifest(fs: FileSystem, outDir: Path): (r: Result<Hash<string, string>, Error>)
    ensures IndexFile(outDir) !in fs ==> r == Ok([])
    ensures r.Ok? ==> UniqueKeys(r.value)
  {
    var p := IndexFile(outDir);
    if p !in fs then Ok([])
    else
      match ReadFile(fs, p)
      case Ok(text) => ParseIndex(text)
      case Err(e) => Err(e)
  }

  /** The pairs come back from their lines unchanged. */
  lemma {:induction false} PairUpFlatten(ps: seq<(string, string)>)
    ensures PairUp(Flatten(ps)) == ps
  {
    if |ps| > 0 {
      PairUpFlatten(ps[1..]);
      assert Flatten(ps)[2..] == Flatten(ps[1..]);
    }
  }

  /** Reading back what was written gives the same key/value pairs, later keys
      winning, provided no path holds a newline or a NUL. */
  lemma ParseEncodedIndex(ps: seq<(string, string)>)
    requires PairsFree(ps, '\n') && PairsFree(ps, '\0')
    ensures ParseIndex(EncodePairs(ps)) == Ok(FromPairs(ps))
  {
    var lines := Flatten(ps);
    assert Strings.NoneContains(lines, '\n') by {
      forall j | 0 <= j < |lines| ensures '\n' !in lines[j] {
        assert lines[j] == if j % 2 == 0 then ps[j / 2].0 else ps[j / 2].1;
      }
    }
    Strings.LinesOfTerminated(lines);
    forall j | 0 <= j < |lines| ensures '\0' !in lines[j] {
      assert lines[j] == if j % 2 == 0 then ps[j / 2].0 else ps[j / 2].1;
    }
    PairUpFlatten(ps);
  }

  /** An index whose keys are distinct reads back as exactly those pairs, in order. */
  lemma IndexRoundTrip(ps: seq<(string, string)>)
    requires PairsFree(ps, '\n') && PairsFree(ps, '\0') && UniqueKeys(ps)
    ensures ParseIndex(EncodePairs(ps)) == Ok(ps)
  {
    ParseEncodedIndex(ps);
    FromDistinctPairs(ps);
  }

  /** Lines free of NUL but odd in number cannot be paired: `Hash[]` raises. */
  lemma OddIndexRefused(text: string)
    requires forall l <- Strings.Lines(text) :: '\0' !in l
    requires |Strings.Lines(text)| % 2 == 1
    ensures ParseIndex(text) == Err(OddNumberOfArguments)
  {
  }

  /** Text that ends without a newline loses its last line: "a\n" is one line,
      so it is refused. */
  lemma OneLineIndexRefused()
    ensures ParseIndex("a\n") == Err(OddNumberOfArguments)
  {
    var t := "a\n";
    assert "a" + ['\n'] + "" == t;
    Strings.SplitAllAfterPiece("a", '\n', "");
    assert Strings.SplitAll(t, '\n') == ["a", ""];
    assert Strings.Lines(t) == ["a"];
    OddIndexRefused(t);
  }
}
