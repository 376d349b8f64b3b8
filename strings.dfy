/**
  The pieces of Ruby's String semantics that the rehash script relies on:
  `split(sep, -1)`, `Array#join(sep)`, `chomp("\n")`, `to_i` and `Integer#to_s`.
  Strings are `seq<char>`; a character compares by its code point, which for
  UTF-8 text is the same order as Ruby's byte-wise comparison.
*/
module Strings {

  /** `s.split(c, -1)` for a non-empty `s`: the pieces between separators,
      trailing empty pieces kept. On "" it yields [""], the one piece Ruby drops. */
  function SplitAll(s: string, c: char): (pieces: seq<string>)
    ensures |pieces| >= 1
    ensures forall i :: 0 <= i < |pieces| ==> c !in pieces[i]
  {
    if |s| == 0 then [""]
    else if s[0] == c then [""] + SplitAll(s[1..], c)
    else
      var rest := SplitAll(s[1..], c);
      [[s[0]] + rest[0]] + rest[1..]
  }

  /** Ruby's `s.split(c, -1)`: the empty string splits into no pieces at all. */
  function RubySplit(s: string, c: char): (pieces: seq<string>)
    ensures s == "" <==> pieces == []
  {
    if s == "" then [] else SplitAll(s, c)
  }

  /** Ruby's `xs.join(c)`. */
  function Join(xs: seq<string>, c: char): string
  {
    if |xs| == 0 then ""
    else if |xs| == 1 then xs[0]
    else xs[0] + [c] + Join(xs[1..], c)
  }

  predicate NoneContains(xs: seq<string>, c: char)
  {
    forall i :: 0 <= i < |xs| ==> c !in xs[i]
  }

  lemma {:induction false} SplitAllNoSeparator(a: string, c: char)
    requires c !in a
    ensures SplitAll(a, c) == [a]
  {
    if |a| > 0 {
      SplitAllNoSeparator(a[1..], c);
      assert [a[0]] + a[1..] == a;
    }
  }

  lemma {:induction false} SplitAllAfterPiece(a: string, c: char, rest: string)
    requires c !in a
    ensures SplitAll(a + [c] + rest, c) == [a] + SplitAll(rest, c)
  {
    if |a| == 0 {
      assert a + [c] + rest == [c] + rest;
      assert ([c] + rest)[1..] == rest;
    } else {
      var s := a + [c] + rest;
      assert s[1..] == a[1..] + [c] + rest;
      SplitAllAfterPiece(a[1..], c, rest);
      assert [a[0]] + a[1..] == a;
    }
  }

  /** Splitting a join gives back the pieces, when no piece holds the separator. */
  lemma {:induction false} SplitJoin(xs: seq<string>, c: char)
    requires |xs| >= 1 && NoneContains(xs, c)
    ensures SplitAll(Join(xs, c), c) == xs
  {
    if |xs| == 1 {
      SplitAllNoSeparator(xs[0], c);
    } else {
      SplitJoin(xs[1..], c);
      SplitAllAfterPiece(xs[0], c, Join(xs[1..], c));
      assert [xs[0]] + xs[1..] == xs;
    }
  }

  lemma JoinConsFirst(x: char, piece: string, rest: seq<string>, c: char)
    ensures Join([[x] + piece] + rest, c) == [x] + Join([piece] + rest, c)
  {
    var l := [[x] + piece] + rest;
    var r := [piece] + rest;
    assert l[1..] == rest && r[1..] == rest;
  }

  /** A character in no piece and other than the separator is not in the join. */
  lemma {:induction false} JoinFree(xs: seq<string>, c: char, d: char)
    requires NoneContains(xs, d) && c != d
    ensures d !in Join(xs, c)
  {
    if |xs| > 1 {
      JoinFree(xs[1..], c, d);
    }
  }

  /** Joining the pieces of a split gives back the string: nothing is lost. */
  lemma {:induction false} JoinSplit(s: string, c: char)
    ensures Join(SplitAll(s, c), c) == s
  {
    if |s| > 0 {
      var rest := SplitAll(s[1..], c);
      JoinSplit(s[1..], c);
      if s[0] == c {
        assert ([""] + rest)[1..] == rest;
        assert s == [c] + s[1..];
      } else {
        assert rest == [rest[0]] + rest[1..];
        JoinConsFirst(s[0], rest[0], rest[1..], c);
        assert s == [s[0]] + s[1..];
      }
    }
  }

  /** `s.split("\n", -1)[0...-1]`: the newline-terminated lines of `s`
      (text after the last newline is dropped). */
  function Lines(s: string): (lines: seq<string>)
    ensures NoneContains(lines, '\n')
  {
    var pieces := RubySplit(s, '\n');
    if |pieces| == 0 then [] else pieces[..|pieces| - 1]
  }

  /** Each line followed by "\n", as a sequence of `write(line + "\n")` calls leaves a file. */
  function Terminated(lines: seq<string>): string
  {
    if |lines| == 0 then "" else lines[0] + "\n" + Terminated(lines[1..])
  }

  lemma {:induction false} TerminatedIsJoin(lines: seq<string>)
    ensures Terminated(lines) == Join(lines + [""], '\n')
  {
    if |lines| > 0 {
      TerminatedIsJoin(lines[1..]);
      assert (lines + [""])[1..] == lines[1..] + [""];
      assert (lines + [""])[0] == lines[0];
    }
  }

  lemma TerminatedAppend(a: seq<string>, b: seq<string>)
    ensures Terminated(a + b) == Terminated(a) + Terminated(b)
  {
    if |a| > 0 {
      assert (a + b)[1..] == a[1..] + b;
      TerminatedAppend(a[1..], b);
    } else {
      assert a + b == b;
    }
  }

  /** Reading back newline-terminated lines gives exactly those lines. */
  lemma {:induction false} LinesOfTerminated(lines: seq<string>)
    requires NoneContains(lines, '\n')
    ensures Lines(Terminated(lines)) == lines
  {
    if |lines| > 0 {
      TerminatedIsJoin(lines);
      SplitJoin(lines + [""], '\n');
      assert (lines + [""])[..|lines|] == lines;
    }
  }

  /** Ruby's `chomp("\n")`, which removes a trailing "\r\n", "\n" or "\r". */
  function Chomp(s: string): (r: string)
    ensures r <= s && |s| - 2 <= |r|
    ensures |r| < |s| ==> s[|s| - 1] == '\n' || s[|s| - 1] == '\r'
  {
    if |s| >= 2 && s[|s| - 2..] == "\r\n" then s[..|s| - 2]
    else if |s| >= 1 && (s[|s| - 1] == '\n' || s[|s| - 1] == '\r') then s[..|s| - 1]
    else s
  }

  /** A version file written as one line gives back that line. */
  lemma ChompLine(v: string)
    requires v == "" || v[|v| - 1] != '\r'
    ensures Chomp(v + "\n") == v
  {
    var s := v + "\n";
    if v != "" {
      assert s[|s| - 2] == v[|v| - 1];
    }
    assert s[..|s| - 1] == v;
  }

  predicate IsDigit(c: char) { '0' <= c <= '9' }

  predicate IsSpace(c: char) { c == ' ' || '\t' <= c <= '\r' }

  function SkipSpace(s: string): (r: string)
    ensures |r| <= |s| && r == s[|s| - |r|..]
  {
    if |s| > 0 && IsSpace(s[0]) then SkipSpace(s[1..]) else s
  }

  /** The digits of the longest prefix of `s` that is a decimal numeral in which
      single underscores may separate digits (`1_000`), underscores dropped. */
  function DigitRun(s: string): (ds: string)
    ensures forall i :: 0 <= i < |ds| ==> IsDigit(ds[i])
  {
    if |s| == 0 || !IsDigit(s[0]) then []
    else if |s| >= 3 && s[1] == '_' && IsDigit(s[2]) then [s[0]] + DigitRun(s[2..])
    else [s[0]] + DigitRun(s[1..])
  }

  function DigitsValue(ds: string): nat
    requires forall i :: 0 <= i < |ds| ==> IsDigit(ds[i])
  {
    if |ds| == 0 then 0
    else DigitsValue(ds[..|ds| - 1]) * 10 + DigitValue(ds[|ds| - 1])
  }

  function DigitValue(c: char): nat
    requires IsDigit(c)
  {
    c as int - '0' as int
  }

  /** Ruby's `String#to_i`: leading white space, an optional sign, then as many
      digits as form a numeral; 0 when there are none. */
  function ToI(s: string): int
  {
    var t := SkipSpace(s);
    if |t| > 0 && t[0] == '-' then -(DigitsValue(DigitRun(t[1..])) as int)
    else if |t| > 0 && t[0] == '+' then DigitsValue(DigitRun(t[1..]))
    else DigitsValue(DigitRun(t))
  }

  function DigitChar(d: nat): char
    requires d < 10
  {
    ('0' as int + d) as char
  }

  /** `Integer#to_s` for a natural number. */
  function NatText(n: nat): (s: string)
    ensures |s| >= 1
    ensures forall i :: 0 <= i < |s| ==> IsDigit(s[i])
    decreases n
  {
    if n < 10 then [DigitChar(n)] else NatText(n / 10) + [DigitChar(n % 10)]
  }

  lemma {:induction false} DigitRunOfDigits(ds: string)
    requires forall i :: 0 <= i < |ds| ==> IsDigit(ds[i])
    ensures DigitRun(ds) == ds
  {
    if |ds| > 0 {
      DigitRunOfDigits(ds[1..]);
      assert [ds[0]] + ds[1..] == ds;
    }
  }

  lemma {:induction false} NatTextValue(n: nat)
    ensures DigitsValue(NatText(n)) == n
    decreases n
  {
    if n >= 10 {
      NatTextValue(n / 10);
      var s := NatText(n);
      assert s[..|s| - 1] == NatText(n / 10);
    }
  }

  /** `to_i` reads back what `to_s` wrote. */
  lemma ToINatText(n: nat)
    ensures ToI(NatText(n)) == n
  {
    var s := NatText(n);
    assert !IsSpace(s[0]);
    assert SkipSpace(s) == s;
    DigitRunOfDigits(s);
    NatTextValue(n);
  }
}
