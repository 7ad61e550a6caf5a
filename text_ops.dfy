/**
 * The Python string operations the renderer relies on: `str.strip()`,
 * `str.split(sep)` and joining, with the properties that make them usable
 * in proofs.  Strings are sequences of Unicode code points.
 */
module TextOps {

  /** Python's `str.isspace` for a single code point: what `str.strip()` removes. */
  predicate IsSpace(c: char) {
    ('\t' <= c <= '\r') || ('\U{1C}' <= c <= '\U{1F}') || c == ' '
    || c == '\U{85}' || c == '\U{A0}' || c == '\U{1680}'
    || ('\U{2000}' <= c <= '\U{200A}') || c == '\U{2028}' || c == '\U{2029}'
    || c == '\U{202F}' || c == '\U{205F}' || c == '\U{3000}'
  }

  predicate AllSpace(s: string) {
    forall i :: 0 <= i < |s| ==> IsSpace(s[i])
  }

  /** `s.lstrip()`: drops the whitespace at the start of `s`. */
  function StripLeft(s: string): (r: string)
    ensures |r| <= |s|
  {
    if s != [] && IsSpace(s[0]) then StripLeft(s[1..]) else s
  }

  /** `s.rstrip()`: drops the whitespace at the end of `s`. */
  function StripRight(s: string): (r: string)
    ensures |r| <= |s|
  {
    if s != [] && IsSpace(s[|s| - 1]) then StripRight(s[..|s| - 1]) else s
  }

  /** `lstrip()` keeps the longest suffix of `s` that does not start with whitespace. */
  lemma {:induction false} StripLeftFacts(s: string)
    ensures StripLeft(s) == s[|s| - |StripLeft(s)|..]
    ensures AllSpace(s[..|s| - |StripLeft(s)|])
    ensures StripLeft(s) == [] || !IsSpace(StripLeft(s)[0])
  {
    if s != [] && IsSpace(s[0]) {
      StripLeftFacts(s[1..]);
      var n := |s| - |StripLeft(s)|;
      assert s[1..][..n - 1] == s[1..n];
    }
  }

  /** `rstrip()` keeps the longest prefix of `s` that does not end with whitespace. */
  lemma {:induction false} StripRightFacts(s: string)
    ensures StripRight(s) == s[..|StripRight(s)|]
    ensures AllSpace(s[|StripRight(s)|..])
    ensures StripRight(s) == [] || !IsSpace(StripRight(s)[|StripRight(s)| - 1])
  {
    if s != [] && IsSpace(s[|s| - 1]) {
      var t := s[..|s| - 1];
      StripRightFacts(t);
      var m := |StripRight(s)|;
      assert t[m..] + [s[|s| - 1]] == s[m..];
    }
  }

  /** `s.strip()`. */
  function Strip(s: string): string {
    StripRight(StripLeft(s))
  }

  /** Number of leading whitespace characters `strip()` removes. */
  function LeadLength(s: string): nat {
    |s| - |StripLeft(s)|
  }

  /** Cutting a sequence at two points and gluing the three slices back gives it back. */
  lemma ThreeParts(s: string, n: nat, m: nat)
    requires n <= m <= |s|
    ensures s == s[..n] + s[n..m] + s[m..]
  {}

  /**
   * `strip()` cuts `s` into whitespace, a core that neither starts nor ends with
   * whitespace, and whitespace.
   */
  lemma StripSlice(s: string)
    ensures LeadLength(s) + |Strip(s)| <= |s|
    ensures s == s[..LeadLength(s)] + Strip(s) + s[LeadLength(s) + |Strip(s)|..]
    ensures AllSpace(s[..LeadLength(s)]) && AllSpace(s[LeadLength(s) + |Strip(s)|..])
    ensures Strip(s) == [] || (!IsSpace(Strip(s)[0]) && !IsSpace(Strip(s)[|Strip(s)| - 1]))
  {
    var l := StripLeft(s);
    var n := |s| - |l|;
    var r := StripRight(l);
    var m := n + |r|;
    StripLeftFacts(s);
    StripRightFacts(l);
    assert s[n..m] == r by {
      assert l == s[n..];
      assert r == l[..|r|];
    }
    assert s[m..] == l[|r|..];
    ThreeParts(s, n, m);
  }

  /** A string strips to nothing exactly when it is all whitespace. */
  lemma StripEmpty(s: string)
    ensures Strip(s) == [] <==> AllSpace(s)
  {
    var l := StripLeft(s);
    StripLeftFacts(s);
    StripRightFacts(l);
    if Strip(s) == [] {
      assert s[..|s| - |l|] == s by {
        if l != [] { assert false; }
      }
    } else if AllSpace(s) {
      assert false;
    }
  }

  /** Concatenation of a sequence of strings, in order. */
  function Concat(parts: seq<string>): string {
    if parts == [] then [] else parts[0] + Concat(parts[1..])
  }

  /** `sep.join(lines)`. */
  function Join(lines: seq<string>, sep: char): string {
    if |lines| == 0 then []
    else if |lines| == 1 then lines[0]
    else lines[0] + [sep] + Join(lines[1..], sep)
  }

  /**
   * `s.split(sep)` for a one-character separator: the pieces between
   * separators, in order; the empty string splits into one empty piece.
   */
  function Split(s: string, sep: char): (r: seq<string>)
    ensures |r| >= 1
    ensures forall i :: 0 <= i < |r| ==> sep !in r[i]
  {
    if s == [] then [[]]
    else
      var rest := Split(s[1..], sep);
      if s[0] == sep then [[]] + rest
      else [[s[0]] + rest[0]] + rest[1..]
  }

  /** Splitting loses nothing: joining the pieces gives the string back. */
  lemma {:induction false} JoinSplit(s: string, sep: char)
    ensures Join(Split(s, sep), sep) == s
  {
    if s != [] {
      var rest := Split(s[1..], sep);
      JoinSplit(s[1..], sep);
      if s[0] == sep {
        assert ([[]] + rest)[1..] == rest;
      } else if |rest| > 1 {
        var r := [[s[0]] + rest[0]] + rest[1..];
        assert r[1..] == rest[1..];
        assert Join(rest, sep) == rest[0] + [sep] + Join(rest[1..], sep);
      }
    }
  }

  lemma {:induction false} SplitNoSeparator(l: string, sep: char)
    requires sep !in l
    ensures Split(l, sep) == [l]
  {
    if l != [] {
      SplitNoSeparator(l[1..], sep);
      assert [l[0]] + l[1..] == l;
    }
  }

  lemma {:induction false} SplitAfterLine(l: string, t: string, sep: char)
    requires sep !in l
    ensures Split(l + [sep] + t, sep) == [l] + Split(t, sep)
  {
    if l == [] {
      assert l + [sep] + t == [sep] + t;
      assert ([sep] + t)[1..] == t;
    } else {
      var s := l + [sep] + t;
      assert s[1..] == l[1..] + [sep] + t;
      SplitAfterLine(l[1..], t, sep);
      assert [l[0]] + l[1..] == l;
    }
  }

  /** Joining lines that hold no separator and splitting again gives the lines back. */
  lemma {:induction false} SplitJoin(lines: seq<string>, sep: char)
    requires |lines| >= 1
    requires forall i :: 0 <= i < |lines| ==> sep !in lines[i]
    ensures Split(Join(lines, sep), sep) == lines
  {
    if |lines| == 1 {
      SplitNoSeparator(lines[0], sep);
    } else {
      SplitJoin(lines[1..], sep);
      SplitAfterLine(lines[0], Join(lines[1..], sep), sep);
      assert [lines[0]] + lines[1..] == lines;
    }
  }
}
