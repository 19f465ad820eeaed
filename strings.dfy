/**
 * The handful of java.lang.String operations the extraction engine relies on,
 * restricted to ASCII where Java is Unicode-aware (see README, "Left out").
 */
module Strings {

  /** Java's `Character.toLowerCase` on the ASCII range. */
  function LowerChar(c: char): char
  {
    if 'A' <= c <= 'Z' then (c as int + 32) as char else c
  }

  /** `String.toLowerCase()`, character by character. */
  function Lower(s: string): (r: string)
    ensures |r| == |s|
  {
    seq(|s|, i requires 0 <= i < |s| => LowerChar(s[i]))
  }

  /** `a.equalsIgnoreCase(b)` for ASCII text. */
  predicate EqualsIgnoreCase(a: string, b: string)
  {
    Lower(a) == Lower(b)
  }

  /** `t` occurs in `s` starting at index `i`. */
  predicate OccursAt(s: string, t: string, i: int)
  {
    0 <= i && i + |t| <= |s| && s[i..i + |t|] == t
  }

  /** `s.indexOf(t, from)`: the first occurrence at or after `from`, or -1. */
  function IndexOfFrom(s: string, t: string, from: nat): (r: int)
    ensures r == -1 || (from <= r && OccursAt(s, t, r))
    ensures r >= 0 ==> forall k :: from <= k < r ==> !OccursAt(s, t, k)
    ensures r == -1 ==> forall k :: from <= k ==> !OccursAt(s, t, k)
    decreases |s| - from
  {
    if from + |t| > |s| then -1
    else if s[from..from + |t|] == t then from
    else IndexOfFrom(s, t, from + 1)
  }

  /** `s.indexOf(t)`. */
  function IndexOf(s: string, t: string): (r: int)
    ensures r == -1 || OccursAt(s, t, r)
    ensures r >= 0 ==> forall k :: 0 <= k < r ==> !OccursAt(s, t, k)
    ensures r == -1 <==> forall k :: !OccursAt(s, t, k)
  {
    IndexOfFrom(s, t, 0)
  }

  /** `s.contains(t)`. */
  predicate Contains(s: string, t: string)
  {
    IndexOf(s, t) >= 0
  }

  /** One differing character rules an occurrence out. */
  lemma Mismatch(s: string, t: string, i: int, j: int)
    requires 0 <= i && 0 <= j < |t| && i + j < |s| && s[i + j] != t[j]
    ensures !OccursAt(s, t, i)
  {
  }

  lemma ContainsAt(s: string, t: string, i: int)
    requires OccursAt(s, t, i)
    ensures Contains(s, t)
  {
  }

  /** A longer needle that occurs implies each of its prefixes occurs. */
  lemma {:induction false} ContainsPrefix(s: string, t: string, p: string)
    requires Contains(s, t) && |p| <= |t| && t[..|p|] == p
    ensures Contains(s, p)
  {
    var i := IndexOf(s, t);
    assert s[i..i + |p|] == s[i..i + |t|][..|p|];
    ContainsAt(s, p, i);
  }

  /** Characters `String.trim()` removes: everything up to and including U+0020. */
  predicate Blank(c: char)
  {
    c <= ' '
  }

  /** Number of blank characters `trim()` strips from the front. */
  function LeadingBlanks(s: string): (n: nat)
    ensures n <= |s|
    ensures forall i :: 0 <= i < n ==> Blank(s[i])
    ensures n < |s| ==> !Blank(s[n])
  {
    if s != [] && Blank(s[0]) then 1 + LeadingBlanks(s[1..]) else 0
  }

  /** Number of blank characters `trim()` strips from the back. */
  function TrailingBlanks(s: string): (n: nat)
    ensures n <= |s|
    ensures forall i :: |s| - n <= i < |s| ==> Blank(s[i])
    ensures n < |s| ==> !Blank(s[|s| - n - 1])
  {
    if s != [] && Blank(s[|s| - 1]) then 1 + TrailingBlanks(s[..|s| - 1]) else 0
  }

  /** `String.trim()`: the slice of `s` between its leading and trailing blanks. */
  function Trim(s: string): (r: string)
    ensures LeadingBlanks(s) + |r| <= |s|
    ensures r == s[LeadingBlanks(s)..LeadingBlanks(s) + |r|]
    ensures r != [] ==> !Blank(r[0]) && !Blank(r[|r| - 1])
    ensures forall i :: 0 <= i < |s| && !Blank(s[i]) ==> LeadingBlanks(s) <= i < LeadingBlanks(s) + |r|
  {
    var a := LeadingBlanks(s);
    var rest := s[a..];
    var b := TrailingBlanks(rest);
    assert forall i :: a + |rest| - b <= i < |s| ==> s[i] == rest[i - a];
    rest[..|rest| - b]
  }

  /** Lower-casing commutes with taking a slice. */
  lemma LowerSlice(s: string, a: int, b: int)
    requires 0 <= a <= b <= |s|
    ensures Lower(s[a..b]) == Lower(s)[a..b]
  {
  }

  /** An occurrence inside a slice is an occurrence in the whole string. */
  lemma OccursInSlice(s: string, p: string, a: int, b: int, k: int)
    requires 0 <= a <= b <= |s| && OccursAt(s[a..b], p, k)
    ensures OccursAt(s, p, a + k)
  {
    var x, y := s[a..b][k..k + |p|], s[a + k..a + k + |p|];
    assert forall j :: 0 <= j < |x| ==> x[j] == y[j];
    assert x == y;
  }

  /** An occurrence that lies between `a` and `b` is an occurrence in the slice. */
  lemma OccursInWindow(s: string, p: string, a: int, b: int, k: int)
    requires 0 <= a <= k && k + |p| <= b <= |s| && OccursAt(s, p, k)
    ensures OccursAt(s[a..b], p, k - a)
  {
    var x, y := s[a..b][k - a..k - a + |p|], s[k..k + |p|];
    assert forall j :: 0 <= j < |x| ==> x[j] == y[j];
    assert x == y;
  }

  /** Lower-casing keeps visible characters visible. */
  lemma LowerVisible(s: string, i: int)
    requires 0 <= i < |s| && !Blank(Lower(s)[i])
    ensures !Blank(s[i])
  {
  }

  lemma {:induction false} ContainsTrimmedFrom(s: string, p: string)
    requires Contains(Lower(Trim(s)), p)
    ensures Contains(Lower(s), p)
  {
    var a := LeadingBlanks(s);
    var t := Trim(s);
    var b := a + |t|;
    var ls, lt := Lower(s), Lower(t);
    assert t == s[a..b];
    LowerSlice(s, a, b);
    assert lt == ls[a..b];
    var k := IndexOf(lt, p);
    OccursInSlice(ls, p, a, b, k);
    ContainsAt(ls, p, a + k);
  }

  lemma VisibleEnds(s: string, p: string, k: int)
    requires p != [] && !Blank(p[0]) && !Blank(p[|p| - 1])
    requires OccursAt(Lower(s), p, k)
    ensures !Blank(s[k]) && !Blank(s[k + |p| - 1])
  {
    var w := Lower(s)[k..k + |p|];
    assert w[0] == Lower(s)[k] && w[|p| - 1] == Lower(s)[k + |p| - 1];
    LowerVisible(s, k);
    LowerVisible(s, k + |p| - 1);
  }

  /** An occurrence of a phrase with visible ends lies inside the trimmed part. */
  lemma TrimmedWindow(s: string, p: string)
    requires p != [] && !Blank(p[0]) && !Blank(p[|p| - 1])
    requires Contains(Lower(s), p)
    ensures LeadingBlanks(s) <= IndexOf(Lower(s), p)
    ensures IndexOf(Lower(s), p) + |p| <= LeadingBlanks(s) + |Trim(s)|
  {
    VisibleEnds(s, p, IndexOf(Lower(s), p));
  }

  lemma {:induction false} ContainsTrimmedTo(s: string, p: string)
    requires p != [] && !Blank(p[0]) && !Blank(p[|p| - 1])
    requires Contains(Lower(s), p)
    ensures Contains(Lower(Trim(s)), p)
  {
    TrimmedWindow(s, p);
    TrimmedLower(s);
    WindowContains(Lower(s), Lower(Trim(s)), p, LeadingBlanks(s), LeadingBlanks(s) + |Trim(s)|);
  }

  /** Lower-casing the trimmed text is slicing the lower-cased text. */
  lemma TrimmedLower(s: string)
    ensures LeadingBlanks(s) + |Trim(s)| <= |s|
    ensures Lower(Trim(s)) == Lower(s)[LeadingBlanks(s)..LeadingBlanks(s) + |Trim(s)|]
  {
    LowerSlice(s, LeadingBlanks(s), LeadingBlanks(s) + |Trim(s)|);
  }

  /** A first occurrence between `a` and `b` makes the slice contain the phrase. */
  lemma WindowContains(s: string, t: string, p: string, a: int, b: int)
    requires Contains(s, p) && a <= IndexOf(s, p) && IndexOf(s, p) + |p| <= b <= |s|
    requires 0 <= a && t == s[a..b]
    ensures Contains(t, p)
  {
    SliceContains(s, t, p, a, b, IndexOf(s, p));
  }

  /** An occurrence between `a` and `b` makes the slice contain the phrase. */
  lemma SliceContains(s: string, t: string, p: string, a: int, b: int, k: int)
    requires 0 <= a <= k && k + |p| <= b <= |s| && OccursAt(s, p, k)
    requires t == s[a..b]
    ensures Contains(t, p)
  {
    OccursInWindow(s, p, a, b, k);
    ContainsAt(t, p, k - a);
  }

  /**
   * Trimming never changes whether a phrase that starts and ends with a
   * visible character occurs in the lower-cased text.
   */
  lemma {:induction false} ContainsTrimmed(s: string, p: string)
    requires p != [] && !Blank(p[0]) && !Blank(p[|p| - 1])
    ensures Contains(Lower(Trim(s)), p) <==> Contains(Lower(s), p)
  {
    if Contains(Lower(Trim(s)), p) {
      ContainsTrimmedFrom(s, p);
    }
    if Contains(Lower(s), p) {
      ContainsTrimmedTo(s, p);
    }
  }

  /** `TextUtils.join(sep, parts)`. */
  function Join(sep: string, parts: seq<string>): string
  {
    if |parts| == 0 then ""
    else if |parts| == 1 then parts[0]
    else parts[0] + sep + Join(sep, parts[1..])
  }

  /** The delimiter configured pattern lists are split on. */
  const PatternDelimiter: string := "&&"

  /**
   * The pieces between the non-overlapping, leftmost occurrences of "&&"
   * (the raw result of `String.split("&&")` before Java drops trailing empties).
   */
  function SplitPieces(s: string): (r: seq<string>)
    ensures |r| >= 1
    ensures forall i :: 0 <= i < |r| ==> !Contains(r[i], PatternDelimiter)
    decreases |s|
  {
    var i := IndexOf(s, PatternDelimiter);
    if i < 0 then [s]
    else
      assert forall k :: 0 <= k < i ==> !OccursAt(s, PatternDelimiter, k);
      NoOccurrenceInPrefix(s, PatternDelimiter, i);
      [s[..i]] + SplitPieces(s[i + 2..])
  }

  lemma NoOccurrenceInPrefix(s: string, t: string, i: int)
    requires 0 <= i <= |s| && t != []
    requires forall k :: 0 <= k < i ==> !OccursAt(s, t, k)
    ensures !Contains(s[..i], t)
  {
    if Contains(s[..i], t) {
      var k := IndexOf(s[..i], t);
      OccursInSlice(s, t, 0, i, k);
    }
  }

  /** Java's split drops the empty strings at the end of the result. */
  function DropTrailingEmpty(ps: seq<string>): (r: seq<string>)
    ensures |r| <= |ps| && r == ps[..|r|]
    ensures r != [] ==> r[|r| - 1] != ""
    ensures forall i :: |r| <= i < |ps| ==> ps[i] == ""
  {
    if ps == [] || ps[|ps| - 1] != "" then ps else DropTrailingEmpty(ps[..|ps| - 1])
  }

  /**
   * `s.split("&&")`: an input without a delimiter comes back whole; otherwise
   * the pieces between delimiters, none of which holds a delimiter, with the
   * empty pieces at the end dropped.
   */
  function SplitPatterns(s: string): (r: seq<string>)
    ensures forall i :: 0 <= i < |r| ==> !Contains(r[i], PatternDelimiter)
    ensures s != "" && r != [] ==> r[|r| - 1] != ""
    ensures !Contains(s, PatternDelimiter) ==> r == [s]
  {
    if !Contains(s, PatternDelimiter) then [s] else DropTrailingEmpty(SplitPieces(s))
  }

  /** `s` ends with the delimiter. */
  predicate EndsWithDelimiter(s: string)
  {
    |s| >= 2 && s[|s| - 2..] == PatternDelimiter
  }

  /** A non-empty input that does not end with the delimiter has a non-empty last piece. */
  lemma {:induction false} LastPieceNonEmpty(s: string)
    requires s != "" && !EndsWithDelimiter(s)
    ensures SplitPieces(s)[|SplitPieces(s)| - 1] != ""
    decreases |s|
  {
    var i := IndexOf(s, PatternDelimiter);
    if i >= 0 {
      var rest := s[i + 2..];
      assert SplitPieces(s) == [s[..i]] + SplitPieces(rest);
      if rest != "" {
        LastPieceNonEmpty(rest);
      }
    }
  }

  /** Java's split keeps every raw piece: there is no delimiter, or the last piece is not empty. */
  predicate KeepsAllPieces(s: string)
  {
    !Contains(s, PatternDelimiter) || SplitPieces(s)[|SplitPieces(s)| - 1] != ""
  }

  /**
   * The pattern list joined with "&&" gives back the configured string
   * whenever Java drops no trailing empty piece ...
   */
  lemma SplitPatternsRoundTrip(s: string)
    requires KeepsAllPieces(s)
    ensures Join(PatternDelimiter, SplitPatterns(s)) == s
  {
    if Contains(s, PatternDelimiter) {
      SplitPiecesRoundTrip(s);
    }
  }

  /** ... which is the case for every string that does not end with "&&". */
  lemma KeepsAllPiecesUnlessEnds(s: string)
    requires !EndsWithDelimiter(s)
    ensures KeepsAllPieces(s)
  {
    if s != "" {
      LastPieceNonEmpty(s);
    }
  }

  /**
   * The split is at the leftmost delimiter: the first piece ends where the
   * first "&&" starts, and the rest is the split of what follows it.
   */
  lemma SplitPiecesLeftmost(s: string)
    ensures |SplitPieces(s)| == 1 <==> !Contains(s, PatternDelimiter)
    ensures Contains(s, PatternDelimiter) ==>
      var i := IndexOf(s, PatternDelimiter);
      && i == |SplitPieces(s)[0]|
      && SplitPieces(s)[1..] == SplitPieces(s[i + |PatternDelimiter|..])
  {
    var i := IndexOf(s, PatternDelimiter);
    if i >= 0 {
      var rest := SplitPieces(s[i + 2..]);
      assert SplitPieces(s) == [s[..i]] + rest;
      assert |SplitPieces(s)| == 1 + |rest| > 1;
    } else {
      assert SplitPieces(s) == [s];
    }
  }

  /** Joining the raw pieces with the delimiter gives back the configured string. */
  lemma {:induction false} SplitPiecesRoundTrip(s: string)
    ensures Join(PatternDelimiter, SplitPieces(s)) == s
    decreases |s|
  {
    var i := IndexOf(s, PatternDelimiter);
    if i >= 0 {
      var rest := s[i + 2..];
      SplitPiecesRoundTrip(rest);
      assert SplitPieces(s) == [s[..i]] + SplitPieces(rest);
      assert s == s[..i] + PatternDelimiter + rest;
    }
  }
}
