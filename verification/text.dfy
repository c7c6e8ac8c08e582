/** String primitives the parser relies on: JavaScript's notion of whitespace and
    line terminators, `trim`, `indexOf`/`includes`, and `split` with a string
    separator. Strings are sequences of characters. */
module Text {
  import opened Wrappers

  type String = seq<char>

  /** The characters JavaScript's `.` refuses to match. */
  predicate IsLineTerminator(c: char) {
    c == '\n' || c == '\r' || c == '\U{2028}' || c == '\U{2029}'
  }

  /** The characters `String.prototype.trim` removes: white space and line terminators. */
  predicate IsWhitespace(c: char) {
    || IsLineTerminator(c)
    || c == '\t' || c == '\U{000B}' || c == '\U{000C}' || c == ' '
    || c == '\U{00A0}' || c == '\U{FEFF}' || c == '\U{1680}'
    || ('\U{2000}' <= c <= '\U{200A}')
    || c == '\U{202F}' || c == '\U{205F}' || c == '\U{3000}'
  }

  predicate NoLineBreak(s: String) {
    forall i :: 0 <= i < |s| ==> !IsLineTerminator(s[i])
  }

  predicate AllWhitespace(s: String) {
    forall i :: 0 <= i < |s| ==> IsWhitespace(s[i])
  }

  /** Neither end of `s` is whitespace. */
  predicate IsTrimmed(s: String) {
    s == [] || (!IsWhitespace(s[0]) && !IsWhitespace(s[|s| - 1]))
  }

  lemma SliceOfSlice(s: String, a: nat, b: nat, c: nat, d: nat)
    requires a <= b <= |s| && c <= d <= b - a
    ensures s[a..b][c..d] == s[a + c..a + d]
  {
    var u := s[a..b][c..d];
    assert |u| == d - c;
    forall i | 0 <= i < d - c
      ensures u[i] == s[a + c + i]
    {
      assert s[a..b][c + i] == s[a + c + i];
    }
  }

  lemma SliceSplit(s: String, a: nat, b: nat, c: nat)
    requires a <= b <= c <= |s|
    ensures s[a..c] == s[a..b] + s[b..c]
  {
  }

  lemma ExtendNoLineBreak(s: String, b: nat, n: nat)
    requires b + n < |s| && NoLineBreak(s[b..b + n]) && !IsLineTerminator(s[b + n])
    ensures NoLineBreak(s[b..b + n + 1])
  {
    assert s[b..b + n + 1] == s[b..b + n] + [s[b + n]];
  }

  /** A group that would run over a line terminator at `b + n` is not free of line breaks. */
  lemma LineBreakBlocks(s: String, b: nat, n: nat)
    requires b + n < |s| && IsLineTerminator(s[b + n])
    ensures forall e: nat :: b + n < e <= |s| ==> !NoLineBreak(s[b..e])
  {
    forall e: nat | b + n < e <= |s| ensures !NoLineBreak(s[b..e]) {
      assert s[b..e][n] == s[b + n];
    }
  }

  // ---------------------------------------------------------------- search

  predicate OccursAt(s: String, pat: String, i: nat) {
    i + |pat| <= |s| && s[i..i + |pat|] == pat
  }

  ghost predicate Occurs(s: String, pat: String) {
    exists i: nat :: OccursAt(s, pat, i)
  }

  /** An occurrence inside an occurrence is an occurrence. */
  lemma OccursWithin(s: String, pat: String, i: nat, sub: String, d: nat)
    requires OccursAt(s, pat, i) && OccursAt(pat, sub, d)
    ensures OccursAt(s, sub, i + d)
  {
    SliceOfSlice(s, i, i + |pat|, d, d + |sub|);
  }

  /** An occurrence in a prefix is an occurrence in the whole. */
  lemma OccursInPrefix(s: String, n: nat, pat: String, i: nat)
    requires n <= |s|
    ensures OccursAt(s[..n], pat, i) ==> OccursAt(s, pat, i)
  {
    if i + |pat| <= n {
      SliceOfSlice(s, 0, n, i, i + |pat|);
    }
  }

  /** `s.indexOf(pat, from)` for a non-empty pattern: the first occurrence at or after `from`. */
  function IndexOf(s: String, pat: String, from: nat): (r: Option<nat>)
    decreases |s| - from
    ensures r.Some? ==> from <= r.value && OccursAt(s, pat, r.value)
    ensures forall j: nat :: from <= j && (r.None? || j < r.value) ==> !OccursAt(s, pat, j)
  {
    if from + |pat| > |s| then None
    else if s[from..from + |pat|] == pat then Some(from)
    else IndexOf(s, pat, from + 1)
  }

  /** `s.includes(pat)`. */
  function Contains(s: String, pat: String): (b: bool)
    ensures b <==> Occurs(s, pat)
  {
    var r := IndexOf(s, pat, 0);
    if r.Some? then assert OccursAt(s, pat, r.value); true else false
  }

  // ---------------------------------------------------------------- trim

  /** The first non-whitespace index at or after `i`. */
  function SkipWhitespace(s: String, i: nat): (k: nat)
    requires i <= |s|
    decreases |s| - i
    ensures i <= k <= |s|
    ensures forall m :: i <= m < k ==> IsWhitespace(s[m])
    ensures k < |s| ==> !IsWhitespace(s[k])
  {
    if i == |s| || !IsWhitespace(s[i]) then i else SkipWhitespace(s, i + 1)
  }

  /** The end of the non-whitespace text that ends at or before `j`. */
  function SkipWhitespaceBack(s: String, j: nat): (k: nat)
    requires j <= |s|
    decreases j
    ensures k <= j
    ensures forall m :: k <= m < j ==> IsWhitespace(s[m])
    ensures 0 < k ==> !IsWhitespace(s[k - 1])
  {
    if j == 0 || !IsWhitespace(s[j - 1]) then j else SkipWhitespaceBack(s, j - 1)
  }

  /** `s.trim()`: `s` is some whitespace, then the result, then some whitespace. */
  function Trim(s: String): (r: String)
    ensures IsTrimmed(r)
    ensures exists i, j :: 0 <= i <= j <= |s| && r == s[i..j]
                           && AllWhitespace(s[..i]) && AllWhitespace(s[j..])
  {
    var i := SkipWhitespace(s, 0);
    if i == |s| then
      assert AllWhitespace(s[..i]) && AllWhitespace(s[i..]);
      []
    else
      var j := SkipWhitespaceBack(s, |s|);
      assert i < j;
      assert AllWhitespace(s[..i]) && AllWhitespace(s[j..]);
      s[i..j]
  }

  /** `Trim` is determined by its contract: stripping any whitespace padding
      off a trimmed text gives the text back. */
  lemma TrimUnique(a: String, r: String, b: String)
    requires AllWhitespace(a) && AllWhitespace(b) && IsTrimmed(r)
    ensures Trim(a + r + b) == r
  {
    var s := a + r + b;
    if r == [] {
      assert s == a + b;
      assert AllWhitespace(s);
      assert SkipWhitespace(s, 0) == |s|;
    } else {
      assert s[|a|] == r[0];
      var i := SkipWhitespace(s, 0);
      assert i == |a|;
      assert s[|a| + |r| - 1] == r[|r| - 1];
      var j := SkipWhitespaceBack(s, |s|);
      assert j == |a| + |r|;
      assert s[i..j] == r;
    }
  }

  // ---------------------------------------------------------------- split

  /** The parts glued back together with the separator between each pair. */
  function Join(parts: seq<String>, sep: String): String
    requires |parts| >= 1
    decreases |parts|
  {
    if |parts| == 1 then parts[0] else parts[0] + sep + Join(parts[1..], sep)
  }

  /** `parts` is what a leftmost, non-overlapping split of `s` on `sep` yields:
      gluing them reproduces `s`, no occurrence of `sep` begins inside a part
      (each part read together with the separator that follows it), and the
      last part contains none. */
  ghost predicate IsSplit(s: String, sep: String, parts: seq<String>) {
    && |parts| >= 1
    && Join(parts, sep) == s
    && (forall k, j: nat :: 0 <= k < |parts| - 1 && j < |parts[k]| ==> !OccursAt(parts[k] + sep, sep, j))
    && NoOccurrence(parts[|parts| - 1], sep)
  }

  ghost predicate NoOccurrence(s: String, pat: String) {
    forall j: nat :: !OccursAt(s, pat, j)
  }

  /** `s.split(sep)` for a non-empty string separator. */
  function Split(s: String, sep: String): (parts: seq<String>)
    requires |sep| > 0
    decreases |s|
    ensures IsSplit(s, sep, parts)
  {
    match IndexOf(s, sep, 0)
    case None => [s]
    case Some(i) =>
      var rest := Split(s[i + |sep|..], sep);
      SplitStep(s, sep, i, rest);
      [s[..i]] + rest
  }

  /** One step of the split: the text before the first separator, then the
      split of what follows it. */
  lemma SplitStep(s: String, sep: String, i: nat, rest: seq<String>)
    requires |sep| > 0 && IndexOf(s, sep, 0) == Some(i)
    requires IsSplit(s[i + |sep|..], sep, rest)
    ensures IsSplit(s, sep, [s[..i]] + rest)
  {
    var parts := [s[..i]] + rest;
    assert parts[1..] == rest;
    assert s[i..i + |sep|] == sep;
    assert s == s[..i] + s[i..i + |sep|] + s[i + |sep|..];
    FirstPartFree(s, sep, i);
    forall k, j: nat | 0 <= k < |parts| - 1 && j < |parts[k]|
      ensures !OccursAt(parts[k] + sep, sep, j)
    {
      if k > 0 {
        assert parts[k] == rest[k - 1];
      }
    }
  }

  lemma FirstPartFree(s: String, sep: String, i: nat)
    requires IndexOf(s, sep, 0) == Some(i)
    ensures forall j: nat :: j < i ==> !OccursAt(s[..i] + sep, sep, j)
  {
    var n := i + |sep|;
    assert s[i..n] == sep;
    SliceSplit(s, 0, i, n);
    assert s[..i] + sep == s[..n];
    forall j: nat | j < i
      ensures !OccursAt(s[..n], sep, j)
    {
      OccursInPrefix(s, n, sep, j);
    }
  }

  /** The split is the only decomposition with the properties of `IsSplit`. */
  lemma {:induction false} SplitUnique(s: String, sep: String, parts: seq<String>)
    requires |sep| > 0 && IsSplit(s, sep, parts)
    ensures parts == Split(s, sep)
    decreases |parts|
  {
    if |parts| == 1 {
      assert s == parts[0];
      assert IndexOf(s, sep, 0).None?;
    } else {
      var p := parts[0];
      var tail := Join(parts[1..], sep);
      assert s == p + sep + tail;
      forall j: nat | j < |p|
        ensures !OccursAt(s, sep, j)
      {
        assert !OccursAt(p + sep, sep, j);
        if j + |sep| <= |s| {
          assert s[j..j + |sep|] == (p + sep)[j..j + |sep|];
        }
      }
      assert OccursAt(s, sep, |p|) by {
        assert s[|p|..|p| + |sep|] == sep;
      }
      assert IndexOf(s, sep, 0) == Some(|p|);
      assert s[|p| + |sep|..] == tail;
      assert IsSplit(tail, sep, parts[1..]) by {
        forall k, j: nat | 0 <= k < |parts[1..]| - 1 && j < |parts[1..][k]|
          ensures !OccursAt(parts[1..][k] + sep, sep, j)
        {
          assert parts[1..][k] == parts[k + 1];
        }
      }
      SplitUnique(tail, sep, parts[1..]);
    }
  }

  /** No part of a split contains the separator. */
  lemma SplitPartsFree(s: String, sep: String, k: nat)
    requires |sep| > 0 && k < |Split(s, sep)|
    ensures !Occurs(Split(s, sep)[k], sep)
  {
    var parts := Split(s, sep);
    if k < |parts| - 1 {
      forall j: nat | OccursAt(parts[k], sep, j)
        ensures false
      {
        assert (parts[k] + sep)[j..j + |sep|] == parts[k][j..j + |sep|];
        assert OccursAt(parts[k] + sep, sep, j);
      }
    }
  }

  // ---------------------------------------------------------------- counting

  /** The number of positions at which `pat` occurs in `s`, overlapping or not. */
  function OccurrenceCount(s: String, pat: String): nat
    requires |pat| > 0
    decreases |s|
  {
    if |s| < |pat| then 0
    else (if s[..|pat|] == pat then 1 else 0) + OccurrenceCount(s[1..], pat)
  }

  /** No proper suffix of `pat` is also a prefix, so two occurrences never overlap. */
  ghost predicate BorderFree(pat: String) {
    forall k :: 0 < k < |pat| ==> pat[k..] != pat[..|pat| - k]
  }

  lemma {:induction false} CountSkip(s: String, pat: String, k: nat)
    requires |pat| > 0 && k <= |s|
    requires forall j: nat :: j < k ==> !OccursAt(s, pat, j)
    ensures OccurrenceCount(s, pat) == OccurrenceCount(s[k..], pat)
    decreases k
  {
    if k > 0 {
      if |s| >= |pat| {
        assert !OccursAt(s, pat, 0);
        assert s[..|pat|] != pat;
      }
      forall j: nat | j < k - 1
        ensures !OccursAt(s[1..], pat, j)
      {
        assert !OccursAt(s, pat, j + 1);
        if j + |pat| <= |s[1..]| {
          assert s[1..][j..j + |pat|] == s[j + 1..j + 1 + |pat|];
        }
      }
      CountSkip(s[1..], pat, k - 1);
      assert s[1..][k - 1..] == s[k..];
      if |s| < |pat| {
        assert |s[k..]| < |pat|;
      }
    }
  }

  /** Two occurrences of `pat` less than `|pat|` apart make a suffix of `pat` a prefix. */
  lemma Overlap(s: String, pat: String, i: nat, j: nat)
    requires OccursAt(s, pat, i) && OccursAt(s, pat, j) && i < j < i + |pat|
    ensures pat[j - i..] == pat[..|pat| - (j - i)]
  {
    assert s[j..i + |pat|] == pat[j - i..];
    assert s[j..i + |pat|] == pat[..|pat| - (j - i)];
  }

  lemma NoOverlap(s: String, pat: String, i: nat, j: nat)
    requires BorderFree(pat) && OccursAt(s, pat, i) && i < j < i + |pat|
    ensures !OccursAt(s, pat, j)
  {
    if OccursAt(s, pat, j) {
      Overlap(s, pat, i, j);
    }
  }

  /** A split on a separator that cannot overlap itself has one part more than
      the separator has occurrences. */
  lemma {:induction false} SplitCount(s: String, sep: String)
    requires |sep| > 0 && BorderFree(sep)
    ensures |Split(s, sep)| == OccurrenceCount(s, sep) + 1
    decreases |s|
  {
    match IndexOf(s, sep, 0)
    case None =>
      CountSkip(s, sep, |s|);
      assert s[|s|..] == [];
    case Some(i) =>
      CountSkip(s, sep, i);
      var t := s[i..];
      assert t[..|sep|] == sep;
      assert OccurrenceCount(t, sep) == 1 + OccurrenceCount(t[1..], sep);
      forall j: nat | j < |sep| - 1
        ensures !OccursAt(t[1..], sep, j)
      {
        NoOverlap(s, sep, i, i + 1 + j);
        if j + |sep| <= |t[1..]| {
          assert t[1..][j..j + |sep|] == s[i + 1 + j..i + 1 + j + |sep|];
        }
      }
      CountSkip(t[1..], sep, |sep| - 1);
      assert t[1..][|sep| - 1..] == s[i + |sep|..];
      SplitCount(s[i + |sep|..], sep);
  }
}
