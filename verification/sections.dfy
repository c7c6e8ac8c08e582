/** Cutting an assistant message into sections at horizontal rules: the
    regular-expression split on a newline, three or more dashes and a newline. */
module Sections {
  import opened Wrappers
  import opened Text

  /** A horizontal rule exactly as the splitter matches it. */
  ghost predicate IsRule(t: String) {
    && |t| >= 5
    && t[0] == '\n' && t[|t| - 1] == '\n'
    && forall m :: 1 <= m < |t| - 1 ==> t[m] == '-'
  }

  /** No rule occurs anywhere in `t`. */
  ghost predicate NoRule(t: String) {
    forall i, e :: 0 <= i <= e <= |t| ==> !IsRule(t[i..e])
  }

  /** The length of the run of dashes starting at `i`. */
  function DashRun(s: String, i: nat): (k: nat)
    requires i <= |s|
    decreases |s| - i
    ensures i + k <= |s|
    ensures forall m :: i <= m < i + k ==> s[m] == '-'
    ensures i + k < |s| ==> s[i + k] != '-'
  {
    if i == |s| || s[i] != '-' then 0 else 1 + DashRun(s, i + 1)
  }

  /** The length of the rule the splitter matches at `i`, or 0 if none: the
      dash run is greedy, so the only candidate ends right after it. */
  function RuleLengthAt(s: String, i: nat): (n: nat)
    ensures n > 0 ==> i + n <= |s|
  {
    if i < |s| && s[i] == '\n' then
      var k := DashRun(s, i + 1);
      if k >= 3 && i + 1 + k < |s| && s[i + 1 + k] == '\n' then
        k + 2
      else
        0
    else
      0
  }

  /** What `RuleLengthAt` measures is a rule. */
  lemma RuleLengthIsRule(s: String, i: nat)
    requires RuleLengthAt(s, i) > 0
    ensures IsRule(s[i..i + RuleLengthAt(s, i)])
  {
    RuleFromDashes(s, i, DashRun(s, i + 1));
  }

  /** A rule starting at `i` is the one `RuleLengthAt` measures. */
  lemma RuleLengthUnique(s: String, i: nat, e: nat)
    requires i <= e <= |s| && IsRule(s[i..e])
    ensures RuleLengthAt(s, i) == e - i
  {
    assert s[i..e][0] == s[i];
    RuleLengthExact(s, i, DashRun(s, i + 1));
  }

  lemma RuleFromDashes(s: String, i: nat, k: nat)
    requires i + k + 2 <= |s| && s[i] == '\n' && s[i + k + 1] == '\n' && k >= 3
    requires forall m :: i + 1 <= m < i + 1 + k ==> s[m] == '-'
    ensures IsRule(s[i..i + k + 2])
  {
    var t := s[i..i + k + 2];
    forall m | 1 <= m < |t| - 1 ensures t[m] == '-' {
      assert t[m] == s[i + m];
    }
  }

  lemma RuleLengthExact(s: String, i: nat, k: nat)
    requires i + 1 <= |s| && k == DashRun(s, i + 1)
    ensures forall e :: i <= e <= |s| && IsRule(s[i..e]) ==> k >= 3 && e == i + k + 2
  {
    forall e | i <= e <= |s| && IsRule(s[i..e])
      ensures k >= 3 && e == i + k + 2
    {
      var t := s[i..e];
      forall m | i + 1 <= m < e - 1 ensures s[m] == '-' {
        assert t[m - i] == s[m];
      }
      assert t[|t| - 1] == s[e - 1];
    }
  }

  /** The first rule the splitter finds at or after `from`. */
  function FindRule(s: String, from: nat): (r: Option<nat>)
    decreases |s| - from
    ensures r.Some? ==> from <= r.value < |s| && RuleLengthAt(s, r.value) > 0
    ensures forall j :: from <= j < |s| && (r.None? || j < r.value) ==> RuleLengthAt(s, j) == 0
  {
    if from >= |s| then None
    else if RuleLengthAt(s, from) > 0 then Some(from)
    else FindRule(s, from + 1)
  }

  /** The sections of a message together with the rules that separated them. */
  datatype Cut = Cut(sections: seq<String>, rules: seq<String>)

  /** Sections and rules glued back in order. */
  function Interleave(sections: seq<String>, rules: seq<String>): String
    requires |sections| == |rules| + 1
    decreases |rules|
  {
    if |rules| == 0 then sections[0]
    else sections[0] + rules[0] + Interleave(sections[1..], rules[1..])
  }

  /** `c` is the leftmost split of `s` at rules: gluing gives `s` back, every
      separator is a rule, and no rule begins inside a section (a section is
      read together with the newline that opens the rule after it). */
  ghost predicate IsCut(s: String, c: Cut) {
    && |c.sections| == |c.rules| + 1
    && Interleave(c.sections, c.rules) == s
    && (forall k :: 0 <= k < |c.rules| ==> IsRule(c.rules[k]) && NoRule(c.sections[k] + "\n"))
    && NoRule(c.sections[|c.rules|])
  }

  /** `content.split(/\n-{3,}\n/)`, keeping the separators as well. */
  function SplitAtRules(s: String): (c: Cut)
    decreases |s|, 1
    ensures |c.sections| == |c.rules| + 1
  {
    match FindRule(s, 0)
    case None => Cut([s], [])
    case Some(i) => SplitAfter(s, i)
  }

  /** The cut of `s` whose first rule starts at `i`. */
  function SplitAfter(s: String, i: nat): (c: Cut)
    requires i < |s| && RuleLengthAt(s, i) > 0
    decreases |s|, 0
    ensures |c.sections| == |c.rules| + 1
  {
    var n := RuleLengthAt(s, i);
    Prepend(s[..i], s[i..i + n], SplitAtRules(s[i + n..]))
  }

  /** A section and the rule after it, put in front of a cut. */
  function Prepend(p: String, r: String, rest: Cut): (c: Cut)
    ensures |c.sections| == |rest.sections| + 1 && |c.rules| == |rest.rules| + 1
    ensures c.sections[0] == p && c.sections[1..] == rest.sections
    ensures c.rules[0] == r && c.rules[1..] == rest.rules
  {
    Cut([p] + rest.sections, [r] + rest.rules)
  }

  /** The splitter produces the leftmost cut. */
  lemma {:induction false} SplitAtRulesIsCut(s: String)
    ensures IsCut(s, SplitAtRules(s))
    decreases |s|
  {
    match FindRule(s, 0)
    case None =>
      NoRuleWhenNoneFound(s, |s|);
      assert s[..|s|] == s;
    case Some(i) =>
      var n := RuleLengthAt(s, i);
      SplitAtRulesIsCut(s[i + n..]);
      SplitAtRulesStep(s, i, n);
      CutStep(s, i, SplitAtRules(s[i + n..]));
  }

  /** Every rule inside the first `k` characters would have been found. */
  lemma NoRuleWhenNoneFound(s: String, k: nat)
    requires k <= |s|
    requires forall j :: 0 <= j && j + 1 < k ==> RuleLengthAt(s, j) == 0
    ensures NoRule(s[..k])
  {
    forall a, e | 0 <= a <= e <= k
      ensures !IsRule(s[..k][a..e])
    {
      assert s[..k][a..e] == s[a..e];
      if IsRule(s[a..e]) {
        RuleLengthUnique(s, a, e);
      }
    }
  }

  lemma CutStep(s: String, i: nat, rest: Cut)
    requires FindRule(s, 0) == Some(i)
    requires IsCut(s[i + RuleLengthAt(s, i)..], rest)
    ensures IsCut(s, Prepend(s[..i], s[i..i + RuleLengthAt(s, i)], rest))
  {
    var n := RuleLengthAt(s, i);
    RuleLengthIsRule(s, i);
    FirstSectionFree(s, i);
    assert s == s[..i] + s[i..i + n] + s[i + n..];
    ConsCut(s, s[..i], s[i..i + n], s[i + n..], rest);
  }

  /** The text before the first rule, with the newline opening that rule, has no rule. */
  lemma FirstSectionFree(s: String, i: nat)
    requires FindRule(s, 0) == Some(i)
    ensures NoRule(s[..i] + "\n")
  {
    RuleLengthIsRule(s, i);
    assert s[..i] + "\n" == s[..i + 1] by {
      assert s[i..i + RuleLengthAt(s, i)][0] == s[i];
    }
    NoRuleWhenNoneFound(s, i + 1);
  }

  /** A section free of rules, a rule, then any cut: again a cut. */
  lemma ConsCut(s: String, p: String, r: String, tail: String, rest: Cut)
    requires s == p + r + tail
    requires IsRule(r) && NoRule(p + "\n") && IsCut(tail, rest)
    ensures IsCut(s, Cut([p] + rest.sections, [r] + rest.rules))
  {
    var c := Cut([p] + rest.sections, [r] + rest.rules);
    assert c.sections[1..] == rest.sections;
    assert c.rules[1..] == rest.rules;
    assert Interleave(c.sections, c.rules) == s;
    forall k | 0 < k < |c.rules|
      ensures IsRule(c.rules[k]) && NoRule(c.sections[k] + "\n")
    {
      assert c.rules[k] == rest.rules[k - 1];
      assert c.sections[k] == rest.sections[k - 1];
    }
    assert c.sections[|c.rules|] == rest.sections[|rest.rules|];
  }

  /** Dropping the first section and rule of a cut leaves a cut of the rest. */
  lemma TailCut(s: String, c: Cut)
    requires |c.rules| > 0 && IsCut(s, c)
    ensures IsCut(Interleave(c.sections[1..], c.rules[1..]), Cut(c.sections[1..], c.rules[1..]))
  {
    var rest := Cut(c.sections[1..], c.rules[1..]);
    forall k | 0 <= k < |rest.rules|
      ensures IsRule(rest.rules[k]) && NoRule(rest.sections[k] + "\n")
    {
      assert rest.rules[k] == c.rules[k + 1];
      assert rest.sections[k] == c.sections[k + 1];
    }
  }

  /** The decomposition of `IsCut` is unique, so it is exactly what the
      splitter returns. */
  lemma {:induction false} CutUnique(s: String, c: Cut)
    requires IsCut(s, c)
    ensures c == SplitAtRules(s)
    decreases |c.rules|
  {
    if |c.rules| == 0 {
      NoRuleNoneFound(s);
    } else {
      var tail := Interleave(c.sections[1..], c.rules[1..]);
      FirstPieces(s, c);
      TailCut(s, c);
      CutUnique(tail, Cut(c.sections[1..], c.rules[1..]));
      SplitAtRulesStep(s, |c.sections[0]|, |c.rules[0]|);
      Reassemble(s, c);
    }
  }

  lemma SplitAtRulesStep(s: String, i: nat, n: nat)
    requires FindRule(s, 0) == Some(i) && RuleLengthAt(s, i) == n
    ensures i + n <= |s|
    ensures SplitAtRules(s) == Prepend(s[..i], s[i..i + n], SplitAtRules(s[i + n..]))
  {
    SplitAtRulesFirst(s, i);
    SplitAfterIs(s, i, n);
  }

  lemma SplitAtRulesFirst(s: String, i: nat)
    requires FindRule(s, 0) == Some(i)
    ensures SplitAtRules(s) == SplitAfter(s, i)
  {
  }

  lemma SplitAfterIs(s: String, i: nat, n: nat)
    requires i < |s| && RuleLengthAt(s, i) == n > 0
    ensures SplitAfter(s, i) == Prepend(s[..i], s[i..i + n], SplitAtRules(s[i + n..]))
  {
  }

  lemma CutCons(c: Cut)
    requires |c.rules| > 0 && |c.sections| == |c.rules| + 1
    ensures c == Prepend(c.sections[0], c.rules[0], Cut(c.sections[1..], c.rules[1..]))
  {
    assert c.sections == [c.sections[0]] + c.sections[1..];
    assert c.rules == [c.rules[0]] + c.rules[1..];
  }

  lemma Reassemble(s: String, c: Cut)
    requires |c.rules| > 0 && |c.sections| == |c.rules| + 1
    requires var p, r := c.sections[0], c.rules[0];
             && |p| + |r| <= |s|
             && SplitAtRules(s) == Prepend(p, r, SplitAtRules(s[|p| + |r|..]))
             && Cut(c.sections[1..], c.rules[1..]) == SplitAtRules(s[|p| + |r|..])
    ensures c == SplitAtRules(s)
  {
    CutCons(c);
  }

  lemma FirstPieces(s: String, c: Cut)
    requires IsCut(s, c) && |c.rules| > 0
    ensures var p, r := c.sections[0], c.rules[0];
            && FindRule(s, 0) == Some(|p|) && RuleLengthAt(s, |p|) == |r|
            && s[..|p|] == p && s[|p|..|p| + |r|] == r
            && s[|p| + |r|..] == Interleave(c.sections[1..], c.rules[1..])
  {
    var p, r := c.sections[0], c.rules[0];
    var tail := Interleave(c.sections[1..], c.rules[1..]);
    assert s == p + r + tail;
    FirstRuleAt(s, p, r, tail);
  }

  /** A text free of rules has none for the splitter to find. */
  lemma NoRuleNoneFound(s: String)
    requires NoRule(s)
    ensures FindRule(s, 0).None?
  {
    forall j | 0 <= j < |s|
      ensures RuleLengthAt(s, j) == 0
    {
      if RuleLengthAt(s, j) > 0 {
        RuleLengthIsRule(s, j);
      }
    }
  }

  /** A rule that starts before a newline at `q` ends at that newline at the latest. */
  lemma RuleStopsAtNewline(s: String, j: nat, e: nat, q: nat)
    requires j < q < |s| && j <= e <= |s| && s[q] == '\n'
    ensures IsRule(s[j..e]) ==> e <= q + 1
  {
    assert q < e ==> s[j..e][q - j] == s[q];
  }

  /** In `p + r + tail` with `r` a rule and no rule in `p + "\n"`, the first
      rule the splitter finds is `r`. */
  lemma FirstRuleAt(s: String, p: String, r: String, tail: String)
    requires s == p + r + tail && IsRule(r) && NoRule(p + "\n")
    ensures RuleLengthAt(s, |p|) == |r|
    ensures forall j :: 0 <= j < |p| ==> RuleLengthAt(s, j) == 0
  {
    assert s[|p|..|p| + |r|] == r;
    assert s[|p|] == '\n' by { assert r[0] == s[|p|]; }
    assert s[..|p| + 1] == p + "\n";
    RuleLengthUnique(s, |p|, |p| + |r|);
    forall j | 0 <= j < |p|
      ensures RuleLengthAt(s, j) == 0
    {
      var n := RuleLengthAt(s, j);
      RuleStopsAtNewline(s, j, j + n, |p|);
      assert j + n <= |p| + 1 ==> s[j..j + n] == (p + "\n")[j..j + n];
    }
  }

  /** The sections of a message, as the parser uses them. */
  function SectionsOf(content: String): (secs: seq<String>)
    ensures |secs| >= 1
    ensures content == [] ==> secs == [[]]
    ensures forall k :: 0 <= k < |secs| ==> NoRule(secs[k])
  {
    var c := SplitAtRules(content);
    SplitAtRulesIsCut(content);
    SectionsHaveNoRule(c);
    c.sections
  }

  lemma SectionsHaveNoRule(c: Cut)
    requires |c.sections| == |c.rules| + 1
    requires forall k :: 0 <= k < |c.rules| ==> NoRule(c.sections[k] + "\n")
    requires NoRule(c.sections[|c.rules|])
    ensures forall k :: 0 <= k < |c.sections| ==> NoRule(c.sections[k])
  {
    forall k | 0 <= k < |c.rules| ensures NoRule(c.sections[k]) {
      NoRulePrefix(c.sections[k] + "\n", |c.sections[k]|);
      assert (c.sections[k] + "\n")[..|c.sections[k]|] == c.sections[k];
    }
  }

  lemma NoRulePrefix(t: String, m: nat)
    requires NoRule(t) && m <= |t|
    ensures NoRule(t[..m])
  {
    forall i, e | 0 <= i <= e <= m ensures !IsRule(t[..m][i..e]) {
      assert t[..m][i..e] == t[i..e];
    }
  }

  /** The first section is a prefix of the message. */
  lemma FirstSectionIsPrefix(content: String)
    ensures |SectionsOf(content)[0]| <= |content|
    ensures content[..|SectionsOf(content)[0]|] == SectionsOf(content)[0]
  {
    assert SectionsOf(content)[0] == SplitAtRules(content).sections[0];
    match FindRule(content, 0)
    case None =>
    case Some(i) =>
  }

  /** Whatever follows the first rule does not change the first section. */
  lemma FirstSectionIgnoresRest(p: String, r: String, tail: String)
    requires IsRule(r) && NoRule(p + "\n")
    ensures SectionsOf(p + r + tail)[0] == p
  {
    var rest := SplitAtRules(tail);
    SplitAtRulesIsCut(tail);
    ConsCut(p + r + tail, p, r, tail, rest);
    CutUnique(p + r + tail, Cut([p] + rest.sections, [r] + rest.rules));
  }

  /** A text whose only possible newline is its last character holds no rule. */
  lemma NoEarlyNewline(t: String)
    requires forall i :: 0 <= i < |t| - 1 ==> t[i] != '\n'
    ensures NoRule(t)
  {
    forall i, e | 0 <= i <= e <= |t| ensures !IsRule(t[i..e]) {
      assert e - i >= 2 ==> t[i..e][0] == t[i];
    }
  }

  /** A message made of two sections around one rule splits into exactly those. */
  lemma TwoSections(p: String, r: String, q: String)
    requires IsRule(r) && NoRule(p + "\n") && NoRule(q)
    ensures SectionsOf(p + r + q) == [p, q]
  {
    var c := Cut([p, q], [r]);
    assert Interleave(c.sections, c.rules) == p + r + q by {
      assert Interleave(c.sections[1..], c.rules[1..]) == q;
    }
    CutUnique(p + r + q, c);
  }
}
