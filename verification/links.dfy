/** Action links `[label](protocol://value)` and the bare bracket tokens
    `[..](..)` of a "Final Actions" section.

    Both patterns are lazy: JavaScript's backtracking tries the leftmost start
    first, then the shortest first group, then the shortest second group, and
    so on, and no group may contain a line terminator. Each pattern is written
    here as a predicate saying where a match with given group lengths lies,
    and as a scanner that returns the lexicographically least such match. */
module Links {
  import opened Wrappers
  import opened Text

  datatype Link = Link(text: String, protocol: String, value: String)

  /** The text of the token a link is read from. */
  function Token(k: Link): String {
    "[" + k.text + "](" + k.protocol + "://" + k.value + ")"
  }

  // ------------------------------------------------------------ `(.*?)\)`

  /** A group of `n` characters starting at `b`, free of line breaks and closed by `)`. */
  ghost predicate ClosedAt(s: String, b: nat, n: nat) {
    b + n < |s| && s[b + n] == ')' && NoLineBreak(s[b..b + n])
  }

  /** The shortest closed group starting at `b`, trying lengths from `n` up. */
  function ScanClose(s: String, b: nat, n: nat): (r: Option<nat>)
    requires b + n <= |s| && NoLineBreak(s[b..b + n])
    decreases |s| - (b + n)
    ensures r.Some? ==> n <= r.value && ClosedAt(s, b, r.value)
    ensures forall m: nat :: n <= m && (r.None? || m < r.value) ==> !ClosedAt(s, b, m)
  {
    if b + n == |s| then None
    else if s[b + n] == ')' then Some(n)
    else if IsLineTerminator(s[b + n]) then
      LineBreakBlocks(s, b, n);
      None
    else
      ExtendNoLineBreak(s, b, n);
      ScanClose(s, b, n + 1)
  }

  // ------------------------------------------------------------ links

  /** `(.*?):\/\/(.*?)\)` with groups of lengths `p` and `v`, starting at `a`. */
  ghost predicate ProtocolAt(s: String, a: nat, p: nat, v: nat) {
    && a + p + 3 <= |s|
    && s[a + p] == ':' && s[a + p + 1] == '/' && s[a + p + 2] == '/'
    && NoLineBreak(s[a..a + p])
    && ClosedAt(s, a + p + 3, v)
  }

  /** `\[(.*?)\]\(` with a group of length `l`, starting at `st`. */
  ghost predicate LabelAt(s: String, st: nat, l: nat) {
    && st + l + 3 <= |s|
    && s[st] == '[' && s[st + l + 1] == ']' && s[st + l + 2] == '('
    && NoLineBreak(s[st + 1..st + 1 + l])
  }

  /** `\[(.*?)\]\((.*?):\/\/(.*?)\)` matches at `st` with groups of lengths `l`, `p`, `v`. */
  ghost predicate LinkAt(s: String, st: nat, l: nat, p: nat, v: nat) {
    LabelAt(s, st, l) && ProtocolAt(s, st + l + 3, p, v)
  }

  function ScanProtocol(s: String, a: nat, p: nat): (r: Option<(nat, nat)>)
    requires a + p <= |s| && NoLineBreak(s[a..a + p])
    decreases |s| - (a + p)
    ensures r.Some? ==> p <= r.value.0 && ProtocolAt(s, a, r.value.0, r.value.1)
    ensures r.Some? ==> forall w: nat :: w < r.value.1 ==> !ProtocolAt(s, a, r.value.0, w)
    ensures forall q: nat, w: nat :: p <= q && (r.None? || q < r.value.0) ==> !ProtocolAt(s, a, q, w)
  {
    var q := a + p;
    if q == |s| then None
    else
      var close := if q + 3 <= |s| && s[q] == ':' && s[q + 1] == '/' && s[q + 2] == '/'
                   then ScanClose(s, q + 3, 0) else None;
      if close.Some? then Some((p, close.value))
      else if IsLineTerminator(s[q]) then
        LineBreakBlocks(s, a, p);
        None
      else
        ExtendNoLineBreak(s, a, p);
        ScanProtocol(s, a, p + 1)
  }

  function ScanLinkLabel(s: String, st: nat, l: nat): (r: Option<(nat, nat, nat)>)
    requires st < |s| && s[st] == '['
    requires st + 1 + l <= |s| && NoLineBreak(s[st + 1..st + 1 + l])
    decreases |s| - (st + 1 + l)
    ensures r.Some? ==> l <= r.value.0 && LinkAt(s, st, r.value.0, r.value.1, r.value.2)
    ensures r.Some? ==> forall q: nat, w: nat :: q < r.value.1 ==> !LinkAt(s, st, r.value.0, q, w)
    ensures r.Some? ==> forall w: nat :: w < r.value.2 ==> !LinkAt(s, st, r.value.0, r.value.1, w)
    ensures forall m: nat, q: nat, w: nat :: l <= m && (r.None? || m < r.value.0) ==> !LinkAt(s, st, m, q, w)
  {
    var q := st + 1 + l;
    if q == |s| then None
    else
      var pv := if q + 2 <= |s| && s[q] == ']' && s[q + 1] == '(' then ScanProtocol(s, q + 2, 0) else None;
      if pv.Some? then Some((l, pv.value.0, pv.value.1))
      else if IsLineTerminator(s[q]) then
        LineBreakBlocks(s, st + 1, l);
        None
      else
        ExtendNoLineBreak(s, st + 1, l);
        ScanLinkLabel(s, st, l + 1)
  }

  /** Where a link match lies: its start and the lengths of its three groups. */
  datatype LinkMatch = LinkMatch(start: nat, labelLen: nat, protocolLen: nat, valueLen: nat)

  ghost predicate IsMatch(s: String, m: LinkMatch) {
    LinkAt(s, m.start, m.labelLen, m.protocolLen, m.valueLen)
  }

  /** `m` is the match the regular expression reports: the least in the order
      (start, label length, protocol length, value length). */
  ghost predicate IsFirstLink(s: String, m: LinkMatch) {
    && IsMatch(s, m)
    && (forall st: nat, l: nat, p: nat, v: nat :: st < m.start ==> !LinkAt(s, st, l, p, v))
    && (forall l: nat, p: nat, v: nat :: l < m.labelLen ==> !LinkAt(s, m.start, l, p, v))
    && (forall p: nat, v: nat :: p < m.protocolLen ==> !LinkAt(s, m.start, m.labelLen, p, v))
    && (forall v: nat :: v < m.valueLen ==> !LinkAt(s, m.start, m.labelLen, m.protocolLen, v))
  }

  ghost predicate HasLink(s: String) {
    exists st: nat, l: nat, p: nat, v: nat :: LinkAt(s, st, l, p, v)
  }

  function FindLinkFrom(s: String, from: nat): (r: Option<LinkMatch>)
    decreases |s| - from
    ensures r.Some? ==> from <= r.value.start && IsMatch(s, r.value)
    ensures r.Some? ==> forall l: nat, p: nat, v: nat :: l < r.value.labelLen ==> !LinkAt(s, r.value.start, l, p, v)
    ensures r.Some? ==> forall p: nat, v: nat :: p < r.value.protocolLen ==> !LinkAt(s, r.value.start, r.value.labelLen, p, v)
    ensures r.Some? ==> forall v: nat :: v < r.value.valueLen ==> !LinkAt(s, r.value.start, r.value.labelLen, r.value.protocolLen, v)
    ensures forall st: nat, l: nat, p: nat, v: nat :: from <= st && (r.None? || st < r.value.start) ==> !LinkAt(s, st, l, p, v)
  {
    if from >= |s| then None
    else
      var found := if s[from] == '[' then ScanLinkLabel(s, from, 0) else None;
      if found.Some? then Some(LinkMatch(from, found.value.0, found.value.1, found.value.2))
      else FindLinkFrom(s, from + 1)
  }

  /** The link a match denotes. */
  function LinkOf(s: String, m: LinkMatch): Link
    requires IsMatch(s, m)
  {
    var a := m.start + m.labelLen + 3;
    var b := a + m.protocolLen + 3;
    Link(s[m.start + 1..m.start + 1 + m.labelLen], s[a..a + m.protocolLen], s[b..b + m.valueLen])
  }

  /** The text of a match is the token of the link it denotes. */
  lemma MatchIsToken(s: String, m: LinkMatch)
    requires IsMatch(s, m)
    ensures var n := m.labelLen + m.protocolLen + m.valueLen + 7;
            m.start + n <= |s| && s[m.start..m.start + n] == Token(LinkOf(s, m))
  {
    var st, l, p, v := m.start, m.labelLen, m.protocolLen, m.valueLen;
    var a := st + l + 3;
    var b := a + p + 3;
    var k := LinkOf(s, m);
    var t1 := s[st..st + 1 + l];
    SliceSplit(s, st, st + 1, st + 1 + l);
    assert t1 == "[" + k.text;
    var t2 := s[st..a];
    SliceSplit(s, st, st + 1 + l, a);
    assert t2 == t1 + "](";
    var t3 := s[st..a + p];
    SliceSplit(s, st, a, a + p);
    assert t3 == t2 + k.protocol;
    var t4 := s[st..b];
    SliceSplit(s, st, a + p, b);
    assert t4 == t3 + "://";
    var t5 := s[st..b + v];
    SliceSplit(s, st, b, b + v);
    assert t5 == t4 + k.value;
    var t6 := s[st..b + v + 1];
    SliceSplit(s, st, b + v, b + v + 1);
    assert t6 == t5 + ")";
  }

  /** `parseLink`: the first action link in `s`, if any. */
  function ParseLink(s: String): (r: Option<Link>)
    ensures r.None? <==> !HasLink(s)
    ensures r.Some? ==> NoLineBreak(r.value.text) && NoLineBreak(r.value.protocol) && NoLineBreak(r.value.value)
    ensures r.Some? ==> forall i :: 0 <= i < |r.value.value| ==> r.value.value[i] != ')'
    ensures r.Some? ==> Occurs(s, Token(r.value))
    ensures forall m :: IsFirstLink(s, m) ==> r == Some(LinkOf(s, m))
  {
    FindLinkIsFirst(s);
    var found := FindLinkFrom(s, 0);
    if found.None? then None
    else
      var m := found.value;
      LinkFacts(s, m);
      Some(LinkOf(s, m))
  }

  lemma LinkFacts(s: String, m: LinkMatch)
    requires IsMatch(s, m)
    requires forall v: nat :: v < m.valueLen ==> !LinkAt(s, m.start, m.labelLen, m.protocolLen, v)
    ensures var k := LinkOf(s, m);
            && NoLineBreak(k.text) && NoLineBreak(k.protocol) && NoLineBreak(k.value)
            && (forall i :: 0 <= i < |k.value| ==> k.value[i] != ')')
            && Occurs(s, Token(k))
  {
    var k := LinkOf(s, m);
    var b := m.start + m.labelLen + m.protocolLen + 6;
    forall i | 0 <= i < |k.value| ensures k.value[i] != ')' {
      assert k.value[i] == s[b + i];
      assert NoLineBreak(s[b..b + i]) by {
        assert s[b..b + i] == k.value[..i];
      }
      assert !LinkAt(s, m.start, m.labelLen, m.protocolLen, i);
    }
    MatchIsToken(s, m);
    assert OccursAt(s, Token(k), m.start);
  }

  /** The scanner's match is the one the regular expression semantics
      describes, and that one is unique. */
  lemma FindLinkIsFirst(s: String)
    ensures FindLinkFrom(s, 0).Some? ==> IsFirstLink(s, FindLinkFrom(s, 0).value)
    ensures forall m :: IsFirstLink(s, m) ==> FindLinkFrom(s, 0) == Some(m)
  {
    var r := FindLinkFrom(s, 0);
    forall m | IsFirstLink(s, m) ensures r == Some(m) {
      assert r.Some?;
      var n := r.value;
      assert n.start == m.start;
      assert n.labelLen == m.labelLen;
      assert n.protocolLen == m.protocolLen;
      assert n.valueLen == m.valueLen;
    }
  }

  /** The links whose token reads back as themselves: no line break in any
      field, no `](` ending the text early, no `://` ending the protocol early,
      and no `)` in the value. */
  ghost predicate Readable(k: Link) {
    && NoLineBreak(k.text) && NoLineBreak(k.protocol) && NoLineBreak(k.value)
    && (forall q: nat :: q < |k.text| ==> !OccursAt(k.text + "](", "](", q))
    && (forall q: nat :: q < |k.protocol| ==> !OccursAt(k.protocol + "://", "://", q))
    && (forall i :: 0 <= i < |k.value| ==> k.value[i] != ')')
  }

  /** Writing a readable link as a token and parsing it gives the link back. */
  lemma TokenRoundTrip(k: Link)
    requires Readable(k)
    ensures ParseLink(Token(k)) == Some(k)
  {
    var t := Token(k);
    var m := LinkMatch(0, |k.text|, |k.protocol|, |k.value|);
    TokenLayout(k);
    TokenFirst(k);
    FindLinkIsFirst(t);
    assert LinkOf(t, m) == k;
  }

  /** Where the fields of a token lie. */
  lemma TokenLayout(k: Link)
    ensures var t, L, P, V := Token(k), |k.text|, |k.protocol|, |k.value|;
            && |t| == L + P + V + 7
            && t[0] == '[' && t[1..L + 3] == k.text + "](" && t[L + 3..L + P + 6] == k.protocol + "://"
            && t[L + P + 6..L + P + 6 + V] == k.value && t[L + P + 6 + V] == ')'
            && t[1..1 + L] == k.text && t[L + 3..L + 3 + P] == k.protocol
  {
  }

  lemma TokenFirst(k: Link)
    requires Readable(k)
    ensures IsFirstLink(Token(k), LinkMatch(0, |k.text|, |k.protocol|, |k.value|))
  {
    TokenLayout(k);
    TokenLabelFirst(k);
    TokenProtocolFirst(k);
    TokenValueFirst(k);
  }

  lemma TokenLabelFirst(k: Link)
    requires Readable(k)
    ensures forall l: nat, p: nat, v: nat :: l < |k.text| ==> !LinkAt(Token(k), 0, l, p, v)
  {
    var t, L := Token(k), |k.text|;
    TokenLayout(k);
    forall l: nat, p: nat, v: nat | l < L ensures !LinkAt(t, 0, l, p, v) {
      assert t[1..L + 3][l..l + 2] == [t[l + 1], t[l + 2]];
      assert !OccursAt(k.text + "](", "](", l);
    }
  }

  lemma TokenProtocolFirst(k: Link)
    requires Readable(k)
    ensures forall p: nat, v: nat :: p < |k.protocol| ==> !LinkAt(Token(k), 0, |k.text|, p, v)
  {
    var t, L, P := Token(k), |k.text|, |k.protocol|;
    TokenLayout(k);
    forall p: nat, v: nat | p < P ensures !LinkAt(t, 0, L, p, v) {
      assert t[L + 3..L + P + 6][p..p + 3] == [t[L + 3 + p], t[L + 4 + p], t[L + 5 + p]];
      assert !OccursAt(k.protocol + "://", "://", p);
    }
  }

  lemma TokenValueFirst(k: Link)
    requires Readable(k)
    ensures forall v: nat :: v < |k.value| ==> !LinkAt(Token(k), 0, |k.text|, |k.protocol|, v)
  {
    var t, L, P, V := Token(k), |k.text|, |k.protocol|, |k.value|;
    TokenLayout(k);
    forall v: nat | v < V ensures !LinkAt(t, 0, L, P, v) {
      assert t[L + P + 6 + v] == t[L + P + 6..L + P + 6 + V][v];
    }
  }

  // ------------------------------------------------------------ bracket tokens

  /** `\[.*?\]\(.*?\)` matches at `p` with groups of lengths `l` and `r`. */
  ghost predicate BracketAt(s: String, p: nat, l: nat, r: nat) {
    LabelAt(s, p, l) && ClosedAt(s, p + l + 3, r)
  }

  function ScanBracketLabel(s: String, p: nat, l: nat): (r: Option<(nat, nat)>)
    requires p < |s| && s[p] == '['
    requires p + 1 + l <= |s| && NoLineBreak(s[p + 1..p + 1 + l])
    decreases |s| - (p + 1 + l)
    ensures r.Some? ==> l <= r.value.0 && BracketAt(s, p, r.value.0, r.value.1)
    ensures r.Some? ==> forall w: nat :: w < r.value.1 ==> !BracketAt(s, p, r.value.0, w)
    ensures forall m: nat, w: nat :: l <= m && (r.None? || m < r.value.0) ==> !BracketAt(s, p, m, w)
  {
    var q := p + 1 + l;
    if q == |s| then None
    else
      var close := if q + 2 <= |s| && s[q] == ']' && s[q + 1] == '(' then ScanClose(s, q + 2, 0) else None;
      if close.Some? then Some((l, close.value))
      else if IsLineTerminator(s[q]) then
        LineBreakBlocks(s, p + 1, l);
        None
      else
        ExtendNoLineBreak(s, p + 1, l);
        ScanBracketLabel(s, p, l + 1)
  }

  /** Where a bracket token lies: its start and the lengths of its two groups. */
  datatype BracketMatch = BracketMatch(start: nat, labelLen: nat, targetLen: nat)

  /** Just past the closing `)`. */
  function End(m: BracketMatch): nat {
    m.start + m.labelLen + m.targetLen + 4
  }

  ghost predicate IsBracket(s: String, m: BracketMatch) {
    BracketAt(s, m.start, m.labelLen, m.targetLen)
  }

  /** The groups of `m` are the shortest a token starting where `m` starts can have. */
  ghost predicate IsLazyBracket(s: String, m: BracketMatch) {
    && IsBracket(s, m)
    && (forall l: nat, r: nat :: l < m.labelLen ==> !BracketAt(s, m.start, l, r))
    && (forall r: nat :: r < m.targetLen ==> !BracketAt(s, m.start, m.labelLen, r))
  }

  /** No bracket token starts at or after `from`. */
  ghost predicate NoBracketFrom(s: String, from: nat) {
    forall p: nat, l: nat, r: nat :: from <= p ==> !BracketAt(s, p, l, r)
  }

  /** `m` is the match a search from `from` reports. */
  ghost predicate IsFirstBracketFrom(s: String, from: nat, m: BracketMatch) {
    && from <= m.start
    && IsLazyBracket(s, m)
    && forall p: nat, l: nat, r: nat :: from <= p < m.start ==> !BracketAt(s, p, l, r)
  }

  function FindBracketFrom(s: String, from: nat): (r: Option<BracketMatch>)
    decreases |s| - from
    ensures r.Some? ==> IsFirstBracketFrom(s, from, r.value) && End(r.value) <= |s|
    ensures r.None? ==> NoBracketFrom(s, from)
  {
    if from >= |s| then None
    else
      var found := if s[from] == '[' then ScanBracketLabel(s, from, 0) else None;
      if found.Some? then Some(BracketMatch(from, found.value.0, found.value.1))
      else FindBracketFrom(s, from + 1)
  }

  /** All tokens of a global match, searching from `from`: after each match
      the search resumes just past it. */
  function BracketsFrom(s: String, from: nat): (ms: seq<BracketMatch>)
    decreases |s| - from
    ensures forall k :: 0 <= k < |ms| ==> from <= ms[k].start && End(ms[k]) <= |s|
  {
    match FindBracketFrom(s, from)
    case None => []
    case Some(m) => [m] + BracketsFrom(s, End(m))
  }

  /** `ms` lists the successive matches of the global search from `from`:
      its head is the first match from `from`, its tail the matches from just
      past the head, and after the last one nothing more is found. */
  ghost predicate IsBracketScan(s: String, from: nat, ms: seq<BracketMatch>)
    decreases |ms|
  {
    if ms == [] then NoBracketFrom(s, from)
    else IsFirstBracketFrom(s, from, ms[0]) && IsBracketScan(s, End(ms[0]), ms[1..])
  }

  /** The global search reports exactly the successive leftmost matches. */
  lemma {:induction false} BracketsFromIsScan(s: String, from: nat)
    ensures IsBracketScan(s, from, BracketsFrom(s, from))
    decreases |s| - from
  {
    match FindBracketFrom(s, from)
    case None =>
    case Some(m) =>
      BracketsFromIsScan(s, End(m));
      assert BracketsFrom(s, from)[1..] == BracketsFrom(s, End(m));
  }

  /** Every match of a scan is a leftmost, laziest token. */
  lemma {:induction false} ScanMembers(s: String, from: nat, ms: seq<BracketMatch>, i: nat)
    requires IsBracketScan(s, from, ms) && i < |ms|
    ensures IsLazyBracket(s, ms[i]) && End(ms[i]) <= |s|
    decreases i
  {
    if i > 0 {
      ScanMembers(s, End(ms[0]), ms[1..], i - 1);
      assert ms[1..][i - 1] == ms[i];
    } else {
      assert IsFirstBracketFrom(s, from, ms[0]);
    }
  }

  /** There is only one first match from a given position. */
  lemma FirstBracketUnique(s: String, from: nat, m: BracketMatch)
    requires IsFirstBracketFrom(s, from, m)
    ensures FindBracketFrom(s, from) == Some(m)
  {
    var f := FindBracketFrom(s, from);
    assert BracketAt(s, m.start, m.labelLen, m.targetLen);
    assert f.Some?;
    var n := f.value;
    assert BracketAt(s, n.start, n.labelLen, n.targetLen);
    assert n.start == m.start;
    assert n.labelLen == m.labelLen;
    assert n.targetLen == m.targetLen;
  }

  /** Where no token starts, the search finds none. */
  lemma NothingFound(s: String, from: nat)
    ensures NoBracketFrom(s, from) ==> FindBracketFrom(s, from).None?
  {
    var f := FindBracketFrom(s, from);
    if f.Some? {
      assert BracketAt(s, f.value.start, f.value.labelLen, f.value.targetLen);
    }
  }

  /** Conversely, any list of successive leftmost matches is the global match. */
  lemma {:induction false} BracketScanUnique(s: String, from: nat, ms: seq<BracketMatch>)
    requires IsBracketScan(s, from, ms)
    ensures ms == BracketsFrom(s, from)
    decreases |ms|
  {
    if ms == [] {
      NothingFound(s, from);
    } else {
      FirstBracketUnique(s, from, ms[0]);
      BracketScanUnique(s, End(ms[0]), ms[1..]);
    }
  }

  /** A global match finds nothing exactly when no token occurs at all. */
  lemma BracketsEmpty(s: String)
    ensures BracketsFrom(s, 0) == [] <==> NoBracketFrom(s, 0)
  {
    match FindBracketFrom(s, 0)
    case None =>
    case Some(m) =>
  }

  /** The text of a token. */
  function TokenText(s: String, m: BracketMatch): String
    requires End(m) <= |s|
  {
    s[m.start..End(m)]
  }

  /** The text between the parentheses of a token. */
  function TargetText(s: String, m: BracketMatch): String
    requires End(m) <= |s|
  {
    s[m.start + m.labelLen + 3..m.start + m.labelLen + 3 + m.targetLen]
  }

  /** The text between the brackets of a token. */
  function LabelText(s: String, m: BracketMatch): String
    requires End(m) <= |s|
  {
    s[m.start + 1..m.start + 1 + m.labelLen]
  }

  /** What laziness tells about a token `t` whose label has length `l`:
      the label holds no `](` and the target no `)`. */
  ghost predicate TokenShape(t: String, l: nat) {
    && |t| >= l + 4
    && t[0] == '[' && t[l + 1] == ']' && t[l + 2] == '(' && t[|t| - 1] == ')'
    && NoLineBreak(t[1..l + 1]) && NoLineBreak(t[l + 3..|t| - 1])
    && (forall q :: 1 <= q <= l ==> !(t[q] == ']' && t[q + 1] == '('))
    && (forall q :: l + 3 <= q < |t| - 1 ==> t[q] != ')')
  }

  lemma LazyTokenShape(s: String, m: BracketMatch)
    requires IsLazyBracket(s, m)
    ensures End(m) <= |s| && TokenShape(TokenText(s, m), m.labelLen)
  {
    var p, l, r := m.start, m.labelLen, m.targetLen;
    var t := TokenText(s, m);
    SliceOfSlice(s, p, End(m), 1, l + 1);
    SliceOfSlice(s, p, End(m), l + 3, |t| - 1);
    forall q | 1 <= q <= l ensures !(t[q] == ']' && t[q + 1] == '(') {
      if q < l && t[q] == ']' && t[q + 1] == '(' {
        ShorterLabelCloses(s, m, q - 1);
      }
    }
    forall q | l + 3 <= q < |t| - 1 ensures t[q] != ')' {
      var w: nat := q - (l + 3);
      assert s[p + l + 3..p + l + 3 + w] == s[p + l + 3..p + l + 3 + r][..w];
      assert NoLineBreak(s[p + l + 3..p + l + 3 + w]);
      assert !BracketAt(s, p, l, w);
      assert t[q] == s[p + l + 3 + w];
    }
  }

  /** A shorter label followed by `](` would already close at the token's `)`. */
  lemma ShorterLabelCloses(s: String, m: BracketMatch, l': nat)
    requires IsBracket(s, m) && l' < m.labelLen
    requires s[m.start + l' + 1] == ']' && s[m.start + l' + 2] == '('
    ensures BracketAt(s, m.start, l', m.labelLen + m.targetLen - l')
  {
    var p, l, r := m.start, m.labelLen, m.targetLen;
    assert s[p + 1..p + 1 + l'] == s[p + 1..p + 1 + l][..l'];
    var g := s[p + l' + 3..p + l + 3 + r];
    forall i | 0 <= i < |g| ensures !IsLineTerminator(g[i]) {
      var j := p + l' + 3 + i;
      assert g[i] == s[j];
      if j < p + l + 1 {
        assert s[j] == s[p + 1..p + 1 + l][j - (p + 1)];
      } else if j >= p + l + 3 {
        assert s[j] == s[p + l + 3..p + l + 3 + r][j - (p + l + 3)];
      } else {
        assert s[j] == ']' || s[j] == '(';
      }
    }
  }

  /** Reading a token with `parseLink`: it yields a link exactly when the
      target contains `://`, and then the link spells out the whole token
      with the token's label as its text. */
  lemma TokenLink(s: String, m: BracketMatch)
    requires IsLazyBracket(s, m)
    ensures End(m) <= |s|
    ensures ParseLink(TokenText(s, m)).Some? <==> Occurs(TargetText(s, m), "://")
    ensures ParseLink(TokenText(s, m)).Some? ==>
              && Token(ParseLink(TokenText(s, m)).value) == TokenText(s, m)
              && ParseLink(TokenText(s, m)).value.text == LabelText(s, m)
  {
    LazyTokenShape(s, m);
    var t := TokenText(s, m);
    var l := m.labelLen;
    SliceOfSlice(s, m.start, End(m), l + 3, |t| - 1);
    SliceOfSlice(s, m.start, End(m), 1, l + 1);
    assert TargetText(s, m) == t[l + 3..|t| - 1];
    assert LabelText(s, m) == t[1..l + 1];
    ShapeLink(t, l);
  }

  lemma ShapeLink(t: String, l: nat)
    requires TokenShape(t, l)
    ensures ParseLink(t).Some? <==> Occurs(t[l + 3..|t| - 1], "://")
    ensures ParseLink(t).Some? ==> Token(ParseLink(t).value) == t && ParseLink(t).value.text == t[1..l + 1]
  {
    var target := t[l + 3..|t| - 1];
    if Occurs(target, "://") {
      var k: nat :| OccursAt(target, "://", k);
      ShapeLinkSome(t, l, k);
    } else {
      ShapeLinkNone(t, l);
    }
  }

  lemma ShapeLinkSome(t: String, l: nat, k: nat)
    requires TokenShape(t, l) && OccursAt(t[l + 3..|t| - 1], "://", k)
    ensures ParseLink(t).Some?
    ensures Token(ParseLink(t).value) == t && ParseLink(t).value.text == t[1..l + 1]
  {
    TargetLink(t, l, k);
    var m := FindLinkFrom(t, 0).value;
    LinkInShape(t, l, m);
    assert m.start == 0;
    assert m.labelLen == l;
    MatchIsToken(t, m);
    assert t[0..|t|] == t;
  }

  lemma ShapeLinkNone(t: String, l: nat)
    requires TokenShape(t, l) && !Occurs(t[l + 3..|t| - 1], "://")
    ensures !HasLink(t)
  {
    forall st: nat, l2: nat, p: nat, v: nat
      ensures !LinkAt(t, st, l2, p, v)
    {
      LinkTargetColons(t, l, LinkMatch(st, l2, p, v));
    }
  }

  /** The `://` of any link inside a token lies in the token's target. */
  lemma LinkTargetColons(t: String, l: nat, m: LinkMatch)
    requires TokenShape(t, l)
    ensures IsMatch(t, m) ==> OccursAt(t[l + 3..|t| - 1], "://", m.start + m.labelLen + m.protocolLen + 3 - (l + 3))
  {
    if IsMatch(t, m) {
      LinkInShape(t, l, m);
      var c := m.start + m.labelLen + m.protocolLen + 3;
      SliceOfSlice(t, l + 3, |t| - 1, c - (l + 3), c - (l + 3) + 3);
      assert t[c..c + 3] == "://";
    }
  }

  /** A `://` in the target gives a link that starts at the token's `[`. */
  lemma TargetLink(t: String, l: nat, k: nat)
    requires TokenShape(t, l) && OccursAt(t[l + 3..|t| - 1], "://", k)
    ensures LinkAt(t, 0, l, k, |t| - 1 - (l + 3 + k + 3))
  {
    var target := t[l + 3..|t| - 1];
    assert target[k..k + 3] == "://";
    assert t[l + 3 + k] == target[k];
    assert t[l + 3 + k + 1] == target[k + 1];
    assert t[l + 3 + k + 2] == target[k + 2];
    assert t[l + 3..l + 3 + k] == target[..k];
    assert t[l + 3 + k + 3..|t| - 1] == target[k + 3..];
  }

  /** Any link inside a token uses the token's own `](` and closing `)`, so
      its `://` lies in the target. */
  lemma LinkInShape(t: String, l: nat, m: LinkMatch)
    requires TokenShape(t, l) && IsMatch(t, m)
    ensures m.start + m.labelLen >= l
    ensures m.start + m.labelLen + m.protocolLen + m.valueLen + 7 == |t|
    ensures m.start + m.labelLen + m.protocolLen + 3 >= l + 3
  {
    var q := m.start + m.labelLen + 1;
    assert t[q] == ']' && t[q + 1] == '(';
    assert q >= l + 1;
    var e := m.start + m.labelLen + m.protocolLen + m.valueLen + 6;
    assert t[e] == ')';
  }
}
