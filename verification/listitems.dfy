/** `parseListItems`: reading the bulleted entries of an accommodation or guide
    section. Each entry follows a `\n- ` marker; its title is the first bold
    `**…:**` label, its description the text before the first `[` once that
    label is removed, and its action the first Markdown link on the line. */
module ListItems {
  import opened Wrappers
  import opened Text
  import Links

  /** What separates the entries of a section. */
  const Bullet: String := "\n- "

  /** What the title pattern reports when a line has no bold label. */
  const UnknownTitle: String := "Unknown"

  datatype Entry = Entry(title: String, description: String, action: Option<Links.Link>)

  // ------------------------------------------------------------ `\*\*(.*?):\*\*`

  /** The title pattern matches at `st` with a group of `n` characters. */
  ghost predicate TitleAt(s: String, st: nat, n: nat) {
    st + 2 <= |s| && s[st] == '*' && s[st + 1] == '*' && TitleClosesAt(s, st, n)
  }

  /** After the opening `**` at `st`, `n` characters free of line breaks and then `:**`. */
  ghost predicate TitleClosesAt(s: String, st: nat, n: nat) {
    && st + n + 5 <= |s|
    && NoLineBreak(s[st + 2..st + 2 + n])
    && s[st + n + 2] == ':' && s[st + n + 3] == '*' && s[st + n + 4] == '*'
  }

  ghost predicate HasTitle(s: String) {
    exists st: nat, n: nat :: TitleAt(s, st, n)
  }

  /** The match `exec` reports: the leftmost start, then the shortest group. */
  ghost predicate IsFirstTitle(s: String, st: nat, n: nat) {
    && TitleAt(s, st, n)
    && (forall w: nat :: w < n ==> !TitleAt(s, st, w))
    && (forall p: nat, w: nat :: p < st ==> !TitleAt(s, p, w))
  }

  /** The shortest group at `st`, trying lengths from `n` up. */
  function ScanTitle(s: String, st: nat, n: nat): (r: Option<nat>)
    requires st + 2 + n <= |s| && NoLineBreak(s[st + 2..st + 2 + n])
    decreases |s| - (st + 2 + n)
    ensures r.Some? ==> n <= r.value && TitleClosesAt(s, st, r.value)
    ensures forall w: nat :: n <= w && (r.None? || w < r.value) ==> !TitleClosesAt(s, st, w)
  {
    var q := st + 2 + n;
    if q + 3 <= |s| && s[q] == ':' && s[q + 1] == '*' && s[q + 2] == '*' then Some(n)
    else if q == |s| then None
    else if IsLineTerminator(s[q]) then
      LineBreakBlocks(s, st + 2, n);
      None
    else
      ExtendNoLineBreak(s, st + 2, n);
      ScanTitle(s, st, n + 1)
  }

  /** The first match of the title pattern at or after `from`. */
  function FindTitleFrom(s: String, from: nat): (r: Option<(nat, nat)>)
    decreases |s| - from
    ensures r.Some? ==> from <= r.value.0 && TitleAt(s, r.value.0, r.value.1)
    ensures r.Some? ==> forall w: nat :: w < r.value.1 ==> !TitleAt(s, r.value.0, w)
    ensures forall p: nat, w: nat :: from <= p && (r.None? || p < r.value.0) ==> !TitleAt(s, p, w)
  {
    if from + 2 > |s| then None
    else
      var found := if s[from] == '*' && s[from + 1] == '*' then ScanTitle(s, from, 0) else None;
      if found.Some? then Some((from, found.value))
      else FindTitleFrom(s, from + 1)
  }

  /** `exec` reports exactly the leftmost, laziest match, and none when there is none. */
  lemma FindTitleIsFirst(s: String)
    ensures FindTitleFrom(s, 0).None? <==> !HasTitle(s)
    ensures forall st: nat, n: nat :: IsFirstTitle(s, st, n) <==> FindTitleFrom(s, 0) == Some((st, n))
  {
    var r := FindTitleFrom(s, 0);
    if r.Some? {
      var st, n := r.value.0, r.value.1;
      assert IsFirstTitle(s, st, n);
      forall st': nat, n': nat | IsFirstTitle(s, st', n')
        ensures st' == st && n' == n
      {
        assert !(st' < st) && !(st < st');
        assert !(n' < n) && !(n < n');
      }
    }
  }

  // ------------------------------------------------------------ description

  /** Position `j` is where `s.split('[')[0]` ends: the first `[`, or the end. */
  ghost predicate FirstBracketAt(s: String, j: nat) {
    && j <= |s|
    && (j < |s| ==> s[j] == '[')
    && (forall i :: 0 <= i < j ==> s[i] != '[')
  }

  lemma FirstBracketUnique(s: String, j: nat, j': nat)
    requires FirstBracketAt(s, j) && FirstBracketAt(s, j')
    ensures j == j'
  {
  }

  /** `d` is the trimmed text of `s` before its first `[`. */
  ghost predicate IsDescriptionOf(s: String, d: String) {
    exists j: nat :: FirstBracketAt(s, j) && d == Trim(s[..j])
  }

  lemma SplitBracketHead(s: String, j: nat)
    requires FirstBracketAt(s, j)
    ensures Split(s, "[")[0] == s[..j]
  {
    assert j < |s| ==> s[j..j + 1] == "[";
    assert j < |s| ==> OccursAt(s, "[", j);
    var r := IndexOf(s, "[", 0);
    if r.Some? {
      var i := r.value;
      assert s[i..i + 1][0] == s[i];
      assert i == j;
      assert Split(s, "[") == [s[..i]] + Split(s[i + 1..], "[");
    } else {
      assert j == |s|;
      assert Split(s, "[") == [s];
      assert s[..|s|] == s;
    }
  }

  /** `text.split('[')[0].trim()`. */
  function Describe(s: String): (d: String)
    ensures IsDescriptionOf(s, d)
    ensures IsTrimmed(d) && forall i :: 0 <= i < |d| ==> d[i] != '['
  {
    var head := Split(s, "[")[0];
    var j := |head|;
    SplitPartsFree(s, "[", 0);
    assert Join(Split(s, "["), "[")[..j] == head;
    HeadIsPrefix(s);
    assert FirstBracketAt(s, j) by {
      forall i | 0 <= i < j ensures s[i] != '[' {
        assert !OccursAt(head, "[", i);
        assert head[i..i + 1] == [head[i]];
      }
    }
    SplitBracketHead(s, j);
    var d := Trim(head);
    TrimInside(head, d);
    d
  }

  /** The first part of a split is a prefix of the text, followed by the separator if anything follows. */
  lemma HeadIsPrefix(s: String)
    ensures |Split(s, "[")[0]| <= |s| && s[..|Split(s, "[")[0]|] == Split(s, "[")[0]
    ensures |Split(s, "[")[0]| < |s| ==> s[|Split(s, "[")[0]|] == '['
  {
    match IndexOf(s, "[", 0)
    case None =>
    case Some(i) =>
      assert s[i..i + 1] == "[";
  }

  /** Trimming keeps only characters of the trimmed text. */
  lemma TrimInside(s: String, d: String)
    requires d == Trim(s) && forall i :: 0 <= i < |s| ==> s[i] != '['
    ensures forall i :: 0 <= i < |d| ==> d[i] != '['
  {
    var i, j :| 0 <= i <= j <= |s| && d == s[i..j];
    forall k | 0 <= k < |d| ensures d[k] != '[' {
      assert d[k] == s[i + k];
    }
  }

  // ------------------------------------------------------------ entries

  /** The line with its first title match (the whole `**…:**`) deleted. */
  function RemoveTitle(line: String, st: nat, n: nat): String
    requires st + n + 5 <= |line|
  {
    line[..st] + line[st + n + 5..]
  }

  /** One entry, read from the text that follows its bullet. */
  function ParseEntry(line: String): (e: Entry)
    ensures IsTrimmed(e.description) && forall i :: 0 <= i < |e.description| ==> e.description[i] != '['
    ensures e.action == Links.ParseLink(line)
  {
    Entry(TitleOf(line), Describe(WithoutTitle(line)), Links.ParseLink(line))
  }

  /** The group of the line's first title match, or `Unknown`. */
  function TitleOf(line: String): String {
    match FindTitleFrom(line, 0)
    case None => UnknownTitle
    case Some((st, n)) => line[st + 2..st + 2 + n]
  }

  /** The line with its first title match deleted, if it has one. */
  function WithoutTitle(line: String): String {
    match FindTitleFrom(line, 0)
    case None => line
    case Some((st, n)) => RemoveTitle(line, st, n)
  }

  /** The title is the group of the first bold label, or `Unknown` when there is
      none; the description is what precedes the first `[` once that label is
      deleted from the line (the whole line when there is no label). */
  lemma EntryParts(line: String)
    ensures !HasTitle(line) ==>
              ParseEntry(line).title == UnknownTitle && IsDescriptionOf(line, ParseEntry(line).description)
    ensures forall st: nat, n: nat :: IsFirstTitle(line, st, n) ==>
              && ParseEntry(line).title == line[st + 2..st + 2 + n]
              && IsDescriptionOf(RemoveTitle(line, st, n), ParseEntry(line).description)
    ensures NoLineBreak(ParseEntry(line).title)
  {
    if !HasTitle(line) {
      NoTitleParts(line);
    }
    forall st: nat, n: nat | IsFirstTitle(line, st, n)
      ensures ParseEntry(line).title == line[st + 2..st + 2 + n]
      ensures IsDescriptionOf(RemoveTitle(line, st, n), ParseEntry(line).description)
    {
      FirstTitleParts(line, st, n);
    }
    TitleHasNoLineBreak(line);
  }

  lemma NoTitleParts(line: String)
    requires !HasTitle(line)
    ensures TitleOf(line) == UnknownTitle && WithoutTitle(line) == line
  {
    FindTitleIsFirst(line);
  }

  lemma FirstTitleParts(line: String, st: nat, n: nat)
    requires IsFirstTitle(line, st, n)
    ensures st + n + 5 <= |line|
    ensures TitleOf(line) == line[st + 2..st + 2 + n] && WithoutTitle(line) == RemoveTitle(line, st, n)
  {
    FindTitleIsFirst(line);
  }

  lemma TitleHasNoLineBreak(line: String)
    ensures NoLineBreak(TitleOf(line))
  {
    match FindTitleFrom(line, 0)
    case None =>
    case Some((st, n)) =>
  }

  /** The usual shape of an entry, `**Name:** description [Label](proto://value)`,
      is read into its parts: the bold name, the trimmed description, and the link. */
  lemma {:induction false} TypicalEntry(name: String, desc: String, rest: String)
    requires NoLineBreak(name) && forall j: nat :: j < |name| ==> !OccursAt(name + ":**", ":**", j)
    requires forall i :: 0 <= i < |desc| ==> desc[i] != '['
    requires rest == [] || rest[0] == '['
    ensures ParseEntry("**" + name + ":**" + desc + rest)
         == Entry(name, Trim(desc), Links.ParseLink("**" + name + ":**" + desc + rest))
  {
    var line := "**" + name + ":**" + desc + rest;
    var n := |name|;
    var u := name + ":**";
    assert line[2..2 + n] == name;
    assert line[2..n + 5] == u;
    assert TitleAt(line, 0, n);
    forall w: nat | w < n ensures !TitleAt(line, 0, w) {
      assert u[w..w + 3] == [line[w + 2], line[w + 3], line[w + 4]];
      assert !OccursAt(u, ":**", w);
    }
    assert IsFirstTitle(line, 0, n);
    assert RemoveTitle(line, 0, n) == desc + rest;
    EntryParts(line);
    var e := ParseEntry(line);
    assert FirstBracketAt(desc + rest, |desc|);
    assert (desc + rest)[..|desc|] == desc;
    DescriptionUnique(desc + rest, e.description, |desc|);
  }

  /** There is only one description of a text. */
  lemma DescriptionUnique(s: String, d: String, j: nat)
    requires IsDescriptionOf(s, d) && FirstBracketAt(s, j)
    ensures d == Trim(s[..j])
  {
    var j': nat :| FirstBracketAt(s, j') && d == Trim(s[..j']);
    FirstBracketUnique(s, j, j');
  }

  // ------------------------------------------------------------ the list

  /** `parseListItems`: one entry per bullet, the text before the first bullet dropped. */
  function ParseListItems(text: String): (items: seq<Entry>)
    ensures text == [] ==> items == []
    ensures |items| == |Split(text, Bullet)| - 1
    ensures forall k :: 0 <= k < |items| ==> items[k] == ParseEntry(Split(text, Bullet)[k + 1])
  {
    if text == [] then []
    else
      var lines := Split(text, Bullet)[1..];
      seq(|lines|, k requires 0 <= k < |lines| => ParseEntry(lines[k]))
  }

  lemma BulletBorderFree()
    ensures BorderFree(Bullet)
  {
    forall k | 0 < k < |Bullet| ensures Bullet[k..] != Bullet[..|Bullet| - k] {
      assert Bullet[k..][0] != Bullet[..|Bullet| - k][0];
    }
  }

  /** There are exactly as many entries as bullets in the section. */
  lemma EntryCount(text: String)
    ensures |ParseListItems(text)| == OccurrenceCount(text, Bullet)
  {
    BulletBorderFree();
    SplitCount(text, Bullet);
  }

  /** Laying a section out as a preamble followed by bulleted lines, none of
      which contains a bullet, gives back exactly one entry per line. */
  lemma ListOfLines(head: String, lines: seq<String>)
    requires IsSplit(Join([head] + lines, Bullet), Bullet, [head] + lines)
    ensures |ParseListItems(Join([head] + lines, Bullet))| == |lines|
    ensures forall k :: 0 <= k < |lines| ==> ParseListItems(Join([head] + lines, Bullet))[k] == ParseEntry(lines[k])
  {
    var text := Join([head] + lines, Bullet);
    var items := ParseListItems(text);
    SplitUnique(text, Bullet, [head] + lines);
    var parts := Split(text, Bullet);
    assert |items| == |lines|;
    forall k | 0 <= k < |lines| ensures items[k] == ParseEntry(lines[k]) {
      assert parts[k + 1] == lines[k];
    }
  }
}
