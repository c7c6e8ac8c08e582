/** Reading a finished trip plan: the message is cut into sections at its
    horizontal rules; the first section yields the summary and the day-by-day
    itinerary; every section is then routed by the heading words it contains to
    the accommodation list, the guide list or the final action buttons. */
module Plan {
  import opened Wrappers
  import opened Text
  import Sections
  import Links
  import ListItems

  const SummaryMarker: String := "**1. Summary:**"
  const ItineraryMarker: String := "**2. Itinerary:**"
  /** What separates the steps of the itinerary. */
  const StepMarker: String := "* "

  const AccommodationHeading: String := "Top Accommodation Picks"
  const GuideHeading: String := "Choose Your Expert Guide"
  const ActionsHeading: String := "Final Actions"

  // ------------------------------------------------------------ summary

  /** The summary pattern matches with its opening marker at `i` and its
      closing marker at `j`. */
  ghost predicate SummaryAt(s: String, i: nat, j: nat) {
    OccursAt(s, SummaryMarker, i) && OccursAt(s, ItineraryMarker, j) && i + |SummaryMarker| <= j
  }

  ghost predicate HasSummary(s: String) {
    exists i: nat, j: nat :: SummaryAt(s, i, j)
  }

  /** The match `match` reports: the leftmost opening, then the nearest closing. */
  ghost predicate IsFirstSummary(s: String, i: nat, j: nat) {
    && SummaryAt(s, i, j)
    && (forall i': nat, j': nat :: i' < i ==> !SummaryAt(s, i', j'))
    && (forall j': nat :: j' < j ==> !SummaryAt(s, i, j'))
  }

  /** The trimmed text between the summary marker and the itinerary marker. */
  function ExtractSummary(s: String): (r: Option<String>)
    ensures r.Some? ==> IsTrimmed(r.value)
  {
    match IndexOf(s, SummaryMarker, 0)
    case None => None
    case Some(i) =>
      match IndexOf(s, ItineraryMarker, i + |SummaryMarker|)
      case None => None
      case Some(j) => Some(Trim(s[i + |SummaryMarker|..j]))
  }

  /** The summary is present exactly when the pattern matches, and it is the
      trimmed group of the leftmost, laziest match. */
  lemma SummaryIsFirst(s: String)
    ensures ExtractSummary(s).Some? <==> HasSummary(s)
    ensures ExtractSummary(s).Some? ==> exists i: nat, j: nat :: IsFirstSummary(s, i, j)
    ensures forall i: nat, j: nat :: IsFirstSummary(s, i, j) ==>
              ExtractSummary(s) == Some(Trim(s[i + |SummaryMarker|..j]))
  {
    match IndexOf(s, SummaryMarker, 0)
    case None =>
    case Some(i) =>
      match IndexOf(s, ItineraryMarker, i + |SummaryMarker|)
      case None =>
        forall i': nat, j': nat ensures !SummaryAt(s, i', j') {
          assert SummaryAt(s, i', j') ==> i <= i';
        }
      case Some(j) =>
        assert SummaryAt(s, i, j);
        assert IsFirstSummary(s, i, j);
        forall i': nat, j': nat | IsFirstSummary(s, i', j')
          ensures i' == i && j' == j
        {
          assert !(i < i') && !(i' < i);
          assert !(j < j') && !(j' < j);
        }
  }

  // ------------------------------------------------------------ itinerary

  /** The trimmed text after the first itinerary marker. */
  ghost function ItineraryBody(s: String, j: nat): String
    requires j + |ItineraryMarker| <= |s|
  {
    Trim(s[j + |ItineraryMarker|..])
  }

  /** The itinerary steps: everything after the first itinerary marker,
      trimmed, split at each `* `, the text before the first dropped and each
      step trimmed. */
  function ExtractItinerary(s: String): (r: Option<seq<String>>)
    ensures r.None? <==> !Occurs(s, ItineraryMarker)
    ensures r.Some? ==> forall k :: 0 <= k < |r.value| ==> IsTrimmed(r.value[k])
  {
    match IndexOf(s, ItineraryMarker, 0)
    case None => None
    case Some(j) =>
      var parts := Split(Trim(s[j + |ItineraryMarker|..]), StepMarker)[1..];
      Some(seq(|parts|, k requires 0 <= k < |parts| => Trim(parts[k])))
  }

  lemma StepMarkerBorderFree()
    ensures BorderFree(StepMarker)
  {
    forall k | 0 < k < |StepMarker| ensures StepMarker[k..] != StepMarker[..|StepMarker| - k] {
      assert StepMarker[k..][0] != StepMarker[..|StepMarker| - k][0];
    }
  }

  /** The steps are the trimmed parts of the body after the first `* `. */
  lemma ItineraryParts(s: String, j: nat)
    requires OccursAt(s, ItineraryMarker, j) && forall j': nat :: j' < j ==> !OccursAt(s, ItineraryMarker, j')
    ensures ExtractItinerary(s).Some?
    ensures |ExtractItinerary(s).value| == |Split(ItineraryBody(s, j), StepMarker)| - 1
    ensures forall k :: 0 <= k < |ExtractItinerary(s).value| ==>
              ExtractItinerary(s).value[k] == Trim(Split(ItineraryBody(s, j), StepMarker)[k + 1])
  {
    assert IndexOf(s, ItineraryMarker, 0) == Some(j);
  }

  /** There is one step per `* ` after the first itinerary marker. */
  lemma ItineraryStepCount(s: String, j: nat)
    requires OccursAt(s, ItineraryMarker, j) && forall j': nat :: j' < j ==> !OccursAt(s, ItineraryMarker, j')
    ensures ExtractItinerary(s).Some?
    ensures |ExtractItinerary(s).value| == OccurrenceCount(ItineraryBody(s, j), StepMarker)
  {
    ItineraryParts(s, j);
    StepMarkerBorderFree();
    SplitCount(ItineraryBody(s, j), StepMarker);
  }

  /** No step contains the step marker. */
  lemma ItineraryStepsFree(s: String)
    ensures ExtractItinerary(s).Some? ==>
              forall k :: 0 <= k < |ExtractItinerary(s).value| ==> !Occurs(ExtractItinerary(s).value[k], StepMarker)
  {
    match IndexOf(s, ItineraryMarker, 0)
    case None =>
    case Some(j) =>
      ItineraryParts(s, j);
      var body := ItineraryBody(s, j);
      var parts := Split(body, StepMarker);
      var steps := ExtractItinerary(s).value;
      forall k | 0 <= k < |steps| ensures !Occurs(steps[k], StepMarker) {
        SplitPartsFree(body, StepMarker, k + 1);
        TrimKeepsAbsence(parts[k + 1], StepMarker);
      }
  }

  /** Trimming cannot create an occurrence. */
  lemma TrimKeepsAbsence(s: String, pat: String)
    requires !Occurs(s, pat)
    ensures !Occurs(Trim(s), pat)
  {
    var t := Trim(s);
    var a, b :| 0 <= a <= b <= |s| && t == s[a..b];
    forall q: nat ensures !OccursAt(t, pat, q) {
      if q + |pat| <= |t| {
        SliceOfSlice(s, a, b, q, q + |pat|);
        assert !OccursAt(s, pat, a + q);
      }
    }
  }

  // ------------------------------------------------------------ routing

  /** Where a section's contents go. */
  datatype Route = Accommodations | Guides | FinalActions | Ignored

  /** The first heading a section contains decides its route, in this order. */
  function RouteOf(sec: String): (r: Route)
    ensures r == Accommodations <==> Occurs(sec, AccommodationHeading)
    ensures r == Guides <==> !Occurs(sec, AccommodationHeading) && Occurs(sec, GuideHeading)
    ensures r == FinalActions <==>
              !Occurs(sec, AccommodationHeading) && !Occurs(sec, GuideHeading) && Occurs(sec, ActionsHeading)
  {
    if Contains(sec, AccommodationHeading) then Accommodations
    else if Contains(sec, GuideHeading) then Guides
    else if Contains(sec, ActionsHeading) then FinalActions
    else Ignored
  }

  /** The buttons of a final-actions section: every bracket token of a global
      match, read as a link (absent where the token holds no `://`). */
  function Actions(sec: String): (acts: seq<Option<Links.Link>>)
    ensures |acts| == |Links.BracketsFrom(sec, 0)|
  {
    var ms := Links.BracketsFrom(sec, 0);
    seq(|ms|, i requires 0 <= i < |ms| => Links.ParseLink(Links.TokenText(sec, ms[i])))
  }

  /** Each button is the `i`-th leftmost token of the section: present exactly
      when its target holds `://`, and then spelling out the whole token with
      the token's label as its text. */
  lemma ActionMeaning(sec: String, i: nat)
    requires i < |Actions(sec)|
    ensures var m := Links.BracketsFrom(sec, 0)[i];
            && Links.IsLazyBracket(sec, m)
            && (Actions(sec)[i].Some? <==> Occurs(Links.TargetText(sec, m), "://"))
            && (Actions(sec)[i].Some? ==>
                  Links.Token(Actions(sec)[i].value) == Links.TokenText(sec, m)
                  && Actions(sec)[i].value.text == Links.LabelText(sec, m))
  {
    var ms := Links.BracketsFrom(sec, 0);
    Links.BracketsFromIsScan(sec, 0);
    Links.ScanMembers(sec, 0, ms, i);
    Links.TokenLink(sec, ms[i]);
  }

  // ------------------------------------------------------------ the parsed plan

  datatype Doc = Doc(
    summary: Option<String>,
    itinerary: Option<seq<String>>,
    accommodations: Option<seq<ListItems.Entry>>,
    guides: Option<seq<ListItems.Entry>>,
    finalActions: Option<seq<Option<Links.Link>>>)

  /** A final-actions section without a single bracket token makes the global
      match return `null`, and mapping over it throws. */
  datatype ParseError = NoActionTokens(section: nat)

  /** Whether section `sec` makes the parse throw. */
  predicate Throws(sec: String) {
    RouteOf(sec) == FinalActions && Links.BracketsFrom(sec, 0) == []
  }

  /** Visit the sections from `k` on, each routed section overwriting its field. */
  function Visit(secs: seq<String>, k: nat, d: Doc): (r: Result<Doc, ParseError>)
    requires k <= |secs|
    decreases |secs| - k
    ensures r.Failure? ==> k <= r.error.section < |secs| && Throws(secs[r.error.section])
    ensures r.Success? ==> r.value.summary == d.summary && r.value.itinerary == d.itinerary
    ensures r.Success? ==> forall i :: k <= i < |secs| ==> !Throws(secs[i])
  {
    if k == |secs| then Success(d)
    else
      var sec := secs[k];
      match RouteOf(sec)
      case Accommodations => Visit(secs, k + 1, d.(accommodations := Some(ListItems.ParseListItems(sec))))
      case Guides => Visit(secs, k + 1, d.(guides := Some(ListItems.ParseListItems(sec))))
      case FinalActions =>
        if Links.BracketsFrom(sec, 0) == [] then Failure(NoActionTokens(k))
        else Visit(secs, k + 1, d.(finalActions := Some(Actions(sec))))
      case Ignored => Visit(secs, k + 1, d)
  }

  /** `ItineraryMessage`'s parse of a message. */
  function Parse(content: String): (r: Result<Doc, ParseError>)
    ensures r.Failure? ==> var secs := Sections.SectionsOf(content);
              r.error.section < |secs| && Throws(secs[r.error.section])
    ensures r.Success? ==> r.value.summary == ExtractSummary(Sections.SectionsOf(content)[0])
    ensures r.Success? ==> r.value.itinerary == ExtractItinerary(Sections.SectionsOf(content)[0])
  {
    var secs := Sections.SectionsOf(content);
    var head := secs[0];
    Visit(secs, 0, Doc(ExtractSummary(head), ExtractItinerary(head), None, None, None))
  }

  // ------------------------------------------------------------ reference definitions

  /** The last section at or after `k` with route `route`, searched from the end. */
  function LastRouted(secs: seq<String>, k: nat, route: Route): (r: Option<nat>)
    requires k <= |secs|
    decreases |secs| - k
    ensures r.Some? ==> k <= r.value < |secs| && RouteOf(secs[r.value]) == route
    ensures r.Some? ==> forall i :: r.value < i < |secs| ==> RouteOf(secs[i]) != route
    ensures r.None? ==> forall i :: k <= i < |secs| ==> RouteOf(secs[i]) != route
  {
    if k == |secs| then None
    else
      var later := LastRouted(secs, k + 1, route);
      if later.Some? then later
      else if RouteOf(secs[k]) == route then Some(k)
      else None
  }

  /** The first section at or after `k` that throws. */
  function FirstThrowing(secs: seq<String>, k: nat): (r: Option<nat>)
    requires k <= |secs|
    decreases |secs| - k
    ensures r.Some? ==> k <= r.value < |secs| && Throws(secs[r.value])
    ensures r.Some? ==> forall i :: k <= i < r.value ==> !Throws(secs[i])
    ensures r.None? ==> forall i :: k <= i < |secs| ==> !Throws(secs[i])
  {
    if k == |secs| then None
    else if Throws(secs[k]) then Some(k)
    else FirstThrowing(secs, k + 1)
  }

  /** A field after the visit: the last routed section's value, or what it was before. */
  function Overwritten<T>(secs: seq<String>, k: nat, route: Route, before: Option<T>, f: String -> T): Option<T>
    requires k <= |secs|
  {
    match LastRouted(secs, k, route)
    case None => before
    case Some(i) => Some(f(secs[i]))
  }

  /** The visit throws exactly at the first throwing section; otherwise every
      list field comes from the last section routed to it, and the summary and
      itinerary are untouched. */
  lemma {:induction false} VisitSpec(secs: seq<String>, k: nat, d: Doc)
    requires k <= |secs|
    decreases |secs| - k
    ensures Visit(secs, k, d).Failure? <==> FirstThrowing(secs, k).Some?
    ensures Visit(secs, k, d).Failure? ==> Visit(secs, k, d).error == NoActionTokens(FirstThrowing(secs, k).value)
    ensures Visit(secs, k, d).Success? ==>
              var r := Visit(secs, k, d).value;
              && r.summary == d.summary && r.itinerary == d.itinerary
              && r.accommodations == Overwritten(secs, k, Accommodations, d.accommodations, ListItems.ParseListItems)
              && r.guides == Overwritten(secs, k, Guides, d.guides, ListItems.ParseListItems)
              && r.finalActions == Overwritten(secs, k, FinalActions, d.finalActions, Actions)
  {
    if k < |secs| {
      var sec := secs[k];
      match RouteOf(sec)
      case Accommodations => VisitSpec(secs, k + 1, d.(accommodations := Some(ListItems.ParseListItems(sec))));
      case Guides => VisitSpec(secs, k + 1, d.(guides := Some(ListItems.ParseListItems(sec))));
      case FinalActions =>
        if Links.BracketsFrom(sec, 0) != [] {
          VisitSpec(secs, k + 1, d.(finalActions := Some(Actions(sec))));
        }
      case Ignored => VisitSpec(secs, k + 1, d);
    }
  }

  /** The parse of a message, field by field. */
  lemma ParseSpec(content: String)
    ensures var secs := Sections.SectionsOf(content);
            && (Parse(content).Failure? <==> exists k :: 0 <= k < |secs| && Throws(secs[k]))
            && (Parse(content).Failure? ==>
                  var k := Parse(content).error.section;
                  k < |secs| && Throws(secs[k]) && forall i :: 0 <= i < k ==> !Throws(secs[i]))
            && (Parse(content).Success? ==>
                  var r := Parse(content).value;
                  && r.summary == ExtractSummary(secs[0])
                  && r.itinerary == ExtractItinerary(secs[0])
                  && r.accommodations == Overwritten(secs, 0, Accommodations, None, ListItems.ParseListItems)
                  && r.guides == Overwritten(secs, 0, Guides, None, ListItems.ParseListItems)
                  && r.finalActions == Overwritten(secs, 0, FinalActions, None, Actions))
  {
    var secs := Sections.SectionsOf(content);
    VisitSpec(secs, 0, Doc(ExtractSummary(secs[0]), ExtractItinerary(secs[0]), None, None, None));
  }

  /** The summary and itinerary come from the first section alone: whatever
      follows the first horizontal rule cannot change them. */
  lemma HeadIgnoresRest(p: String, rule: String, tail: String)
    requires Sections.IsRule(rule) && Sections.NoRule(p + "\n")
    ensures Parse(p + rule + tail).Success? ==>
              && Parse(p + rule + tail).value.summary == ExtractSummary(p)
              && Parse(p + rule + tail).value.itinerary == ExtractItinerary(p)
  {
    Sections.FirstSectionIgnoresRest(p, rule, tail);
    ParseSpec(p + rule + tail);
  }

  // ------------------------------------------------------------ a section without buttons

  /** A plan message whose last section names its final actions but lists no
      link: the global match finds nothing there, and the parse throws. */
  lemma ActionsWithoutLinks()
    ensures Contains(PlanWithoutButtons, "1. Summary:")
    ensures Parse(PlanWithoutButtons) == Failure(NoActionTokens(1))
  {
    var p, q := "1. Summary:", ActionsHeading;
    assert OccursAt(PlanWithoutButtons, p, 0) by {
      assert PlanWithoutButtons[..|p|] == p;
    }
    ExampleSections();
    ExampleRoutes();
    var secs := [p, q];
    var d := Doc(ExtractSummary(p), ExtractItinerary(p), None, None, None);
    assert Visit(secs, 1, d) == Failure(NoActionTokens(1));
    assert Visit(secs, 0, d) == Visit(secs, 1, d);
  }

  const PlanWithoutButtons: String := "1. Summary:" + "\n---\n" + ActionsHeading

  lemma ExampleSections()
    ensures Sections.SectionsOf(PlanWithoutButtons) == ["1. Summary:", ActionsHeading]
  {
    Sections.NoEarlyNewline("1. Summary:" + "\n");
    Sections.NoEarlyNewline(ActionsHeading);
    Sections.TwoSections("1. Summary:", "\n---\n", ActionsHeading);
  }

  lemma ExampleRoutes()
    ensures RouteOf("1. Summary:") == Ignored
    ensures Throws(ActionsHeading)
  {
    assert OccursAt(ActionsHeading, ActionsHeading, 0);
    NoOpenBracket(ActionsHeading);
  }

  /** Without a `[` there is no token. */
  lemma NoOpenBracket(sec: String)
    requires forall i :: 0 <= i < |sec| ==> sec[i] != '['
    ensures Links.BracketsFrom(sec, 0) == []
  {
    Links.NothingFound(sec, 0);
  }

  /** The evident intent, every malformed part degrading to an absent or empty
      field: a final-actions section without tokens yields no buttons. */
  function VisitTolerant(secs: seq<String>, k: nat, d: Doc): Doc
    requires k <= |secs|
    decreases |secs| - k
  {
    if k == |secs| then d
    else
      var sec := secs[k];
      match RouteOf(sec)
      case Accommodations => VisitTolerant(secs, k + 1, d.(accommodations := Some(ListItems.ParseListItems(sec))))
      case Guides => VisitTolerant(secs, k + 1, d.(guides := Some(ListItems.ParseListItems(sec))))
      case FinalActions => VisitTolerant(secs, k + 1, d.(finalActions := Some(Actions(sec))))
      case Ignored => VisitTolerant(secs, k + 1, d)
  }

  function ParseTolerant(content: String): Doc {
    var secs := Sections.SectionsOf(content);
    var head := secs[0];
    VisitTolerant(secs, 0, Doc(ExtractSummary(head), ExtractItinerary(head), None, None, None))
  }

  /** Every field of the tolerant visit comes from the last section routed to
      it, whatever the sections hold. */
  lemma {:induction false} VisitTolerantSpec(secs: seq<String>, k: nat, d: Doc)
    requires k <= |secs|
    decreases |secs| - k
    ensures var r := VisitTolerant(secs, k, d);
            && r.summary == d.summary && r.itinerary == d.itinerary
            && r.accommodations == Overwritten(secs, k, Accommodations, d.accommodations, ListItems.ParseListItems)
            && r.guides == Overwritten(secs, k, Guides, d.guides, ListItems.ParseListItems)
            && r.finalActions == Overwritten(secs, k, FinalActions, d.finalActions, Actions)
  {
    if k < |secs| {
      var sec := secs[k];
      match RouteOf(sec)
      case Accommodations => VisitTolerantSpec(secs, k + 1, d.(accommodations := Some(ListItems.ParseListItems(sec))));
      case Guides => VisitTolerantSpec(secs, k + 1, d.(guides := Some(ListItems.ParseListItems(sec))));
      case FinalActions => VisitTolerantSpec(secs, k + 1, d.(finalActions := Some(Actions(sec))));
      case Ignored => VisitTolerantSpec(secs, k + 1, d);
    }
  }

  /** The tolerant reading agrees with the parse wherever the parse does not
      throw, and where it throws the tolerant reading shows no buttons for the
      offending section. */
  lemma TolerantAgrees(content: String)
    ensures Parse(content).Success? ==> Parse(content).value == ParseTolerant(content)
    ensures var secs := Sections.SectionsOf(content);
            forall k :: 0 <= k < |secs| && Throws(secs[k]) && LastRouted(secs, 0, FinalActions) == Some(k) ==>
              ParseTolerant(content).finalActions == Some([])
  {
    var secs := Sections.SectionsOf(content);
    var d := Doc(ExtractSummary(secs[0]), ExtractItinerary(secs[0]), None, None, None);
    VisitSpec(secs, 0, d);
    VisitTolerantSpec(secs, 0, d);
  }
}
