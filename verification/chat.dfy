/** One turn of the conversation (`sendMessage`): the guard against blank input
    and a request already in flight, the name-capturing first phase, the
    planning phase with its single backend round trip, and the test that
    decides whether an assistant message is shown as a trip plan. */
module Chat {
  import opened Wrappers
  import opened Text
  import Sections
  import Plan

  datatype Role = User | Assistant

  datatype Message = Message(role: Role, content: String)

  datatype Phase = AwaitingName | Planning

  /** The component's state: transcript, captured name, phase, and the flag
      raised while a backend request is in flight. */
  datatype Session = Session(messages: seq<Message>, userName: String, phase: Phase, isLoading: bool)

  /** What the backend round trip produced: the reply text, or a failure of any kind. */
  datatype Outcome = Replied(reply: String) | Failed

  /** What the first half of a turn asks for: nothing, or a post of the transcript. */
  datatype Request = NoRequest | Post(transcript: seq<Message>)

  const Fallback: String := "Sorry, an error occurred. Please try again."

  /** The fixed reply to the first accepted input, which is taken as the name. */
  function Greeting(name: String): String {
    "Nice to meet you, " + name + "! To create your perfect trip, how many days are you planning for?"
  }

  const Start: Session := Session([], [], AwaitingName, false)

  /** Input that trims to nothing: exactly the input made of whitespace alone. */
  function IsBlank(input: String): (b: bool)
    ensures b <==> AllWhitespace(input)
  {
    BlankIsWhitespace(input);
    Trim(input) == []
  }

  lemma BlankIsWhitespace(input: String)
    ensures Trim(input) == [] <==> AllWhitespace(input)
  {
    var r := Trim(input);
    var i, j :| 0 <= i <= j <= |input| && r == input[i..j]
                && AllWhitespace(input[..i]) && AllWhitespace(input[j..]);
    if r == [] {
      forall k | 0 <= k < |input| ensures IsWhitespace(input[k]) {
        if k < i {
          assert input[k] == input[..i][k];
        } else {
          assert input[k] == input[j..][k - j];
        }
      }
    } else {
      assert r[0] == input[i] && !IsWhitespace(input[i]);
    }
  }

  // ------------------------------------------------------------ one turn

  /** Everything `sendMessage` does before its `await`: the guard, the
      optimistic user message, and either the whole name phase or the raising
      of the in-flight flag together with the request to send. */
  function Begin(s: Session, input: String): (r: (Session, Request))
    ensures r.1.Post? ==> r.1.transcript == r.0.messages == s.messages + [Message(User, input)]
    ensures r.1.Post? <==> !IsBlank(input) && !s.isLoading && s.phase == Planning
  {
    if IsBlank(input) || s.isLoading then (s, NoRequest)
    else
      var sent := s.messages + [Message(User, input)];
      match s.phase
      case AwaitingName =>
        (s.(messages := sent + [Message(Assistant, Greeting(input))], userName := input, phase := Planning), NoRequest)
      case Planning =>
        (s.(messages := sent, isLoading := true), Post(sent))
  }

  /** The reply the assistant message carries. */
  function ReplyText(o: Outcome): String {
    match o
    case Replied(reply) => reply
    case Failed => Fallback
  }

  /** Everything after the `await`: the transcript that was sent, followed by
      the reply or the fallback, and the in-flight flag lowered. */
  function Finish(s: Session, sent: seq<Message>, o: Outcome): (r: Session)
    ensures |r.messages| == |sent| + 1 && r.messages[..|sent|] == sent
    ensures r.messages[|sent|] == Message(Assistant, ReplyText(o))
    ensures !r.isLoading && r.phase == s.phase && r.userName == s.userName
  {
    s.(messages := sent + [Message(Assistant, ReplyText(o))], isLoading := false)
  }

  /** A whole turn, the backend producing `o` if it is asked. */
  function Turn(s: Session, input: String, o: Outcome): (r: Session)
    ensures IsBlank(input) || s.isLoading ==> r == s
    ensures !IsBlank(input) && !s.isLoading ==>
              |r.messages| == |s.messages| + 2 && !r.isLoading && r.phase == Planning
  {
    var (s1, req) := Begin(s, input);
    match req
    case NoRequest => s1
    case Post(sent) => Finish(s1, sent, o)
  }

  /** Ignored input leaves the session exactly as it was, and accepted input always changes it. */
  lemma GuardIgnores(s: Session, input: String)
    ensures Begin(s, input).0 == s <==> IsBlank(input) || s.isLoading
    ensures IsBlank(input) || s.isLoading ==> Begin(s, input).1 == NoRequest
  {
    if !(IsBlank(input) || s.isLoading) {
      assert |Begin(s, input).0.messages| > |s.messages|;
    }
  }

  /** An accepted turn from a settled session appends exactly the user's
      message and one assistant message, and leaves nothing in flight. */
  lemma AcceptedTurn(s: Session, input: String, o: Outcome)
    requires !IsBlank(input) && !s.isLoading
    ensures var r := Turn(s, input, o);
            && |r.messages| == |s.messages| + 2
            && r.messages[..|s.messages|] == s.messages
            && r.messages[|s.messages|] == Message(User, input)
            && r.messages[|s.messages| + 1].role == Assistant
            && !r.isLoading && r.phase == Planning
  {
    var reply := if s.phase == AwaitingName then Greeting(input) else ReplyText(o);
    TurnAppends(s, input, o, reply);
  }

  /** An accepted turn appends the user's message and the given reply. */
  lemma TurnAppends(s: Session, input: String, o: Outcome, reply: String)
    requires !IsBlank(input) && !s.isLoading
    requires reply == if s.phase == AwaitingName then Greeting(input) else ReplyText(o)
    ensures Turn(s, input, o).messages == s.messages + [Message(User, input), Message(Assistant, reply)]
    ensures !Turn(s, input, o).isLoading && Turn(s, input, o).phase == Planning
  {
    var sent := s.messages + [Message(User, input)];
    assert sent + [Message(Assistant, reply)] == s.messages + [Message(User, input), Message(Assistant, reply)];
  }

  /** The first accepted input is the name: it is captured verbatim, greeted,
      and the backend is not involved, so the outcome makes no difference. */
  lemma NameTurn(s: Session, input: String, o: Outcome, o': Outcome)
    requires s.phase == AwaitingName && !IsBlank(input) && !s.isLoading
    ensures Begin(s, input).1 == NoRequest
    ensures Turn(s, input, o) == Turn(s, input, o')
    ensures Turn(s, input, o).userName == input
    ensures Turn(s, input, o).messages[|s.messages| + 1] == Message(Assistant, Greeting(input))
  {
  }

  /** In the planning phase the assistant's message is the backend's reply,
      or the fixed fallback when the request failed; name and phase stay. */
  lemma PlanningTurn(s: Session, input: String, o: Outcome)
    requires s.phase == Planning && !IsBlank(input) && !s.isLoading
    ensures var r := Turn(s, input, o);
            && r.messages[|s.messages| + 1].content == (if o.Replied? then o.reply else Fallback)
            && r.userName == s.userName && r.phase == Planning
  {
  }

  /** The conversation never returns to waiting for a name. */
  lemma NoWayBack(s: Session, input: String, o: Outcome)
    ensures Turn(s, input, o).phase == AwaitingName <==> s.phase == AwaitingName && (IsBlank(input) || s.isLoading)
  {
  }

  /** The first halves of a series of send attempts, none of them completed. */
  function BeginAll(s: Session, inputs: seq<String>): (r: (Session, seq<Request>))
    ensures |r.1| == |inputs|
    decreases |inputs|
  {
    if inputs == [] then (s, [])
    else
      var (s1, req) := Begin(s, inputs[0]);
      var (s2, reqs) := BeginAll(s1, inputs[1..]);
      (s2, [req] + reqs)
  }

  /** Sends attempted while a request is in flight are all dropped: none of
      them issues a request or changes the session. */
  lemma {:induction false} SingleFlight(s: Session, inputs: seq<String>)
    requires s.isLoading
    ensures BeginAll(s, inputs).0 == s
    ensures forall k :: 0 <= k < |inputs| ==> BeginAll(s, inputs).1[k] == NoRequest
    decreases |inputs|
  {
    if inputs != [] {
      SingleFlight(s, inputs[1..]);
      var reqs := BeginAll(s, inputs).1;
      assert reqs == [NoRequest] + BeginAll(s, inputs[1..]).1;
      forall k | 0 < k < |inputs| ensures reqs[k] == NoRequest {
        assert reqs[k] == BeginAll(s, inputs[1..]).1[k - 1];
      }
    }
  }

  // ------------------------------------------------------------ many turns

  /** A conversation driven turn by turn, each backend call producing the matching outcome. */
  function Run(s: Session, inputs: seq<String>, outcomes: seq<Outcome>): Session
    requires |inputs| == |outcomes|
    decreases |inputs|
  {
    if inputs == [] then s
    else Run(Turn(s, inputs[0], outcomes[0]), inputs[1..], outcomes[1..])
  }

  /** What holds between turns: nothing in flight; messages alternate user,
      assistant, and the user's are not blank; no message before the name is
      taken, and afterwards the first message is the name and the second its
      greeting. */
  ghost predicate Settled(s: Session) {
    && !s.isLoading
    && Exchanges(s.messages)
    && (s.phase == AwaitingName <==> s.messages == [])
    && (s.phase == Planning ==>
          |s.messages| >= 2 && s.messages[0].content == s.userName
          && s.messages[1] == Message(Assistant, Greeting(s.userName)))
  }

  /** Whole exchanges: a non-blank user message, then an assistant message, and again. */
  ghost predicate Exchanges(ms: seq<Message>) {
    && |ms| % 2 == 0
    && (forall k :: 0 <= k < |ms| ==> ms[k].role == (if k % 2 == 0 then User else Assistant))
    && (forall k :: 0 <= k < |ms| && k % 2 == 0 ==> !IsBlank(ms[k].content))
  }

  lemma AppendExchange(ms: seq<Message>, input: String, reply: String)
    requires Exchanges(ms) && !IsBlank(input)
    ensures Exchanges(ms + [Message(User, input), Message(Assistant, reply)])
  {
    var r := ms + [Message(User, input), Message(Assistant, reply)];
    var n := |ms|;
    assert (n + 1) % 2 == 1 && (n + 2) % 2 == 0;
    forall k | 0 <= k < |r|
      ensures r[k].role == (if k % 2 == 0 then User else Assistant)
      ensures k % 2 == 0 ==> !IsBlank(r[k].content)
    {
      if k < n {
        assert r[k] == ms[k];
      } else if k == n {
        assert r[k] == Message(User, input);
      } else {
        assert r[k] == Message(Assistant, reply);
      }
    }
  }

  lemma StartSettled()
    ensures Settled(Start)
  {
  }

  /** Every turn keeps a settled session settled. */
  lemma TurnSettled(s: Session, input: String, o: Outcome)
    requires Settled(s)
    ensures Settled(Turn(s, input, o))
  {
    if !IsBlank(input) {
      var reply := if s.phase == AwaitingName then Greeting(input) else ReplyText(o);
      TurnAppends(s, input, o, reply);
      AppendExchange(s.messages, input, reply);
      if s.phase == Planning {
        assert Turn(s, input, o).messages[..2] == s.messages[..2];
      }
    }
  }

  /** However a conversation goes, it stays settled between turns. */
  lemma {:induction false} RunSettled(s: Session, inputs: seq<String>, outcomes: seq<Outcome>)
    requires Settled(s) && |inputs| == |outcomes|
    ensures Settled(Run(s, inputs, outcomes))
    decreases |inputs|
  {
    if inputs != [] {
      TurnSettled(s, inputs[0], outcomes[0]);
      RunSettled(Turn(s, inputs[0], outcomes[0]), inputs[1..], outcomes[1..]);
    }
  }

  // ------------------------------------------------------------ plan messages

  /** The words whose presence makes an assistant message render as a plan. */
  const PlanWords: String := "1. Summary:"

  /** Whether a message is shown with the plan view rather than as a bubble. */
  function IsPlan(m: Message): (b: bool)
    ensures b <==> m.role == Assistant && Occurs(m.content, PlanWords)
  {
    m.role == Assistant && Contains(m.content, PlanWords)
  }

  /** A parsed summary can only come from a message that is shown as a plan. */
  lemma SummaryMeansPlan(content: String)
    requires Plan.ExtractSummary(Sections.SectionsOf(content)[0]).Some?
    ensures IsPlan(Message(Assistant, content))
  {
    var head := Sections.SectionsOf(content)[0];
    Sections.FirstSectionIsPrefix(content);
    var i := IndexOf(head, Plan.SummaryMarker, 0).value;
    assert OccursAt(Plan.SummaryMarker, PlanWords, 2);
    OccursWithin(head, Plan.SummaryMarker, i, PlanWords, 2);
    OccursInPrefix(content, |head|, PlanWords, i + 2);
  }

  /** The plan test is looser than the summary pattern: the words without the
      bold markers make a plan message that has no summary. */
  lemma PlanWithoutSummary()
    ensures IsPlan(Message(Assistant, PlanWords))
    ensures Plan.ExtractSummary(Sections.SectionsOf(PlanWords)[0]).None?
  {
    assert OccursAt(PlanWords, PlanWords, 0);
    Sections.FirstSectionIsPrefix(PlanWords);
    var head := Sections.SectionsOf(PlanWords)[0];
    assert |head| < |Plan.SummaryMarker|;
  }
}
