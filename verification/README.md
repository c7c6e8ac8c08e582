# Jharkhand travel planner chat: a Dafny model

This project models the core of a React chat widget that plans a trip.

The first part is the turn logic of `sendMessage`:
- input that is blank after trimming is ignored;
- so is input that arrives while a backend request is in flight;
- the first accepted input is taken as the user's name and answered with a fixed greeting;
- every later input posts the whole transcript to a backend;
- the backend's reply, or a fixed apology on failure, is appended.

The second part is the test that decides whether an assistant message is drawn as a trip plan.

The third part is the parser of the `ItineraryMessage` view. It reads a plan message as follows:
- it cuts the message at horizontal rules (`\n---\n`, any run of three or more dashes);
- it takes the summary and the itinerary steps from the first section;
- it routes each section, by the heading words it contains, to the accommodation list, the guide list or the final action buttons;
- it reads list entries (`**Title:** description [Label](proto://value)`) and action links.

Modules:
- `Wrappers`: `Option` and `Result`. `Option` stands for JavaScript's `undefined`/`null`; `Result` stands for a thrown exception.
- `Text`: JavaScript's whitespace and line terminators, `trim`, `indexOf`/`includes`, and `split` with a string separator. `trim` and `split` each come with a reference predicate and a lemma that the result is the only one satisfying it. The contracts of `indexOf` and `includes` determine their results directly. Overlapping occurrences are counted.
- `Sections`: the regular-expression split at rules.
- `Links`: `parseLink` and the global bracket-token match of the final-actions section.
- `ListItems`: `parseListItems` and the entries it produces.
- `Plan`: summary, itinerary, routing, and the parse of a whole message.
- `Chat`: the session, one turn, many turns, and the plan test.

The four patterns with lazy groups (the link, the bracket token, the bold title and the summary) are modelled the same way:
- a ghost predicate says where a match with given group lengths lies;
- an executable scanner returns the match JavaScript's backtracking reports: the leftmost start, then the shortest lazy groups in order (for the summary, two `indexOf` searches);
- a lemma shows the scanner's answer is the least match, and the only one.

The itinerary pattern `\*\*2\. Itinerary:\*\*([\s\S]*)` has no lazy group and its greedy group runs to the end of the section. It is modelled directly as the text after the first occurrence of its marker, with no match predicate or scanner. The rule pattern `\n-{3,}\n` is modelled by its own predicate, the greedy measure `RuleLengthAt`, and the uniqueness of the cut it induces.

`.` and the `(.*?)` groups of the link, bracket-token and bold-title patterns never cross `\n`, `\r`, U+2028 or U+2029; the `[\s\S]` groups of the summary and itinerary do. Strings are sequences of Unicode characters.

`sendMessage` is split at its `await`:
- `Begin` is everything before it;
- `Finish` is everything after it;
- `Turn` runs one after the other.

The backend's answer is a parameter (`Outcome`).

The `?.` guards on the summary and the itinerary (src/Chatbot.jsx:132-133) show that the parser is meant to leave a field absent when its text is missing. A final-actions section without any bracket token does not: the global match returns `null`, and `.map` is then called on it, which throws. The model follows the code, so `Plan.Parse` returns a `Failure`. A tolerant reading, in which such a section yields no buttons, is modelled beside it (see Findings).

## Model

| member | source | states |
|---|---|---|
| Text.Trim | src/Chatbot.jsx:16 | the result has no whitespace at either end and is a slice of the input whose cut-off ends are all whitespace |
| Text.TrimUnique | src/Chatbot.jsx:123 | trimming `a + r + b`, where `a` and `b` are whitespace and `r` is already trimmed, gives exactly `r`, so trim is determined by these two properties |
| Text.Contains | src/Chatbot.jsx:65 | `includes` is true exactly when the pattern occurs at some position |
| Text.IndexOf | src/Chatbot.jsx:132 | the result is an occurrence at or after the start position, and no occurrence lies between the start and it; none is reported only when there is none |
| Text.Split | src/Chatbot.jsx:121 | the parts glue back to the input with the separator between them, no separator begins inside a part, and the last part contains none |
| Text.SplitUnique | src/Chatbot.jsx:121 | any decomposition with those properties is the split, so `split` is fully determined by them |
| Text.SplitPartsFree | src/Chatbot.jsx:133 | no part of a split contains the separator |
| Text.SplitCount | src/Chatbot.jsx:121 | for a separator that cannot overlap itself, the number of parts is one more than the number of occurrences |
| Sections.RuleLengthIsRule | src/Chatbot.jsx:112 | a positive answer is the length of a rule (newline, three or more dashes, newline) starting at that position |
| Sections.RuleLengthUnique | src/Chatbot.jsx:112 | any rule starting at a position has exactly the length `RuleLengthAt` reports, because the dash run is greedy |
| Sections.SplitAtRulesIsCut | src/Chatbot.jsx:112 | the split at rules glues back to the message, every separator is a rule, and no rule begins inside a section |
| Sections.CutUnique | src/Chatbot.jsx:112 | any decomposition with those properties is the split |
| Sections.SectionsOf | src/Chatbot.jsx:112 | there is at least one section, the empty message gives one empty section, and no section contains a rule |
| Sections.FirstSectionIsPrefix | src/Chatbot.jsx:131 | the first section is a prefix of the message |
| Sections.FirstSectionIgnoresRest | src/Chatbot.jsx:131 | the first section of `p + rule + tail` is `p` when no rule starts inside `p` and its following newline, whatever the tail is |
| Sections.TwoSections | src/Chatbot.jsx:112 | a message made of two rule-free texts around one rule splits into exactly those two sections |
| Sections.SplitAtRules | src/Chatbot.jsx:112 | the split yields one more section than rules; `SplitAtRulesIsCut` and `CutUnique` say which sections |
| Links.ParseLink | src/Chatbot.jsx:114-118 | the result is absent exactly when no link token occurs; a found link has no line break in any field and no `)` in its value, its token occurs in the input, and it is the link of the least match |
| Links.FindLinkIsFirst | src/Chatbot.jsx:115 | the scanner's match is the least in the order (start, label, protocol, value length), and it is the only such match |
| Links.TokenRoundTrip | src/Chatbot.jsx:114-118 | writing a readable link as `[text](protocol://value)` and parsing it gives back the same link |
| Links.BracketsFromIsScan | src/Chatbot.jsx:137 | the global match lists the successive leftmost, laziest tokens, each search resuming after the previous match, and nothing is found after the last |
| Links.BracketScanUnique | src/Chatbot.jsx:137 | any list of successive leftmost matches is the global match |
| Links.ScanMembers | src/Chatbot.jsx:137 | every match of the global match is a lazy token lying inside the section |
| Links.BracketsEmpty | src/Chatbot.jsx:137 | the global match is empty exactly when no token occurs, which is when `match` returns `null` |
| Links.TokenLink | src/Chatbot.jsx:137 | `parseLink` applied to a matched token yields a link exactly when the token's target contains `://`, and that link spells out the whole token with the token's label as its text |
| Links.BracketsFrom | src/Chatbot.jsx:137 | every match lies inside the text, at or after the search start; `BracketsFromIsScan` and `BracketScanUnique` say which matches |
| ListItems.FindTitleIsFirst | src/Chatbot.jsx:122 | the title scanner finds nothing exactly when no `**…:**` label occurs; otherwise it reports the leftmost, laziest match, which is unique |
| ListItems.Describe | src/Chatbot.jsx:123 | the description is the trimmed text before the first `[`; it contains no `[` and is trimmed |
| ListItems.ParseEntry | src/Chatbot.jsx:121-128 | the description is trimmed and free of `[`, and the action is the line's first link |
| ListItems.EntryParts | src/Chatbot.jsx:122-127 | with no label, the title is `Unknown` and the description comes from the whole line; otherwise the title is the first label's group and the description comes from the line with that label deleted; a title never holds a line break |
| ListItems.TypicalEntry | src/Chatbot.jsx:121-128 | a line `**Name:** description[…` is read as title `Name`, the trimmed description and the line's link |
| ListItems.EntryCount | src/Chatbot.jsx:119-121 | a section yields exactly as many entries as it has `\n- ` bullets, and the empty text yields none |
| ListItems.ListOfLines | src/Chatbot.jsx:121 | a preamble followed by bullet-free lines, each after a `\n- `, yields one entry per line, in order |
| ListItems.ParseListItems | src/Chatbot.jsx:119-130 | the empty text yields no entries; otherwise there is one entry per part of the `\n- ` split after the first, each read from that part, in order |
| Plan.ExtractSummary | src/Chatbot.jsx:132 | a summary that is found is trimmed |
| Plan.SummaryIsFirst | src/Chatbot.jsx:132 | the summary is present exactly when an opening marker is followed by a closing marker; then a leftmost, laziest match exists, and the summary is its trimmed text |
| Plan.ExtractItinerary | src/Chatbot.jsx:133 | the itinerary is absent exactly when its marker does not occur, and every step is trimmed |
| Plan.ItineraryParts | src/Chatbot.jsx:133 | the steps are the trimmed parts after the first `* ` of the trimmed text that follows the first itinerary marker |
| Plan.ItineraryStepCount | src/Chatbot.jsx:133 | there is one step per `* ` in that text |
| Plan.ItineraryStepsFree | src/Chatbot.jsx:133 | no step contains `* ` |
| Plan.RouteOf | src/Chatbot.jsx:134-137 | a section goes to accommodations when it mentions them, to guides when it mentions guides but not accommodations, and to final actions only when it mentions neither |
| Plan.ActionMeaning | src/Chatbot.jsx:137 | each button is read from the corresponding leftmost token; it is present exactly when that token's target holds `://`, and it spells out the token |
| Plan.Actions | src/Chatbot.jsx:137 | one button per bracket token of the global match; `ActionMeaning` says what each button is |
| Plan.LastRouted | src/Chatbot.jsx:134-138 | reference definition: the last section routed to a field, searched from the end |
| Plan.FirstThrowing | src/Chatbot.jsx:137 | reference definition: the first final-actions section without tokens |
| Plan.VisitSpec | src/Chatbot.jsx:134-138 | visiting the sections throws exactly at the first final-actions section without tokens; otherwise each list field comes from the last section routed to it, or stays as it was, and summary and itinerary are untouched |
| Plan.ParseSpec | src/Chatbot.jsx:111-140 | the parse of a message fails exactly when some section would throw, naming the first; otherwise summary and itinerary come from the first section, and each list field from the last section routed to it (absent if none) |
| Plan.Visit | src/Chatbot.jsx:134-138 | a failure names a section that throws; a success means no visited section throws and summary and itinerary are left as they were; `VisitSpec` gives each list field |
| Plan.HeadIgnoresRest | src/Chatbot.jsx:131-133 | when the parse succeeds, nothing after the first rule changes the summary or the itinerary; a later final-actions section without tokens can still make the parse throw |
| Plan.Parse | src/Chatbot.jsx:111-140 | a failure names a section that throws; on success the summary and itinerary are those of the first section; `ParseSpec` adds the first-thrower and list-field facts |
| Plan.ActionsWithoutLinks | src/Chatbot.jsx:137 | a plan message whose second section is a final-actions heading with no links makes the parse throw at section 1 |
| Plan.VisitTolerantSpec | src/Chatbot.jsx:134-138 | in the tolerant reading, every field comes from the last section routed to it, whatever the sections hold |
| Plan.TolerantAgrees | src/Chatbot.jsx:137 | the tolerant reading equals the parse wherever the parse succeeds, and gives an empty button list when the last final-actions section is one that would throw |
| Chat.Begin | src/Chatbot.jsx:16-35 | a request is issued exactly for non-blank input, with nothing in flight, in the planning phase, and it carries the whole transcript ending with the new user message |
| Chat.Turn | src/Chatbot.jsx:15-50 | blank input or a request in flight leaves the session as it was; any other input adds two messages, ends in the planning phase and leaves nothing in flight |
| Chat.Finish | src/Chatbot.jsx:42-48 | after the round trip, the transcript that was sent is followed by one assistant message with the reply or the fallback, and the in-flight flag is lowered |
| Chat.IsBlank | src/Chatbot.jsx:16 | input trims to nothing exactly when every character of it is whitespace or a line terminator |
| Chat.GuardIgnores | src/Chatbot.jsx:16 | a turn leaves the session unchanged exactly when the input is blank or a request is in flight |
| Chat.AcceptedTurn | src/Chatbot.jsx:18-49 | an accepted turn keeps the old transcript, appends the user's message and then one assistant message, ends in the planning phase, and leaves nothing in flight |
| Chat.NameTurn | src/Chatbot.jsx:22-31 | in the name phase the input is stored verbatim as the name and greeted with the fixed text; no request is made, so the backend's outcome is irrelevant |
| Chat.PlanningTurn | src/Chatbot.jsx:33-49 | in the planning phase the assistant message is the backend's reply, or the fixed apology on failure, and the name and phase stay |
| Chat.NoWayBack | src/Chatbot.jsx:22-33 | after a turn the conversation is waiting for a name only if it was before and the input was ignored |
| Chat.SingleFlight | src/Chatbot.jsx:16 | while a request is in flight, any number of send attempts issue no request and change nothing |
| Chat.TurnSettled | src/Chatbot.jsx:15-50 | a turn keeps the between-turns invariant: nothing in flight, user and assistant messages alternating, user messages not blank, no message before the name, and afterwards the name then its greeting first |
| Chat.RunSettled | src/Chatbot.jsx:15-50 | that invariant holds after any sequence of turns from a settled session |
| Chat.IsPlan | src/Chatbot.jsx:65 | a message is drawn as a plan exactly when it is the assistant's and `1. Summary:` occurs in it |
| Chat.SummaryMeansPlan | src/Chatbot.jsx:65 | a message from which a summary can be parsed is drawn as a plan |
| Chat.PlanWithoutSummary | src/Chatbot.jsx:65 | the plan test is looser than the summary pattern: the bare words `1. Summary:` make a plan message with no summary |

## Left out

- Rendering is not modelled: the JSX, the static greeting, the typing indicator and the alert buttons. Three crashes and a slip in that code stay outside the model:
  - an accommodation or guide entry without a link is dereferenced (`item.action.text`), which throws;
  - a final-action button is drawn from `action.text` (src/Chatbot.jsx:189), which throws for the absent entry `Plan.Actions` yields for a token whose target has no `://`, such as `[Call](tel:1)`;
  - the final-action alert reads a field named `action`, which a link does not have.
- The network call is left out. Its result is the `Outcome` parameter, and a reply is assumed to be a string. The endpoint configuration, `dotenv` and the console log are left out too.
- React's asynchronous state updates are not modelled. A turn is applied as the source's closures see the state, and the flag's single-flight guard is what rules out overlapping turns. The input box is a parameter, because `sendMessage` never clears it.
- `useMemo` caching is not modelled. The parse is a pure function of the message.
- Characters are Unicode scalar values, not UTF-16 code units, so surrogate pairs are not modelled.
- Only the six regular expressions the core uses are modelled, not a general regular-expression engine.
- Text.IndexOf: differs from `indexOf` for an empty pattern with a start past the end. There JavaScript clamps the start and returns the length, while the model returns `None`. The core only searches for non-empty markers.
- `sections[0] || ''` is modelled as the first section, because `split` always yields at least one string.
- ListItems.EntryParts: the title `Unknown` is stated only in one direction, because a line with the label `**Unknown:**` gives the same title.

## Findings

| source | as written | input that shows it | evidently intended | confidence | as-written member | corrected member |
|---|---|---|---|---|---|---|
| src/Chatbot.jsx:137 | the global match of a final-actions section is mapped without a check for `null`, so a section with no `[..](..)` token throws and the plan view fails to render | the assistant message `1. Summary:`, then `\n---\n`, then `Final Actions` | a section without tokens yields no buttons, like the `?.` guards on the summary and itinerary | high; not executed | Plan.ActionsWithoutLinks | Plan.TolerantAgrees |
