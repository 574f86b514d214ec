# Iris task agent: a verified model of its message pipeline

Iris listens to Telex message webhooks. It decides whether a message looks
like a task and, if it does, summarises the message in the background and
sends the author a direct message. The model covers the decision logic of
this pipeline:

- **Task detection** (`app/handlers/task_detector.py`, module `TaskDetector`).
  Each regular expression is a hand-written matcher, `MatchAt`. It returns
  the match that Python's backtracking engine finds at one start index, and
  `Search` returns the leftmost start, which is what `re.search` reports.
  On top of these sit the keyword classifier `looks_like_task`, the title
  extraction and the two-stage deadline extraction.
- **Reference definitions of the patterns** (module `PatternSpec`). Each
  pattern is restated as "the text splits into these runs", with no search
  order. Every matcher is proved to succeed exactly where its reference
  allows a match. For the two deadline patterns, the group the engine
  captures is also pinned down: the longest date group, and the
  latest-starting, longest label group. `looks_like_task` and
  `extract_deadline` are then characterised through these definitions.
- **Heuristic summarisation** (`app/handlers/summarizer.py`, module
  `Summarizer`). This covers the fallback summariser and the configuration
  check of the model-backed summariser. It also covers that summariser's
  best-effort branch for a reply that is not valid JSON. The language-model
  call and `json.loads` are foreign code, so their outcome is an input
  (`LlmReply`).
- **Webhook gate, tail and message composition** (`main.py`, module
  `Pipeline`).
  - `build_dm_message` is a method with the same appends and the same loop
    over the deliverables. It is proved equal to the specification function
    `DmMessage`, and the layout of the message is proved about that function.
  - The service state lives in the class `IrisAgent`:
    - the Redis store of seen ids;
    - the queue of background tasks;
    - the Telex client's outbox.
  - `webhook_events` and `process_task_message` are methods of that class.
- Python's `str` operations that the handlers rely on are in module `PyStr`:
  - `isspace` and `strip()`;
  - `strip(chars)`;
  - `splitlines()`;
  - `lower()`;
  - prefix slicing.
- `Scenarios` works the handlers on a few concrete texts.

Some behaviours of the code are easy to misread, and the model pins them
down:

- The checklist pattern has no `re.I`, so only a lowercase `x` marks a
  checked box; `- [X]` is not a checklist (`ChecklistNeedsLowercaseX`).
- `strip("-* ")` stops at `[`, so the bullet `- [ ] write tests` yields the
  deliverable `[ ] write tests`, box included (`ChecklistBulletKeepsBox`).
- The comment in `extract_title` says 80 characters, but the code cuts at 150.
- `"Deadline: Friday"` gives the deadline `" "`. The group class holds the
  space but no letter, and `[:\s]*` gives the space back to the group
  (`DeadlineLabelKeepsOnlyTheSpace`).

## Model

| member | source | states |
|---|---|---|
| PyStr.StripEmptyIff | app/handlers/task_detector.py:26 | `strip()` (`Strip`) gives the empty text exactly when every character is whitespace |
| PyStr.StripEnds | app/handlers/task_detector.py:26 | a non-empty `strip()` result neither starts nor ends with whitespace |
| PyStr.StripWithSlice | app/handlers/summarizer.py:51 | `strip(chars)` (`StripWith`) keeps one slice of the text; only characters of the set lie outside it, and it neither starts nor ends with one |
| PyStr.SplitLines | app/handlers/task_detector.py:26 | `splitlines()` gives no lines for the empty text only, and its first line is the text up to the first line boundary |
| PyStr.SplitLinesRebuild | app/handlers/task_detector.py:26 | `splitlines()` cuts the text at its line boundaries (`LineBoundaries`): "\r\n" or one line-break character, with a lone "\r" never taken apart from a following "\n"; only the last line may lack a boundary, and it is then non-empty |
| PyStr.SplitsIntoLines | app/handlers/task_detector.py:26 | for such a cut, no line holds a line break, and the text is the lines put back together, each followed by its boundary |
| PyStr.LineEnd | app/handlers/task_detector.py:26 | the first line ends at the first line boundary and contains none |
| PyStr.Take | app/handlers/task_detector.py:27 | `s[:n]` is the prefix of length `min(len(s), n)` |
| PyStr.Lower | app/handlers/task_detector.py:12 | `lower()` keeps the length and lowers each character on its own |
| TaskDetector.KeywordAt | app/handlers/task_detector.py:7 | `\bWORD\b` matches only at a non-space character and spans exactly the word |
| TaskDetector.PleaseVerbAt | app/handlers/task_detector.py:8 | the "please <verb>" match starts at the index tried and stays inside the text |
| TaskDetector.VerbAt | app/handlers/task_detector.py:8 | the verb alternation ends at a word boundary right after one of the four verbs, matched case-insensitively |
| TaskDetector.ByMonthDayAt | app/handlers/task_detector.py:8 | the "by Month N" match starts at the index tried and stays inside the text |
| TaskDetector.DayThenBoundary | app/handlers/task_detector.py:8 | `\d{1,2}\b` consumes one or two digits and ends at a word boundary |
| TaskDetector.ChecklistAt | app/handlers/task_detector.py:17 | a checklist match starts with "-" at the start of a line |
| TaskDetector.ByWordDayAt | app/handlers/task_detector.py:20 | the "by word N[, yyyy]" match starts at the index tried and stays inside the text |
| TaskDetector.YearThenBoundary | app/handlers/task_detector.py:20 | the optional year group, then `\b`, ends at a word boundary |
| TaskDetector.Year | app/handlers/task_detector.py:20 | the year group ends after four digits, at least five characters on |
| TaskDetector.DeadlineDateAt | app/handlers/task_detector.py:30 | a date match starts with a literal "b", and its group starts with an upper-case letter |
| TaskDetector.DeadlineLabelAt | app/handlers/task_detector.py:33 | a deadline-label group is a non-empty run of `[0-9T:\-\/ ]` after the label |
| TaskDetector.LastDeadlineCharFrom | app/handlers/task_detector.py:33 | backtracking of `[:\s]*` gives back characters until the first one the group accepts, and fails when there is none |
| TaskDetector.MatchAt | app/handlers/task_detector.py:6-36 | every match of every pattern starts at a non-whitespace character and lies inside the text |
| TaskDetector.FirstTrue | app/handlers/task_detector.py:14 | the first tried start that matches is found, or there is none |
| TaskDetector.Search | app/handlers/task_detector.py:14 | `re.search` finds a match iff the pattern matches somewhere, and the one it finds is the leftmost |
| TaskDetector.AnyKeywordMatchesIff | app/handlers/task_detector.py:13-15 | the early-return loop over the keyword list (`AnyKeywordMatches`) is true iff one of its patterns matches |
| TaskDetector.LooksLikeTaskIff | app/handlers/task_detector.py:11-22 | `looks_like_task` (`LooksLikeTask`) is true iff a keyword pattern matches the lowered text, or the checklist or the "by word N" phrase matches the text |
| TaskDetector.LooksLikeTaskHasNonSpace | app/handlers/task_detector.py:11-22 | a text that looks like a task holds a non-whitespace character |
| TaskDetector.LowerKeepsBoundary | app/handlers/task_detector.py:12-14 | lowering the text does not move any `\b` |
| TaskDetector.LowerKeepsCiLit | app/handlers/task_detector.py:12-14 | lowering the text does not change a case-insensitive literal match |
| TaskDetector.KeywordMatchMakesTask | app/handlers/task_detector.py:13-15 | a match of any keyword pattern on the lowered text makes the text a task |
| TaskDetector.KeywordMakesTask | app/handlers/task_detector.py:6-15 | a whole word "task", "deadline", "deliverable" or "action", in any letter case, makes the text a task |
| TaskDetector.ChecklistMakesTask | app/handlers/task_detector.py:17-18 | a line starting with "- [ ] " or "- [x]" makes the text a task |
| TaskDetector.ChecklistNeedsLowercaseX | app/handlers/task_detector.py:17 | at any index, "- [X]" is not a checklist match, and neither is "- [ ]" when no space follows it, at the end of the text or before any other character |
| TaskDetector.ExtractTitle | app/handlers/task_detector.py:24-27 | on a text with a non-whitespace character, the title is the longest prefix of the stripped text of at most 150 characters that does not cross a line boundary; it is non-empty and starts with a non-whitespace character |
| TaskDetector.ExtractDeadline | app/handlers/task_detector.py:29-36 | nothing is found iff neither pattern matches; a deadline is a non-empty substring of the text; a date match wins and starts with an upper-case letter; otherwise the label's run holds only `[0-9T:\-\/ ]` characters |
| TaskDetector.Capture | app/handlers/task_detector.py:32-35 | a captured group is a non-empty substring, upper-case first for the date and label characters only for the label |
| PyStr.SkipWhileStops | app/handlers/task_detector.py:8 | a greedy run of a class ends exactly at the first character outside the class |
| PyStr.SkipWhileMaximal | app/handlers/task_detector.py:33 | a greedy run of a class reaches at least as far as any run of that class from the same index |
| PatternSpec.VerbAtComplete | app/handlers/task_detector.py:8 | the verb alternation succeeds whenever one of the verbs fits followed by a word boundary |
| PatternSpec.PleaseVerbAtIff | app/handlers/task_detector.py:8 | the "please <verb>" matcher succeeds at an index iff "please" at a word boundary, a non-empty whitespace run, one of the four verbs and a word boundary follow there |
| PatternSpec.DayThenBoundaryComplete | app/handlers/task_detector.py:8 | `\d{1,2}\b` matches whenever one or two digits end at a word boundary |
| PatternSpec.ByMonthDayAtIff | app/handlers/task_detector.py:8 | the "by <Month> <day>" matcher succeeds at an index iff "by", whitespace, a letter, further letters, one blank and a one- or two-digit day ending at a word boundary can be laid out there |
| PatternSpec.YearSound | app/handlers/task_detector.py:20 | a year found by the year matcher is an optional comma, a whitespace run and four digits |
| PatternSpec.YearComplete | app/handlers/task_detector.py:20 | any such layout of the year group is the one the matcher finds, ending at the same index |
| PatternSpec.ByWordDayAtIff | app/handlers/task_detector.py:20 | the "by <word> <day>[, <year>]" matcher succeeds at an index iff some split into "by", whitespace, word characters, whitespace, a day, an optional year and a word boundary exists there |
| PatternSpec.DeadlineDateSound | app/handlers/task_detector.py:30 | the group the date matcher captures is one the date pattern allows |
| PatternSpec.DeadlineDateIsLongest | app/handlers/task_detector.py:30 | wherever the date pattern can match, the matcher matches, with the same group start and a group at least as long as any the pattern allows |
| PatternSpec.DeadlineDateAtIff | app/handlers/task_detector.py:30 | the date matcher succeeds at an index iff the date pattern can match there |
| PatternSpec.DeadlineLabelSound | app/handlers/task_detector.py:33 | the group the label matcher captures is one the label pattern allows, and it cannot be extended to the right |
| PatternSpec.DeadlineLabelIsLatestLongest | app/handlers/task_detector.py:33 | wherever the label pattern can match, the matcher matches; its group starts no earlier than any allowed group and, from the same start, runs at least as far |
| PatternSpec.DeadlineLabelAtIff | app/handlers/task_detector.py:33 | the label matcher succeeds at an index iff the label pattern can match there |
| PatternSpec.KeywordPatternsIff | app/handlers/task_detector.py:6-15 | a pattern of the keyword list matches the lowered text iff a whole keyword, a "please <verb>" or a "by <Month> <day>" occurs in it as the reference definitions describe |
| PatternSpec.ChecklistIff | app/handlers/task_detector.py:17 | the checklist pattern matches iff some line starts with "- [ ] " or "- [x]" |
| PatternSpec.ByWordDayIff | app/handlers/task_detector.py:20 | the "by <word> <day>" pattern matches iff its reference definition holds at some index |
| PatternSpec.LooksLikeTaskSpecIff | app/handlers/task_detector.py:11-22 | `looks_like_task` is true iff a keyword rule fires on the lowered text, or a checklist line or a "by <word> <day>" phrase occurs in the text |
| PatternSpec.SearchIsLeftmost | app/handlers/task_detector.py:30-33 | `re.search` reports the first index at which the pattern matches |
| PatternSpec.DeadlineMatchAtIff | app/handlers/task_detector.py:30-33 | a deadline pattern is matched at an index iff its reference definition allows a match there |
| PatternSpec.ExtractDeadlineTakesLeftmostDate | app/handlers/task_detector.py:29-32 | when a date occurs, the deadline is the longest date group at the leftmost index where the date pattern matches |
| PatternSpec.ExtractDeadlineFallsBackToLabel | app/handlers/task_detector.py:29-35 | with no date anywhere, the deadline is the group after the leftmost usable "deadline" label; it starts as late and runs as far as the label pattern allows |
| PatternSpec.ExtractDeadlineNoneIff | app/handlers/task_detector.py:29-36 | no deadline is found iff neither the date nor the label pattern can match anywhere |
| Summarizer.BulletItem | app/handlers/summarizer.py:51 | the item of a bullet line is no longer than the line and neither starts nor ends with whitespace |
| Summarizer.DashLinesIff | app/handlers/summarizer.py:42 | a line is a bullet line iff it is one of the lines and its stripped form starts with "-" |
| Summarizer.DashLinesAppend | app/handlers/summarizer.py:42 | the bullet lines keep the order of the lines: filtering a concatenation is concatenating the filtered parts |
| Summarizer.StrippedBulletItems | app/handlers/summarizer.py:51 | the items of the bullet lines, one per line |
| Summarizer.BulletItems | app/handlers/summarizer.py:42 | the items of the bullet lines, one per line |
| Summarizer.FallbackItemsAreDashLines | app/handlers/summarizer.py:49-51 | the fallback's two filters, non-blank (`StrippedNonBlank`) and then "-" (`DashItems`), pick exactly the bullet lines in order, each stripped before its bullet is removed |
| Summarizer.MalformedItemsAreDashLines | app/handlers/summarizer.py:42 | the best-effort branch (`MalformedItems`) picks the same bullet lines in order and removes the bullet from the unstripped line |
| Summarizer.FirstNonBlank | app/handlers/summarizer.py:50 | the index found holds a non-blank line, unless there is none |
| Summarizer.FirstNonBlankIsFirst | app/handlers/summarizer.py:50 | every line before that index is blank |
| Summarizer.StrippedNonBlankFirst | app/handlers/summarizer.py:49-50 | the non-blank filter (`StrippedNonBlank`) gives nothing iff every line is blank; otherwise its first element is the first non-blank line, stripped |
| Summarizer.HasNonSpaceAround | app/handlers/summarizer.py:49 | cutting out a run of whitespace does not change whether the text has a non-whitespace character |
| Summarizer.SplitLinesHasNonSpace | app/handlers/summarizer.py:49-50 | a text has a non-whitespace character iff one of its lines has one |
| Summarizer.SummarizeFallback | app/handlers/summarizer.py:47-54 | total on every text: the title passes through; the deadline is `extract_deadline`'s; the deliverables are the items of the first five bullet lines in order; the summary is the first non-blank line stripped, or `content[:200]` when every line is blank |
| Summarizer.FallbackSummaryEmptyIff | app/handlers/summarizer.py:49-50 | the fallback summary is empty iff the text is empty |
| Summarizer.MalformedSummary | app/handlers/summarizer.py:38-45 | title kept and no deadline; at most five bullet items in order; the summary is the text when it has at most 400 characters, else its first 400 and "...", so at most 403 characters |
| Summarizer.SummarizeTaskOpenai | app/handlers/summarizer.py:15-45 | it raises exactly when the key is unset or the module is missing, or when the call itself raises; otherwise it gives the parsed reply, or the best-effort summary for an unparsable one |
| Pipeline.Header | main.py:92 | the header names the channel (`ChannelLabel`): its name when that is non-empty, else its id |
| Pipeline.StatusTextDistinct | main.py:56-69 | the four statuses have four different status strings (`StatusText`), so the answer tells them apart |
| Pipeline.Excerpt | main.py:102 | the excerpt is the whole text up to 600 characters, else its first 600 and "..." |
| Pipeline.Bullets | main.py:98-99 | one "- d" line per deliverable, in order |
| Pipeline.JoinAppend | main.py:104 | joining (`Join`) two non-empty lists puts one separator between their joins |
| Pipeline.SectionsLayout | main.py:91-103 | the sections (`Sections`): header, title and summary come first, then the heading and the bullets when there are deliverables, then the deadline line when the deadline is truthy; the excerpt and the call to action come last |
| Pipeline.FixedSectionsAreNotOptional | main.py:91-103 | the fixed sections and the bullets are neither the deliverables heading nor a deadline line |
| Pipeline.DeliverablesSectionIff | main.py:96-99 | the message has the deliverables heading iff the summary has deliverables |
| Pipeline.DeadlineLineIff | main.py:100-101 | the message has a deadline line iff the deadline is present and non-empty |
| Pipeline.SectionIsKnown | main.py:91-103 | without a deadline no section is a deadline line; without deliverables no section is the heading |
| Pipeline.DmMessageLayout | main.py:90-104 | the message (`DmMessage`) starts with header, title and summary and ends with the excerpt and the call to action, separated by blank lines |
| Pipeline.BuildDmMessage | main.py:90-104 | the appends and the loop over the deliverables build exactly the sections of `DmMessage`, joined by blank lines |
| Pipeline.BulletsSnoc | main.py:98-99 | one more deliverable appends one more bullet |
| Pipeline.ChooseSummary | main.py:74-81 | no key, a missing module or a raising call gives the fallback summary; otherwise the parsed reply, or the best-effort summary |
| Pipeline.TailMessage | main.py:71-88 | a message is sent iff the text has a non-whitespace character, to the author, with the text built from the chosen summary |
| Pipeline.Gate | main.py:53-69 | the status is "already seen" iff the id is in the store; "event type" iff it is new and the type is not allowed; "no task-like pattern" iff it is new, allowed and not a task; "accepted" otherwise |
| Pipeline.AcceptedEventGetsMessage | main.py:64-73 | an accepted event always gets its message, sent to its author |
| Pipeline.RunKeepsInvariant | main.py:64-68 | running the oldest scheduled task keeps the agent invariant (`IrisAgent.Valid`: the queue is the accepted events not yet run, their ids are distinct and stored, and each has an allowed type and looks like a task), and that task looks like a task |
| Pipeline.IrisAgent.constructor | main.py:13-15 | a fresh service holds the given store of seen ids, no scheduled task and an empty outbox, and satisfies the agent invariant |
| Pipeline.IrisAgent.WebhookEvents | main.py:47-69 | the status is `Gate` of the store before the call; a new id is stored whatever the status; only an accepted event is scheduled, once, at the end of the queue; the outbox is unchanged |
| Pipeline.IrisAgent.SendDm | main.py:86 | the message is appended to the outbox |
| Pipeline.IrisAgent.ProcessTaskMessage | main.py:71-88 | one message is sent to the author iff `extract_title` does not raise, and nothing is sent otherwise |
| Pipeline.IrisAgent.PopScheduled | main.py:68 | the oldest scheduled task leaves the queue, and its text has a non-whitespace character |
| Pipeline.IrisAgent.RunNextScheduled | main.py:68-88 | the oldest scheduled task runs and sends exactly one message, to its author; an empty queue changes nothing |
| Pipeline.RedeliveryIsIgnored | main.py:54-56 | a second delivery of the same event is "ignored-already-seen"; the two deliveries schedule the event once if the first is accepted and nothing otherwise, store its id and send nothing |
| Scenarios.NoDateWithoutB | app/handlers/task_detector.py:30 | a text without a "b" has no date match |
| Scenarios.DeadlineWithYear | app/handlers/task_detector.py:30-32 | "by May 5, 2025" gives the deadline "May 5, 2025" |
| Scenarios.DeadlineLabelKeepsOnlyTheSpace | app/handlers/task_detector.py:33-35 | "Deadline: Friday" gives the deadline " " |
| Scenarios.TitleIsFirstLine | app/handlers/task_detector.py:24-27 | "Fix it\nsoon" gives the title "Fix it" |
| Scenarios.ChecklistBulletKeepsBox | app/handlers/summarizer.py:51 | the bullet "- [ ] ab" gives the item "[ ] ab" |

## Left out

- Network I/O: the Telex client (`app/services/telex_client.py`) is an append to `IrisAgent.outbox`. A failing send, which the outer handler only logs, is not modelled.
- Redis (`app/services/redis_store.py`): the store is `IrisAgent.seen`, a set of ids. The `seen:` key prefix is irrelevant, and the 7-day expiry depends on the clock, so expiry is not modelled. A failing store call is not modelled.
- Configuration (`app/config.py`): reduced to the optional API key and whether the `openai` module imported (`Config`).
- The chat-completion call and `json.loads` with `TaskSummary(**obj)` (app/handlers/summarizer.py:18-37) are foreign code. Their outcome is the input `LlmReply`: the call raised, the reply parsed to a summary, or it did not. The prompt text is not modelled.
- FastAPI `BackgroundTasks`, async execution and uvicorn: the tail runs to completion when `RunNextScheduled` takes it. Tasks run in queue order, and concurrent tails are not modelled.
- Pipeline.IrisAgent.WebhookEvents: the seen-check and the store of the id (main.py:54-57) are two separate `await`s, but the model runs them as one atomic step. Two concurrent deliveries of one id can both pass the check before either stores the id, and then both are accepted and the author gets two messages; `RedeliveryIsIgnored` covers only deliveries one after the other.
- Logging (loguru), the JSON-RPC route, `app/a2a.py` and the agent card in main.py: these hold no decision logic.
- `authorName` and `timestamp` of `TelexMessageEvent` are carried but used by nothing, as in the source.
- PyStr.Lower: `str.lower()` is modelled on ASCII letters only. Every other character stays as it is, whereas Python also lowers non-ASCII letters.
- PyStr.IsWordChar: `\w` and `\b` are modelled as ASCII letters, digits and `_`. Python's `str` patterns also count non-ASCII letters and digits.
- PyStr.IsAsciiDigit: `\d` is modelled as `0`-`9`. Python's `str` patterns also accept other Unicode decimal digits.
- PyStr.LowerChar: `re.I` is modelled as ASCII case folding. Python also folds a few non-ASCII characters, such as the Kelvin sign, onto ASCII letters.
- TaskDetector.MatchAt: the matchers assume that Python's engine accepts the first successful path in its priority order. Each matcher follows that order for its own pattern; there is no general regular-expression engine. The `PatternSpec` definitions state which group a deadline pattern captures; they do not derive that group from the engine's backtracking rules.
