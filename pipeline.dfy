/** The message pipeline of main.py: the webhook gate over the store of seen
    message ids, the background tail that picks a summariser and sends one
    direct message, and the composition of that message.

    The Redis store of seen ids, the background-task queue and the Telex
    client's outbox are fields of `IrisAgent`. The language-model outcome and
    the service configuration are inputs of the tail. */
module Pipeline {
  import opened Wrappers
  import opened PyStr
  import opened TaskDetector
  import opened Summarizer

  /** `TelexMessageEvent` of app/models.py. */
  datatype TelexMessageEvent = TelexMessageEvent(
    eventType: string,
    messageId: string,
    channelId: string,
    channelName: Option<string>,
    authorId: string,
    authorName: Option<string>,
    content: string,
    timestamp: string)

  /** The statuses `webhook_events` answers with. */
  datatype Status = IgnoredAlreadySeen | IgnoredEventType | IgnoredNoTaskLikePattern | Accepted

  /** The `status` string of the JSON answer. */
  function StatusText(st: Status): (r: string)
    ensures |r| > 0
  {
    match st
    case IgnoredAlreadySeen => "ignored-already-seen"
    case IgnoredEventType => "ignored-event-type"
    case IgnoredNoTaskLikePattern => "ignored-no-task-like-pattern"
    case Accepted => "accepted"
  }

  /** Each status has its own string, so a client can tell them apart. */
  lemma StatusTextDistinct(a: Status, b: Status)
    ensures StatusText(a) == StatusText(b) ==> a == b
  {
  }

  /** The event types the webhook reacts to. */
  const AllowedEventTypes: seq<string> := ["message.created", "message.posted", "message.new"]

  predicate AllowedEventType(t: string) {
    t in AllowedEventTypes
  }

  /** Python truthiness of an optional string: present and non-empty. */
  predicate Truthy(o: Option<string>) {
    o.Some? && o.value != []
  }

  /** A direct message handed to the Telex client. */
  datatype DirectMessage = DirectMessage(recipient: string, text: string)

  // ---------------------------------------------------------------------
  // Composition of the direct message (`build_dm_message`)
  // ---------------------------------------------------------------------

  const HeaderLead: string := "\U{1F7E3} Iris detected a task in **"
  const DeliverablesHeading: string := "**Core deliverables:**"
  const DeadlineLead: string := "**Deadline:** "
  const ExcerptLead: string := "_Original message:_\n> "
  const CallToAction: string :=
    "\n" + "If you'd like, I can create a calendar reminder or add this to your personal todo list. Reply `@Iris remind me`."
  const Separator: string := "\n\n"

  /** `event.channel_name or event.channel_id`. */
  function ChannelLabel(e: TelexMessageEvent): string {
    if Truthy(e.channelName) then e.channelName.value else e.channelId
  }

  /** The first section: it names the channel by its name when that is
      non-empty, and by its id otherwise. */
  function Header(e: TelexMessageEvent): (r: string)
    ensures Truthy(e.channelName) ==> r == HeaderLead + e.channelName.value + "**"
    ensures !Truthy(e.channelName) ==> r == HeaderLead + e.channelId + "**"
  {
    HeaderLead + ChannelLabel(e) + "**"
  }

  /** The quoted excerpt: the whole text when it has at most 600 characters,
      else its first 600 characters and "...". */
  function Excerpt(content: string): (r: string)
    ensures |content| <= 600 ==> r == ExcerptLead + content
    ensures |content| > 600 ==> r == ExcerptLead + content[..600] + "..."
    ensures |r| <= |ExcerptLead| + 603
  {
    ExcerptLead + (Take(content, 600) + (if |content| > 600 then "..." else ""))
  }

  /** One "- d" line per deliverable, in order. */
  function Bullets(ds: seq<string>): (r: seq<string>)
    ensures |r| == |ds|
    ensures forall k :: 0 <= k < |ds| ==> r[k] == "- " + ds[k]
  {
    if ds == [] then [] else ["- " + ds[0]] + Bullets(ds[1..])
  }

  /** The deliverables block: a heading and the bullets, or nothing. */
  function DeliverablesBlock(ds: seq<string>): seq<string> {
    if ds != [] then [DeliverablesHeading] + Bullets(ds) else []
  }

  /** The deadline line, or nothing. */
  function DeadlineBlock(d: Option<string>): seq<string> {
    if Truthy(d) then [DeadlineLead + d.value] else []
  }

  /** The `lines` list of `build_dm_message`, in its fixed order. */
  function Sections(e: TelexMessageEvent, s: TaskSummary): seq<string> {
    [Header(e), "**Title:** " + s.title, "**Summary:** " + s.plainSummary]
    + DeliverablesBlock(s.deliverables)
    + DeadlineBlock(s.deadline)
    + [Excerpt(e.content), CallToAction]
  }

  /** `sep.join(parts)`. */
  function Join(sep: string, parts: seq<string>): string
    decreases |parts|
  {
    if parts == [] then ""
    else if |parts| == 1 then parts[0]
    else parts[0] + sep + Join(sep, parts[1..])
  }

  /** The text of the direct message. */
  function DmMessage(e: TelexMessageEvent, s: TaskSummary): string {
    Join(Separator, Sections(e, s))
  }

  /** Joining two non-empty lists equals joining each and putting the
      separator between them. */
  lemma {:induction false} JoinAppend(sep: string, a: seq<string>, b: seq<string>)
    requires a != [] && b != []
    ensures Join(sep, a + b) == Join(sep, a) + sep + Join(sep, b)
    decreases |a|
  {
    if |a| == 1 {
      assert (a + b)[1..] == b;
    } else {
      assert (a + b)[1..] == a[1..] + b;
      JoinAppend(sep, a[1..], b);
    }
  }

  /** The positions of the sections: header, title and summary come first;
      the deliverables block follows when there are deliverables, with its
      bullets in order; then the deadline line when there is a deadline; the
      excerpt and the call to action come last. */
  lemma SectionsLayout(e: TelexMessageEvent, s: TaskSummary)
    ensures var ls := Sections(e, s);
      var n := |DeliverablesBlock(s.deliverables)|;
      && |ls| == 5 + n + |DeadlineBlock(s.deadline)|
      && ls[0] == Header(e)
      && ls[1] == "**Title:** " + s.title
      && ls[2] == "**Summary:** " + s.plainSummary
      && (s.deliverables != [] ==>
            && n == |s.deliverables| + 1 && ls[3] == DeliverablesHeading
            && forall k :: 0 <= k < |s.deliverables| ==> ls[4 + k] == "- " + s.deliverables[k])
      && (s.deliverables == [] ==> n == 0)
      && (Truthy(s.deadline) ==> ls[3 + n] == DeadlineLead + s.deadline.value)
      && ls[|ls| - 2] == Excerpt(e.content)
      && ls[|ls| - 1] == CallToAction
  {
    var ls := Sections(e, s);
    var d := DeliverablesBlock(s.deliverables);
    if s.deliverables != [] {
      forall k | 0 <= k < |s.deliverables| ensures ls[4 + k] == "- " + s.deliverables[k] {
        assert ls[4 + k] == d[1 + k];
      }
    }
  }

  /** A section is the deliverables heading. */
  predicate IsDeliverablesHeading(l: string) {
    l == DeliverablesHeading
  }

  /** A section starts with the deadline label. */
  predicate IsDeadlineLine(l: string) {
    |l| >= |DeadlineLead| && l[..|DeadlineLead|] == DeadlineLead
  }

  /** A section that differs from both the deliverables heading and the
      deadline label at some position within the label is neither. */
  lemma NotOptionalAt(l: string, i: nat)
    requires i < |l| && i < |DeadlineLead| && i < |DeliverablesHeading|
    requires l[i] != DeadlineLead[i] && l[i] != DeliverablesHeading[i]
    ensures !IsDeliverablesHeading(l) && !IsDeadlineLine(l)
  {
    assert |l| >= |DeadlineLead| ==> l[..|DeadlineLead|][i] != DeadlineLead[i];
  }

  lemma HeaderIsNotOptional(e: TelexMessageEvent)
    ensures !IsDeliverablesHeading(Header(e)) && !IsDeadlineLine(Header(e))
  {
    assert Header(e)[0] == '\U{1F7E3}';
    NotOptionalAt(Header(e), 0);
  }

  lemma LabelIsNotOptional(lead: string, v: string)
    requires lead == "**Title:** " || lead == "**Summary:** "
    ensures !IsDeliverablesHeading(lead + v) && !IsDeadlineLine(lead + v)
  {
    assert (lead + v)[2] == lead[2];
    NotOptionalAt(lead + v, 2);
  }

  lemma ExcerptIsNotOptional(content: string)
    ensures !IsDeliverablesHeading(Excerpt(content)) && !IsDeadlineLine(Excerpt(content))
  {
    assert Excerpt(content)[0] == '_';
    NotOptionalAt(Excerpt(content), 0);
  }

  lemma CallToActionIsNotOptional()
    ensures !IsDeliverablesHeading(CallToAction) && !IsDeadlineLine(CallToAction)
  {
    assert CallToAction[0] == '\n';
    NotOptionalAt(CallToAction, 0);
  }

  lemma BulletIsNotOptional(d: string)
    ensures !IsDeliverablesHeading("- " + d) && !IsDeadlineLine("- " + d)
  {
    assert ("- " + d)[0] == '-';
    NotOptionalAt("- " + d, 0);
  }

  /** The sections other than the optional blocks are neither the
      deliverables heading nor a deadline line, and neither is a bullet. */
  lemma FixedSectionsAreNotOptional(e: TelexMessageEvent, s: TaskSummary, l: string)
    requires l in [Header(e), "**Title:** " + s.title, "**Summary:** " + s.plainSummary,
                   Excerpt(e.content), CallToAction] || (exists d :: d in s.deliverables && l == "- " + d)
    ensures !IsDeliverablesHeading(l) && !IsDeadlineLine(l)
  {
    if l == Header(e) {
      HeaderIsNotOptional(e);
    } else if l == "**Title:** " + s.title {
      LabelIsNotOptional("**Title:** ", s.title);
    } else if l == "**Summary:** " + s.plainSummary {
      LabelIsNotOptional("**Summary:** ", s.plainSummary);
    } else if l == Excerpt(e.content) {
      ExcerptIsNotOptional(e.content);
    } else if l == CallToAction {
      CallToActionIsNotOptional();
    } else {
      var d :| d in s.deliverables && l == "- " + d;
      BulletIsNotOptional(d);
    }
  }

  /** The message has the deliverables heading iff the summary has
      deliverables. */
  lemma DeliverablesSectionIff(e: TelexMessageEvent, s: TaskSummary)
    ensures (exists k :: 0 <= k < |Sections(e, s)| && IsDeliverablesHeading(Sections(e, s)[k]))
            <==> s.deliverables != []
  {
    var ls := Sections(e, s);
    SectionsLayout(e, s);
    if s.deliverables != [] {
      assert IsDeliverablesHeading(ls[3]);
    } else {
      forall k | 0 <= k < |ls| ensures !IsDeliverablesHeading(ls[k]) {
        SectionIsKnown(e, s, k);
      }
    }
  }

  /** The message has a deadline line iff the summary's deadline is a
      non-empty string. */
  lemma DeadlineLineIff(e: TelexMessageEvent, s: TaskSummary)
    ensures (exists k :: 0 <= k < |Sections(e, s)| && IsDeadlineLine(Sections(e, s)[k]))
            <==> Truthy(s.deadline)
  {
    var ls := Sections(e, s);
    SectionsLayout(e, s);
    if Truthy(s.deadline) {
      var k := 3 + |DeliverablesBlock(s.deliverables)|;
      assert ls[k][..|DeadlineLead|] == DeadlineLead;
      assert IsDeadlineLine(ls[k]);
    } else {
      forall k | 0 <= k < |ls| ensures !IsDeadlineLine(ls[k]) {
        SectionIsKnown(e, s, k);
      }
    }
  }

  /** Without a deadline every section is a fixed one, the heading or a
      bullet; without deliverables every section is fixed or the deadline
      line. */
  lemma SectionIsKnown(e: TelexMessageEvent, s: TaskSummary, k: nat)
    requires k < |Sections(e, s)|
    ensures !Truthy(s.deadline) ==> !IsDeadlineLine(Sections(e, s)[k])
    ensures s.deliverables == [] ==> !IsDeliverablesHeading(Sections(e, s)[k])
  {
    var ls := Sections(e, s);
    var n := |DeliverablesBlock(s.deliverables)|;
    var m := |DeadlineBlock(s.deadline)|;
    SectionsLayout(e, s);
    var l := ls[k];
    if k < 3 || k >= 3 + n + m {
      assert k == |ls| - 2 || k == |ls| - 1 || k < 3;
      FixedSectionsAreNotOptional(e, s, l);
    } else if k < 3 + n {
      if k > 3 {
        assert s.deliverables[k - 4] in s.deliverables;
        FixedSectionsAreNotOptional(e, s, l);
      } else {
        assert l == DeliverablesHeading;
        assert l[2] == 'C';
      }
    } else {
      assert l == DeadlineLead + s.deadline.value;
      assert l[2] == 'D';
    }
  }

  lemma JoinTwo(sep: string, a: string, b: string)
    ensures Join(sep, [a, b]) == a + sep + b
  {
    assert [a, b][1..] == [b];
  }

  lemma JoinThree(sep: string, a: string, b: string, c: string)
    ensures Join(sep, [a, b, c]) == a + sep + b + sep + c
  {
    assert [a, b, c][1..] == [b, c];
    JoinTwo(sep, b, c);
  }

  lemma ConcatAssoc(x: string, a: string, b: string, c: string)
    ensures x + (a + b + c) == x + a + b + c
  {
  }

  /** Joining a list with a fixed head and a fixed tail puts the joined head
      first and the joined tail last, whatever lies between them. */
  lemma JoinAround(sep: string, head: seq<string>, d1: seq<string>, d2: seq<string>, tail: seq<string>)
    requires head != [] && tail != []
    ensures exists mid: string :: Join(sep, head + d1 + d2 + tail) == Join(sep, head) + mid + Join(sep, tail)
  {
    if d1 + d2 == [] {
      JoinAroundNothing(sep, head, d1, d2, tail);
    } else {
      JoinAroundSome(sep, head, d1, d2, tail);
    }
  }

  lemma JoinAroundNothing(sep: string, head: seq<string>, d1: seq<string>, d2: seq<string>, tail: seq<string>)
    requires head != [] && tail != [] && d1 + d2 == []
    ensures Join(sep, head + d1 + d2 + tail) == Join(sep, head) + sep + Join(sep, tail)
  {
    assert d1 == [] && d2 == [];
    assert head + d1 + d2 + tail == head + tail;
    JoinAppend(sep, head, tail);
  }

  lemma JoinAroundSome(sep: string, head: seq<string>, d1: seq<string>, d2: seq<string>, tail: seq<string>)
    requires head != [] && tail != [] && d1 + d2 != []
    ensures Join(sep, head + d1 + d2 + tail) == Join(sep, head) + (sep + Join(sep, d1 + d2) + sep) + Join(sep, tail)
  {
    AppendAssoc(head, d1, d2);
    AppendAssoc(head, d1 + d2, tail);
    JoinAppend(sep, head, d1 + d2 + tail);
    JoinAppend(sep, d1 + d2, tail);
  }

  /** The joined message is the joined fixed head, the optional sections
      between separators, and the joined fixed tail. */
  lemma DmMessageSplit(e: TelexMessageEvent, s: TaskSummary)
    ensures exists mid: string ::
      DmMessage(e, s)
        == Join(Separator, [Header(e), "**Title:** " + s.title, "**Summary:** " + s.plainSummary])
           + mid + Join(Separator, [Excerpt(e.content), CallToAction])
  {
    JoinAround(Separator, [Header(e), "**Title:** " + s.title, "**Summary:** " + s.plainSummary],
      DeliverablesBlock(s.deliverables), DeadlineBlock(s.deadline), [Excerpt(e.content), CallToAction]);
  }

  /** The message starts with the header, title and summary sections and
      ends with the excerpt and the call to action, all separated by blank
      lines. */
  lemma DmMessageLayout(e: TelexMessageEvent, s: TaskSummary)
    ensures exists mid: string ::
      DmMessage(e, s) == Header(e) + Separator + ("**Title:** " + s.title) + Separator
        + ("**Summary:** " + s.plainSummary) + mid + Excerpt(e.content) + Separator + CallToAction
  {
    DmMessageSplit(e, s);
    var h := [Header(e), "**Title:** " + s.title, "**Summary:** " + s.plainSummary];
    var t := [Excerpt(e.content), CallToAction];
    var mid :| DmMessage(e, s) == Join(Separator, h) + mid + Join(Separator, t);
    JoinThree(Separator, h[0], h[1], h[2]);
    JoinTwo(Separator, t[0], t[1]);
    ConcatAssoc(Join(Separator, h) + mid, t[0], Separator, t[1]);
  }

  /** `build_dm_message`: the list of lines is built by appends, with a loop
      over the deliverables, and joined with blank lines. */
  method BuildDmMessage(e: TelexMessageEvent, s: TaskSummary) returns (dm: string)
    ensures dm == DmMessage(e, s)
  {
    var lines := [Header(e), "**Title:** " + s.title, "**Summary:** " + s.plainSummary];
    ghost var head := lines;
    if s.deliverables != [] {
      lines := lines + [DeliverablesHeading];
      for i := 0 to |s.deliverables|
        invariant lines == head + ([DeliverablesHeading] + Bullets(s.deliverables[..i]))
      {
        BulletsSnoc(s.deliverables[..i], s.deliverables[i]);
        assert s.deliverables[..i + 1] == s.deliverables[..i] + [s.deliverables[i]];
        AppendAssoc(head, [DeliverablesHeading] + Bullets(s.deliverables[..i]), ["- " + s.deliverables[i]]);
        AppendAssoc([DeliverablesHeading], Bullets(s.deliverables[..i]), ["- " + s.deliverables[i]]);
        lines := lines + ["- " + s.deliverables[i]];
      }
      assert s.deliverables[..|s.deliverables|] == s.deliverables;
    } else {
      assert lines == head + [];
    }
    assert lines == head + DeliverablesBlock(s.deliverables);
    if Truthy(s.deadline) {
      lines := lines + [DeadlineLead + s.deadline.value];
    } else {
      assert lines == lines + [];
    }
    assert lines == head + DeliverablesBlock(s.deliverables) + DeadlineBlock(s.deadline);
    lines := lines + [Excerpt(e.content)];
    lines := lines + [CallToAction];
    AppendTwo(head + DeliverablesBlock(s.deliverables) + DeadlineBlock(s.deadline), Excerpt(e.content), CallToAction);
    dm := Join(Separator, lines);
  }

  lemma AppendAssoc<T>(a: seq<T>, b: seq<T>, c: seq<T>)
    ensures a + b + c == a + (b + c)
  {
  }

  lemma AppendTwo<T>(a: seq<T>, x: T, y: T)
    ensures a + [x] + [y] == a + [x, y]
  {
  }

  /** Appending one deliverable appends one bullet. */
  lemma {:induction false} BulletsSnoc(ds: seq<string>, d: string)
    ensures Bullets(ds + [d]) == Bullets(ds) + ["- " + d]
    decreases |ds|
  {
    if ds == [] {
      assert [d][1..] == [];
    } else {
      assert (ds + [d])[1..] == ds[1..] + [d];
      BulletsSnoc(ds[1..], d);
    }
  }

  // ---------------------------------------------------------------------
  // Strategy selection of `process_task_message`
  // ---------------------------------------------------------------------

  /** The summary `process_task_message` uses: the model-backed summariser
      when a key is set and it does not raise, the fallback otherwise. */
  function ChooseSummary(cfg: Config, reply: LlmReply, title: string, content: string): (r: TaskSummary)
    ensures !KeyConfigured(cfg) ==> r == SummarizeFallback(title, content)
    ensures KeyConfigured(cfg) && !cfg.openaiInstalled ==> r == SummarizeFallback(title, content)
    ensures KeyConfigured(cfg) && cfg.openaiInstalled && reply.CallRaised? ==> r == SummarizeFallback(title, content)
    ensures KeyConfigured(cfg) && cfg.openaiInstalled && reply.Replied? && reply.parsed.Some? ==>
      r == reply.parsed.value
    ensures KeyConfigured(cfg) && cfg.openaiInstalled && reply.Replied? && reply.parsed.None? ==>
      r == MalformedSummary(title, content)
  {
    if KeyConfigured(cfg) then
      match SummarizeTaskOpenai(cfg, reply, title, content)
      case Success(v) => v
      case Failure(_) => SummarizeFallback(title, content)
    else SummarizeFallback(title, content)
  }

  /** The direct message the tail sends for an event, if any:
      `extract_title` raises on a text without a non-whitespace character,
      and the outer handler then only logs. */
  function TailMessage(e: TelexMessageEvent, cfg: Config, reply: LlmReply): (r: Option<DirectMessage>)
    ensures r.Some? <==> HasNonSpace(e.content)
    ensures r.Some? ==> r.value.recipient == e.authorId
    ensures r.Some? ==> r.value.text == DmMessage(e, ChooseSummary(cfg, reply, ExtractTitle(e.content), e.content))
  {
    if HasNonSpace(e.content) then
      Some(DirectMessage(e.authorId, DmMessage(e, ChooseSummary(cfg, reply, ExtractTitle(e.content), e.content))))
    else None
  }

  /** The webhook's decision for an event, given the ids seen so far. */
  function Gate(seen: set<string>, e: TelexMessageEvent): (st: Status)
    ensures st == IgnoredAlreadySeen <==> e.messageId in seen
    ensures st == IgnoredEventType <==> e.messageId !in seen && !AllowedEventType(e.eventType)
    ensures st == IgnoredNoTaskLikePattern <==>
      e.messageId !in seen && AllowedEventType(e.eventType) && !LooksLikeTask(e.content)
    ensures st == Accepted <==>
      e.messageId !in seen && AllowedEventType(e.eventType) && LooksLikeTask(e.content)
  {
    if e.messageId in seen then IgnoredAlreadySeen
    else if !AllowedEventType(e.eventType) then IgnoredEventType
    else if !LooksLikeTask(e.content) then IgnoredNoTaskLikePattern
    else Accepted
  }

  /** An accepted event always gets its message: its text looks like a task,
      so it holds a non-whitespace character and `extract_title` succeeds. */
  lemma AcceptedEventGetsMessage(seen: set<string>, e: TelexMessageEvent, cfg: Config, reply: LlmReply)
    requires Gate(seen, e) == Accepted
    ensures TailMessage(e, cfg, reply).Some?
    ensures TailMessage(e, cfg, reply).value.recipient == e.authorId
  {
    LooksLikeTaskHasNonSpace(e.content);
  }

  // ---------------------------------------------------------------------
  // The agent's state
  // ---------------------------------------------------------------------

  /** What the agent keeps true between requests: the scheduled tasks are the
      accepted events from index `ran` on, and the accepted events have
      distinct ids, all seen, and passed both gates. */
  ghost predicate AgentInvariant(seen: set<string>, scheduled: seq<TelexMessageEvent>,
                                 accepted: seq<TelexMessageEvent>, ran: nat)
  {
    && ran <= |accepted|
    && scheduled == accepted[ran..]
    && (forall i, j :: 0 <= i < j < |accepted| ==> accepted[i].messageId != accepted[j].messageId)
    && (forall i :: 0 <= i < |accepted| ==> accepted[i].messageId in seen)
    && (forall i :: 0 <= i < |accepted| ==>
          AllowedEventType(accepted[i].eventType) && LooksLikeTask(accepted[i].content))
  }

  /** Running the oldest scheduled task keeps the invariant, and that task is
      an accepted event, so its text looks like a task. */
  lemma RunKeepsInvariant(seen: set<string>, scheduled: seq<TelexMessageEvent>,
                          accepted: seq<TelexMessageEvent>, ran: nat)
    requires AgentInvariant(seen, scheduled, accepted, ran) && scheduled != []
    ensures AgentInvariant(seen, scheduled[1..], accepted, ran + 1)
    ensures LooksLikeTask(scheduled[0].content)
  {
    assert scheduled[0] == accepted[ran];
    assert scheduled[1..] == accepted[ran + 1..];
  }

  /** The service state `webhook_events` and its tail work on: the store of
      seen ids, the background tasks not yet run, and the messages handed
      to the Telex client. `accepted` is every event ever scheduled, and
      `ran` how many of them have run. */
  class IrisAgent {
    var seen: set<string>
    var scheduled: seq<TelexMessageEvent>
    var outbox: seq<DirectMessage>
    ghost var accepted: seq<TelexMessageEvent>
    ghost var ran: nat

    /** The scheduled tasks are the accepted events that have not run yet;
        accepted events have distinct ids, all seen, and passed both gates. */
    ghost predicate Valid()
      reads this
    {
      AgentInvariant(seen, scheduled, accepted, ran)
    }

    /** A service started over an existing store of seen ids. */
    constructor (stored: set<string>)
      ensures Valid()
      ensures seen == stored && scheduled == [] && outbox == [] && accepted == []
    {
      seen := stored;
      scheduled := [];
      outbox := [];
      accepted := [];
      ran := 0;
    }

    /** `webhook_events`: a seen id is ignored and changes nothing; any other
        id is marked seen before the type and classifier gates; an accepted
        event schedules exactly one tail. */
    method WebhookEvents(e: TelexMessageEvent) returns (status: Status)
      requires Valid()
      modifies this
      ensures Valid()
      ensures status == Gate(old(seen), e)
      ensures seen == old(seen) + {e.messageId}
      ensures status == Accepted ==> scheduled == old(scheduled) + [e] && accepted == old(accepted) + [e]
      ensures status != Accepted ==> scheduled == old(scheduled) && accepted == old(accepted)
      ensures outbox == old(outbox) && ran == old(ran)
    {
      if e.messageId in seen {
        return IgnoredAlreadySeen;
      }
      seen := seen + {e.messageId};
      if !AllowedEventType(e.eventType) {
        return IgnoredEventType;
      }
      if !LooksLikeTask(e.content) {
        return IgnoredNoTaskLikePattern;
      }
      scheduled := scheduled + [e];
      accepted := accepted + [e];
      return Accepted;
    }

    /** `telex_client.send_dm`: the message is handed to the client. */
    method SendDm(recipient: string, text: string)
      modifies this`outbox
      ensures outbox == old(outbox) + [DirectMessage(recipient, text)]
    {
      outbox := outbox + [DirectMessage(recipient, text)];
    }

    /** `process_task_message`: extract the title, choose the summary, build
        the message and send it to the author; when `extract_title` raises
        nothing is sent. */
    method ProcessTaskMessage(e: TelexMessageEvent, cfg: Config, reply: LlmReply)
      modifies this`outbox
      ensures HasNonSpace(e.content) ==> outbox == old(outbox) + [TailMessage(e, cfg, reply).value]
      ensures !HasNonSpace(e.content) ==> outbox == old(outbox)
    {
      if !HasNonSpace(e.content) {
        return;
      }
      var title := ExtractTitle(e.content);
      var summary := ChooseSummary(cfg, reply, title, e.content);
      var dm := BuildDmMessage(e, summary);
      SendDm(e.authorId, dm);
    }

    /** Removes the oldest scheduled tail from the queue; its text holds a
        non-whitespace character, since it passed the classifier. */
    method PopScheduled() returns (e: TelexMessageEvent)
      requires Valid() && scheduled != []
      modifies this`scheduled, this`ran
      ensures Valid()
      ensures e == old(scheduled)[0] && scheduled == old(scheduled)[1..] && ran == old(ran) + 1
      ensures HasNonSpace(e.content)
    {
      e := scheduled[0];
      RunKeepsInvariant(seen, scheduled, accepted, ran);
      LooksLikeTaskHasNonSpace(e.content);
      scheduled := scheduled[1..];
      ran := ran + 1;
    }

    /** Runs the oldest scheduled tail, if any, with the given language-model
        outcome. Every accepted event that runs sends exactly one message, to
        its author. */
    method RunNextScheduled(cfg: Config, reply: LlmReply) returns (didRun: bool)
      requires Valid()
      modifies this
      ensures Valid()
      ensures didRun <==> old(scheduled) != []
      ensures seen == old(seen) && accepted == old(accepted)
      ensures !didRun ==> scheduled == old(scheduled) && outbox == old(outbox) && ran == old(ran)
      ensures didRun ==> scheduled == old(scheduled)[1..] && ran == old(ran) + 1
      ensures didRun ==> (
        && TailMessage(old(scheduled)[0], cfg, reply).Some?
        && outbox == old(outbox) + [TailMessage(old(scheduled)[0], cfg, reply).value]
        && outbox[|outbox| - 1].recipient == old(scheduled)[0].authorId)
    {
      if scheduled == [] {
        return false;
      }
      var e := PopScheduled();
      ProcessTaskMessage(e, cfg, reply);
      return true;
    }
  }

  /** A message delivered twice by Telex, one delivery after the other, is
      processed once: the second delivery is answered
      "ignored-already-seen" and schedules nothing. */
  method RedeliveryIsIgnored(agent: IrisAgent, e: TelexMessageEvent) returns (first: Status, second: Status)
    requires agent.Valid()
    modifies agent
    ensures agent.Valid()
    ensures second == IgnoredAlreadySeen
    ensures |agent.scheduled| <= |old(agent.scheduled)| + 1
    ensures first == Accepted <==> agent.scheduled == old(agent.scheduled) + [e]
    ensures first != Accepted ==> agent.scheduled == old(agent.scheduled)
    ensures agent.seen == old(agent.seen) + {e.messageId}
    ensures agent.outbox == old(agent.outbox)
  {
    first := agent.WebhookEvents(e);
    second := agent.WebhookEvents(e);
  }
}
