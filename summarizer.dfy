/** The two summarisation strategies of app/handlers/summarizer.py. The
    model-backed one depends on a language-model call and on `json.loads` of
    its reply; both are foreign, so their outcome is an input (`LlmReply`). */
module Summarizer {
  import opened Wrappers
  import opened PyStr
  import opened TaskDetector

  /** `TaskSummary` of app/models.py. */
  datatype TaskSummary = TaskSummary(
    title: string,
    deliverables: seq<string>,
    deadline: Option<string>,
    plainSummary: string)

  /** What the service configuration says about the language model:
      `settings.openai_api_key` and whether the `openai` module imported. */
  datatype Config = Config(openaiApiKey: Option<string>, openaiInstalled: bool)

  /** `settings.openai_api_key` is truthy: set and non-empty. */
  predicate KeyConfigured(cfg: Config) {
    cfg.openaiApiKey.Some? && cfg.openaiApiKey.value != []
  }

  /** The outcome of the chat-completion call: it raised, or it returned text
      that `json.loads` + `TaskSummary(**obj)` either accepted (`Some`) or
      rejected (`None`). */
  datatype LlmReply = CallRaised | Replied(parsed: Option<TaskSummary>)

  /** Why `summarize_task_openai` raised. */
  datatype SummarizeError = NotConfigured | CallFailed

  /** `l.strip("-* ").strip()`: the item of a bullet line. */
  function BulletItem(l: string): (r: string)
    ensures |r| <= |l|
    ensures r != [] ==> !IsSpace(r[0]) && !IsSpace(r[|r| - 1])
  {
    StripEnds(StripWith(l, BulletChar));
    Strip(StripWith(l, BulletChar))
  }

  /** The raw lines whose stripped form starts with "-": the bullet lines of
      both strategies, in source order. */
  function DashLines(ls: seq<string>): (r: seq<string>)
    ensures |r| <= |ls|
  {
    if ls == [] then []
    else if StartsWithDash(Strip(ls[0])) then [ls[0]] + DashLines(ls[1..])
    else DashLines(ls[1..])
  }

  /** The bullet lines keep the order of the lines: those of a first part
      come before those of the rest. */
  lemma {:induction false} DashLinesAppend(a: seq<string>, b: seq<string>)
    ensures DashLines(a + b) == DashLines(a) + DashLines(b)
    decreases |a|
  {
    if a != [] {
      DashLinesAppend(a[1..], b);
      assert (a + b)[0] == a[0] && (a + b)[1..] == a[1..] + b;
    } else {
      assert a + b == b;
    }
  }

  /** A line is kept as a bullet line iff it is one of the lines and its
      stripped form starts with "-". */
  lemma {:induction false} DashLinesIff(ls: seq<string>, l: string)
    ensures l in DashLines(ls) <==> l in ls && StartsWithDash(Strip(l))
    decreases |ls|
  {
    if ls != [] {
      DashLinesIff(ls[1..], l);
      assert ls == [ls[0]] + ls[1..];
    }
  }

  /** `[l.strip() for l in ls if l.strip()]`. */
  function StrippedNonBlank(ls: seq<string>): seq<string> {
    if ls == [] then []
    else if Strip(ls[0]) != [] then [Strip(ls[0])] + StrippedNonBlank(ls[1..])
    else StrippedNonBlank(ls[1..])
  }

  /** `[l.strip("-* ").strip() for l in ls if l.startswith("-")]`. */
  function DashItems(ls: seq<string>): seq<string> {
    if ls == [] then []
    else if StartsWithDash(ls[0]) then [BulletItem(ls[0])] + DashItems(ls[1..])
    else DashItems(ls[1..])
  }

  /** `[line.strip("-* ").strip() for line in ls if line.strip().startswith("-")]`. */
  function MalformedItems(ls: seq<string>): seq<string> {
    if ls == [] then []
    else if StartsWithDash(Strip(ls[0])) then [BulletItem(ls[0])] + MalformedItems(ls[1..])
    else MalformedItems(ls[1..])
  }

  /** The items of bullet lines that are stripped before their bullet is
      removed. */
  function StrippedBulletItems(ls: seq<string>): (r: seq<string>)
    ensures |r| == |ls|
  {
    if ls == [] then [] else [BulletItem(Strip(ls[0]))] + StrippedBulletItems(ls[1..])
  }

  /** The items of bullet lines whose bullet is removed as they stand. */
  function BulletItems(ls: seq<string>): (r: seq<string>)
    ensures |r| == |ls|
  {
    if ls == [] then [] else [BulletItem(ls[0])] + BulletItems(ls[1..])
  }

  /** The fallback's two-stage filter (non-blank, then bullet) picks exactly
      the bullet lines, each stripped before its bullet is removed. */
  lemma {:induction false} FallbackItemsAreDashLines(ls: seq<string>)
    ensures DashItems(StrippedNonBlank(ls)) == StrippedBulletItems(DashLines(ls))
  {
    if ls != [] {
      FallbackItemsAreDashLines(ls[1..]);
      var t := Strip(ls[0]);
      var rest := StrippedNonBlank(ls[1..]);
      if t == [] {
        assert StrippedNonBlank(ls) == rest;
        assert DashLines(ls) == DashLines(ls[1..]);
      } else {
        assert StrippedNonBlank(ls) == [t] + rest;
        assert ([t] + rest)[1..] == rest;
        if StartsWithDash(t) {
          assert DashItems([t] + rest) == [BulletItem(t)] + DashItems(rest);
          var d := DashLines(ls[1..]);
          assert DashLines(ls) == [ls[0]] + d;
          assert ([ls[0]] + d)[1..] == d;
        } else {
          assert DashItems([t] + rest) == DashItems(rest);
          assert DashLines(ls) == DashLines(ls[1..]);
        }
      }
    }
  }

  /** The malformed-reply branch picks the same bullet lines, but removes the
      bullet from the unstripped line. */
  lemma {:induction false} MalformedItemsAreDashLines(ls: seq<string>)
    ensures MalformedItems(ls) == BulletItems(DashLines(ls))
  {
    if ls != [] {
      MalformedItemsAreDashLines(ls[1..]);
      var d := DashLines(ls[1..]);
      if StartsWithDash(Strip(ls[0])) {
        assert DashLines(ls) == [ls[0]] + d;
        assert ([ls[0]] + d)[1..] == d;
      } else {
        assert DashLines(ls) == d;
      }
    }
  }

  /** The index of the first line holding a non-whitespace character, or
      `|ls|` when there is none. */
  function FirstNonBlank(ls: seq<string>): (k: nat)
    ensures k <= |ls|
    ensures k < |ls| ==> HasNonSpace(ls[k])
  {
    if ls == [] then 0
    else if HasNonSpace(ls[0]) then 0
    else 1 + FirstNonBlank(ls[1..])
  }

  /** Every line before `FirstNonBlank(ls)` is blank. */
  lemma {:induction false} FirstNonBlankIsFirst(ls: seq<string>)
    ensures forall j :: 0 <= j < FirstNonBlank(ls) ==> !HasNonSpace(ls[j])
  {
    if ls != [] && !HasNonSpace(ls[0]) {
      FirstNonBlankIsFirst(ls[1..]);
      forall j | 1 <= j < FirstNonBlank(ls) ensures !HasNonSpace(ls[j]) {
        assert ls[j] == ls[1..][j - 1];
      }
    }
  }

  /** Nothing survives the non-blank filter iff no line is non-blank; when
      something does, the first survivor is the first non-blank line,
      stripped. */
  lemma {:induction false} StrippedNonBlankFirst(ls: seq<string>)
    ensures StrippedNonBlank(ls) == [] <==> FirstNonBlank(ls) == |ls|
    ensures StrippedNonBlank(ls) != [] ==> StrippedNonBlank(ls)[0] == Strip(ls[FirstNonBlank(ls)])
  {
    if ls != [] {
      StripEmptyIff(ls[0]);
      if !HasNonSpace(ls[0]) {
        StrippedNonBlankFirst(ls[1..]);
        assert StrippedNonBlank(ls) == StrippedNonBlank(ls[1..]);
        assert FirstNonBlank(ls) == 1 + FirstNonBlank(ls[1..]);
      }
    }
  }

  /** Cutting out a run of whitespace does not change whether a text has a
      non-whitespace character. */
  lemma HasNonSpaceAround(s: string, k: nat, w: nat)
    requires k + w <= |s|
    requires forall j :: k <= j < k + w ==> IsSpace(s[j])
    ensures HasNonSpace(s) <==> HasNonSpace(s[..k]) || HasNonSpace(s[k + w..])
  {
    if HasNonSpace(s) {
      var j :| 0 <= j < |s| && !IsSpace(s[j]);
      if j < k {
        assert s[..k][j] == s[j];
      } else {
        assert s[k + w..][j - k - w] == s[j];
      }
    }
    if HasNonSpace(s[..k]) {
      var j :| 0 <= j < k && !IsSpace(s[..k][j]);
      assert s[j] == s[..k][j];
    }
    if HasNonSpace(s[k + w..]) {
      var j :| 0 <= j < |s[k + w..]| && !IsSpace(s[k + w..][j]);
      assert s[k + w + j] == s[k + w..][j];
    }
  }

  lemma FirstNonBlankCons(a: string, t: seq<string>)
    ensures FirstNonBlank([a] + t) == if HasNonSpace(a) then 0 else 1 + FirstNonBlank(t)
  {
    assert ([a] + t)[0] == a;
    assert ([a] + t)[1..] == t;
  }

  /** One step of `SplitLinesHasNonSpace`: the first line, a whitespace
      boundary of width `w`, then the lines of the rest. */
  lemma HasNonSpaceStep(s: string, k: nat, w: nat, lines: seq<string>, restLines: seq<string>)
    requires k + w <= |s|
    requires forall j :: k <= j < k + w ==> IsSpace(s[j])
    requires lines == [s[..k]] + restLines
    requires HasNonSpace(s[k + w..]) <==> FirstNonBlank(restLines) < |restLines|
    ensures HasNonSpace(s) <==> FirstNonBlank(lines) < |lines|
  {
    FirstNonBlankCons(s[..k], restLines);
    HasNonSpaceAround(s, k, w);
  }

  /** A text has a non-whitespace character iff one of its lines has: line
      boundaries are whitespace. */
  lemma {:induction false} SplitLinesHasNonSpace(s: string)
    ensures HasNonSpace(s) <==> FirstNonBlank(SplitLines(s)) < |SplitLines(s)|
    decreases |s|, 1
  {
    if s != [] {
      if LineEnd(s) == |s| {
        HasNonSpaceStep(s, |s|, 0, SplitLines(s), []);
      } else {
        SplitLinesHasNonSpaceCons(s);
      }
    }
  }

  /** The step of `SplitLinesHasNonSpace` for a text with a line boundary. */
  lemma {:induction false} SplitLinesHasNonSpaceCons(s: string)
    requires LineEnd(s) < |s|
    ensures HasNonSpace(s) <==> FirstNonBlank(SplitLines(s)) < |SplitLines(s)|
    decreases |s|, 0
  {
    var k := LineEnd(s);
    var w := BreakWidth(s, k);
    SplitLinesHasNonSpace(s[k + w..]);
    assert IsSpace(s[k]);
    assert w == 2 ==> IsSpace(s[k + 1]);
    HasNonSpaceStep(s, k, w, SplitLines(s), SplitLines(s[k + w..]));
  }

  /** `summarize_fallback`, total on every text: the title passes through,
      the deadline is `extract_deadline`'s, the deliverables are the first
      five bullet lines without their bullets, and the summary is the first
      non-blank line, or the first 200 characters of an all-blank text. */
  function SummarizeFallback(title: string, content: string): (r: TaskSummary)
    ensures r.title == title
    ensures r.deadline == ExtractDeadline(content)
    ensures r.deliverables == Take(StrippedBulletItems(DashLines(SplitLines(content))), 5)
    ensures |r.deliverables| <= 5
    ensures HasNonSpace(content) ==>
      FirstNonBlank(SplitLines(content)) < |SplitLines(content)|
      && r.plainSummary == Strip(SplitLines(content)[FirstNonBlank(SplitLines(content))])
    ensures !HasNonSpace(content) ==> r.plainSummary == Take(content, 200)
  {
    var ls := SplitLines(content);
    var lines := StrippedNonBlank(ls);
    FallbackItemsAreDashLines(ls);
    StrippedNonBlankFirst(ls);
    SplitLinesHasNonSpace(content);
    var summary := if lines != [] then lines[0] else Take(content, 200);
    TaskSummary(title, Take(DashItems(lines), 5), ExtractDeadline(content), summary)
  }

  /** The fallback summary is empty only for the empty text. */
  lemma FallbackSummaryEmptyIff(title: string, content: string)
    ensures SummarizeFallback(title, content).plainSummary == [] <==> content == []
  {
    var r := SummarizeFallback(title, content);
    if HasNonSpace(content) {
      StripEmptyIff(SplitLines(content)[FirstNonBlank(SplitLines(content))]);
    } else if content != [] {
      assert |Take(content, 200)| > 0;
    }
  }

  /** The best-effort result of `summarize_task_openai` when the reply is not
      a `TaskSummary` as JSON. */
  function MalformedSummary(title: string, content: string): (r: TaskSummary)
    ensures r.title == title && r.deadline == None
    ensures r.deliverables == Take(BulletItems(DashLines(SplitLines(content))), 5)
    ensures |r.deliverables| <= 5
    ensures |r.plainSummary| <= 403
    ensures |content| <= 400 ==> r.plainSummary == content
    ensures |content| > 400 ==> r.plainSummary == content[..400] + "..."
  {
    var ls := SplitLines(content);
    MalformedItemsAreDashLines(ls);
    var summary := if |content| > 400 then content[..400] + "..." else content;
    TaskSummary(title, Take(MalformedItems(ls), 5), None, summary)
  }

  /** `summarize_task_openai`: raises when the key is not set or the module is
      missing, passes a raising call on, returns the parsed reply when it is
      a `TaskSummary`, and the best-effort summary otherwise. */
  function SummarizeTaskOpenai(cfg: Config, reply: LlmReply, title: string, content: string)
    : (r: Result<TaskSummary, SummarizeError>)
    ensures r == Failure(NotConfigured) <==> !KeyConfigured(cfg) || !cfg.openaiInstalled
    ensures r == Failure(CallFailed) <==> KeyConfigured(cfg) && cfg.openaiInstalled && reply.CallRaised?
    ensures r.Success? && (reply.CallRaised? || reply.parsed.None?) ==>
      r.value == MalformedSummary(title, content)
    ensures r.Success? && reply.Replied? && reply.parsed.Some? ==> r.value == reply.parsed.value
  {
    if !KeyConfigured(cfg) || !cfg.openaiInstalled then Failure(NotConfigured)
    else match reply
      case CallRaised => Failure(CallFailed)
      case Replied(Some(s)) => Success(s)
      case Replied(None) => Success(MalformedSummary(title, content))
  }
}
