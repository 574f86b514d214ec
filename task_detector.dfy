/** The task classifier of app/handlers/task_detector.py: which message texts
    look like a task, and the best-effort title and deadline of one.

    Every regular expression of the source is a constructor of `Pattern`.
    `MatchAt(p, s, i)` is the match that Python's backtracking engine finds
    when it tries `p` at index `i` (the first successful path in its priority
    order), and `Search(p, s)` is the leftmost index where `p` matches, which
    is what `re.search` reports. */
module TaskDetector {
  import opened Wrappers
  import opened PyStr

  /** Half-open index range into the searched text: the whole match, or the
      captured group for patterns that have one. */
  datatype Span = Span(start: nat, end: nat)

  /** A keyword of `TASK_KEYWORDS` that is a plain lower-case word. */
  type Word = w: string | w != [] && forall j :: 0 <= j < |w| ==> IsAsciiLower(w[j]) witness "a"

  datatype Pattern =
    | Keyword(word: Word)   // \bWORD\b, case-insensitive
    | PleaseVerb            // \bplease\s+(?:do|complete|implement|review)\b, case-insensitive
    | ByMonthDay            // \bby\s+[A-Z][a-z]+ \d{1,2}\b, case-insensitive
    | Checklist             // ^- \[ \] |^- \[x\], multi-line, case-sensitive
    | ByWordDay             // \bby\s+\w+\s+\d{1,2}(?:,?\s+\d{4})?\b, case-insensitive
    | DeadlineDate          // by\s+([A-Z][a-z]+\s+\d{1,2}(?:,?\s+\d{4})?), case-sensitive
    | DeadlineLabel         // deadline[:\s]*([0-9T:\-\/ ]+), case-insensitive

  /** `TASK_KEYWORDS`, in the order `looks_like_task` tries them. */
  const TaskKeywords: seq<Pattern> :=
    [Keyword("task"), Keyword("deadline"), Keyword("deliverable"), Keyword("action"),
     PleaseVerb, ByMonthDay]

  const Verbs: seq<string> := ["do", "complete", "implement", "review"]

  /** `\b` at index `k`: exactly one of the neighbours is a word character. */
  predicate Boundary(s: string, k: nat)
    requires k <= |s|
  {
    (k > 0 && IsWordChar(s[k - 1])) != (k < |s| && IsWordChar(s[k]))
  }

  /** The literal `w` occurs at index `i` (case-sensitive). */
  predicate LitAt(s: string, i: nat, w: string) {
    i + |w| <= |s| && s[i..i + |w|] == w
  }

  /** The literal `w` occurs at index `i` under `re.I` (ASCII case folding). */
  predicate CiLitAt(s: string, i: nat, w: string) {
    i + |w| <= |s| && forall j :: i <= j < i + |w| ==> LowerChar(s[j]) == LowerChar(w[j - i])
  }

  /** The first character of a case-insensitive literal match. */
  lemma CiLitFirst(s: string, i: nat, w: string)
    requires w != [] && CiLitAt(s, i, w)
    ensures i < |s| && LowerChar(s[i]) == LowerChar(w[0])
  {
    assert LowerChar(s[i]) == LowerChar(w[i - i]);
  }

  /** `\d{1,2}\b` at `p`: two digits if the boundary follows them, else one. */
  function DayThenBoundary(s: string, p: nat): (e: Option<nat>)
    requires p <= |s|
    ensures e.Some? ==> p < e.value <= p + 2 && e.value <= |s| && Boundary(s, e.value)
    ensures e.Some? ==> forall j :: p <= j < e.value ==> IsAsciiDigit(s[j])
  {
    if p < |s| && IsAsciiDigit(s[p]) then
      if p + 1 < |s| && IsAsciiDigit(s[p + 1]) && Boundary(s, p + 2) then Some(p + 2)
      else if Boundary(s, p + 1) then Some(p + 1)
      else None
    else None
  }

  /** The optional year group `,?\s+\d{4}` at `q`; the end index when it matches. */
  function Year(s: string, q: nat): (e: Option<nat>)
    requires q <= |s|
    ensures e.Some? ==> q + 5 <= e.value <= |s|
    ensures e.Some? ==> forall j :: e.value - 4 <= j < e.value ==> IsAsciiDigit(s[j])
  {
    var c := if q < |s| && s[q] == ',' then q + 1 else q;
    var r := SkipWhile(s, c, Space);
    if r > c && r + 4 <= |s| && IsAsciiDigit(s[r]) && IsAsciiDigit(s[r + 1])
       && IsAsciiDigit(s[r + 2]) && IsAsciiDigit(s[r + 3])
    then Some(r + 4) else None
  }

  /** `(?:,?\s+\d{4})?\b` at `q`: the year is tried first, then the empty group. */
  function YearThenBoundary(s: string, q: nat): (e: Option<nat>)
    requires q <= |s|
    ensures e.Some? ==> q <= e.value <= |s| && Boundary(s, e.value)
  {
    match Year(s, q)
    case Some(y) => if Boundary(s, y) then Some(y) else if Boundary(s, q) then Some(q) else None
    case None => if Boundary(s, q) then Some(q) else None
  }

  /** The alternation `(?:do|complete|implement|review)\b` at `j`, tried in order. */
  function VerbAt(s: string, j: nat, vs: seq<string>): (e: Option<nat>)
    requires j <= |s|
    ensures e.Some? ==> j < e.value <= |s| && Boundary(s, e.value)
    ensures e.Some? ==> exists k :: 0 <= k < |vs| && e.value == j + |vs[k]| && CiLitAt(s, j, vs[k])
  {
    if vs == [] then None
    else if vs[0] != [] && CiLitAt(s, j, vs[0]) && Boundary(s, j + |vs[0]|) then Some(j + |vs[0]|)
    else
      var e := VerbAt(s, j, vs[1..]);
      if e.Some? then
        ghost var k :| 0 <= k < |vs[1..]| && e.value == j + |vs[1..][k]| && CiLitAt(s, j, vs[1..][k]);
        assert vs[1..][k] == vs[k + 1];
        e
      else None
  }

  /** Backtracking of `[:\s]*` for `deadline[:\s]*([0-9T:\-\/ ]+)`: the greedy
      run ends at `k`; the group starts at the largest index in `lo..k` that
      holds a group character. */
  function LastDeadlineCharFrom(s: string, lo: nat, k: nat): (r: Option<nat>)
    requires lo <= k <= |s|
    ensures r.Some? ==> lo <= r.value <= k && r.value < |s| && In(DeadlineChar, s[r.value])
    ensures r.Some? ==> forall j :: r.value < j <= k && j < |s| ==> !In(DeadlineChar, s[j])
    ensures r.None? ==> forall j :: lo <= j <= k && j < |s| ==> !In(DeadlineChar, s[j])
    decreases k
  {
    if k < |s| && In(DeadlineChar, s[k]) then Some(k)
    else if k == lo then None
    else LastDeadlineCharFrom(s, lo, k - 1)
  }

  /** `\bWORD\b` under `re.I`. */
  function KeywordAt(w: Word, s: string, i: nat): (r: Option<Span>)
    requires i < |s|
    ensures r.Some? ==> !IsSpace(s[i]) && r.value == Span(i, i + |w|) && i + |w| <= |s|
  {
    if Boundary(s, i) && CiLitAt(s, i, w) && Boundary(s, i + |w|) then
      CiLitFirst(s, i, w);
      Some(Span(i, i + |w|))
    else None
  }

  /** `\bplease\s+(?:do|complete|implement|review)\b` under `re.I`. */
  function PleaseVerbAt(s: string, i: nat): (r: Option<Span>)
    requires i < |s|
    ensures r.Some? ==> !IsSpace(s[i]) && r.value.start == i < r.value.end <= |s|
  {
    if Boundary(s, i) && CiLitAt(s, i, "please") then
      CiLitFirst(s, i, "please");
      var j := SkipWhile(s, i + 6, Space);
      if j > i + 6 then
        match VerbAt(s, j, Verbs)
        case Some(e) => Some(Span(i, e))
        case None => None
      else None
    else None
  }

  /** `\bby\s+[A-Z][a-z]+ \d{1,2}\b` under `re.I`, where both letter classes
      take either case. */
  function ByMonthDayAt(s: string, i: nat): (r: Option<Span>)
    requires i < |s|
    ensures r.Some? ==> !IsSpace(s[i]) && r.value.start == i < r.value.end <= |s|
  {
    if Boundary(s, i) && CiLitAt(s, i, "by") then
      CiLitFirst(s, i, "by");
      var j := SkipWhile(s, i + 2, Space);
      if j > i + 2 && j < |s| && IsAsciiLetter(s[j]) then
        var m := SkipWhile(s, j + 1, Letter);
        if m > j + 1 && m < |s| && s[m] == ' ' then
          match DayThenBoundary(s, m + 1)
          case Some(e) => Some(Span(i, e))
          case None => None
        else None
      else None
    else None
  }

  /** `^- \[ \] |^- \[x\]` under `re.M`: `^` is the start of the text or the
      index after a "\n". */
  function ChecklistAt(s: string, i: nat): (r: Option<Span>)
    requires i < |s|
    ensures r.Some? ==> s[i] == '-' && r.value.start == i < r.value.end <= |s|
  {
    if i == 0 || s[i - 1] == '\n' then
      if LitAt(s, i, "- [ ] ") then
        assert s[i] == "- [ ] "[0];
        Some(Span(i, i + 6))
      else if LitAt(s, i, "- [x]") then
        assert s[i] == "- [x]"[0];
        Some(Span(i, i + 5))
      else None
    else None
  }

  /** `\bby\s+\w+\s+\d{1,2}(?:,?\s+\d{4})?\b` under `re.I`. The runs of
      `\s` and `\w` are necessarily maximal; `\d{1,2}` tries two digits
      first, then one. */
  function ByWordDayAt(s: string, i: nat): (r: Option<Span>)
    requires i < |s|
    ensures r.Some? ==> !IsSpace(s[i]) && r.value.start == i < r.value.end <= |s|
  {
    if Boundary(s, i) && CiLitAt(s, i, "by") then
      CiLitFirst(s, i, "by");
      var j := SkipWhile(s, i + 2, Space);
      var m := SkipWhile(s, j, Word);
      var q := SkipWhile(s, m, Space);
      if j > i + 2 && m > j && q > m && q < |s| && IsAsciiDigit(s[q]) then
        var two := if q + 1 < |s| && IsAsciiDigit(s[q + 1]) then YearThenBoundary(s, q + 2) else None;
        var e := if two.Some? then two else YearThenBoundary(s, q + 1);
        match e
        case Some(end) => Some(Span(i, end))
        case None => None
      else None
    else None
  }

  /** Group 1 of `by\s+([A-Z][a-z]+\s+\d{1,2}(?:,?\s+\d{4})?)`, case-sensitive
      and with no word boundary: nothing follows the optional year, so the
      first path of the engine always succeeds once the day is found. */
  function DeadlineDateAt(s: string, i: nat): (r: Option<Span>)
    requires i < |s|
    ensures r.Some? ==> s[i] == 'b' && i < r.value.start < r.value.end <= |s|
    ensures r.Some? ==> IsAsciiUpper(s[r.value.start])
  {
    if LitAt(s, i, "by") then
      assert s[i] == "by"[0];
      var j := SkipWhile(s, i + 2, Space);
      if j > i + 2 && j < |s| && IsAsciiUpper(s[j]) then
        var m := SkipWhile(s, j + 1, LowerLetter);
        var q := SkipWhile(s, m, Space);
        if m > j + 1 && q > m && q < |s| && IsAsciiDigit(s[q]) then
          var d := if q + 1 < |s| && IsAsciiDigit(s[q + 1]) then q + 2 else q + 1;
          var e := match Year(s, d) case Some(y) => y case None => d;
          Some(Span(j, e))
        else None
      else None
    else None
  }

  /** Group 1 of `deadline[:\s]*([0-9T:\-\/ ]+)` under `re.I`. */
  function DeadlineLabelAt(s: string, i: nat): (r: Option<Span>)
    requires i < |s|
    ensures r.Some? ==> !IsSpace(s[i]) && i < r.value.start < r.value.end <= |s|
    ensures r.Some? ==> forall j :: r.value.start <= j < r.value.end ==> In(DeadlineChar, s[j])
  {
    if CiLitAt(s, i, "deadline") then
      CiLitFirst(s, i, "deadline");
      var k0 := i + 8;
      match LastDeadlineCharFrom(s, k0, SkipWhile(s, k0, ColonOrSpace))
      case Some(k) =>
        SkipWhileRun(s, k, DeadlineChar);
        Some(Span(k, SkipWhile(s, k, DeadlineChar)))
      case None => None
    else None
  }

  /** The match (or, for the two deadline patterns, the captured group) that
      the engine finds when it tries `p` at index `i`. Every match starts with
      a non-whitespace character. */
  function MatchAt(p: Pattern, s: string, i: nat): (r: Option<Span>)
    ensures r.Some? ==> i < |s| && !IsSpace(s[i])
    ensures r.Some? ==> i <= r.value.start < r.value.end <= |s|
    ensures r.Some? && p.DeadlineDate? ==> IsAsciiUpper(s[r.value.start])
    ensures r.Some? && p.DeadlineLabel? ==>
      forall j :: r.value.start <= j < r.value.end ==> In(DeadlineChar, s[j])
  {
    if i >= |s| then None
    else match p
      case Keyword(w) => KeywordAt(w, s, i)
      case PleaseVerb => PleaseVerbAt(s, i)
      case ByMonthDay => ByMonthDayAt(s, i)
      case Checklist => ChecklistAt(s, i)
      case ByWordDay => ByWordDayAt(s, i)
      case DeadlineDate => DeadlineDateAt(s, i)
      case DeadlineLabel => DeadlineLabelAt(s, i)
  }

  /** `p` matches somewhere in `s`. */
  ghost predicate Matches(p: Pattern, s: string) {
    exists i :: 0 <= i <= |s| && MatchAt(p, s, i).Some?
  }

  /** Whether `p` matches at each of the start indexes `0..|s|` that
      `re.search` tries, in the order it tries them. */
  function Hits(p: Pattern, s: string): (h: seq<bool>)
    ensures |h| == |s| + 1
  {
    seq(|s| + 1, j requires 0 <= j <= |s| => MatchAt(p, s, j).Some?)
  }

  /** The first index at or after `i` that holds `true`. */
  function FirstTrue(h: seq<bool>, i: nat): (r: Option<nat>)
    requires i <= |h|
    ensures r.Some? ==> i <= r.value < |h| && h[r.value]
    ensures r.Some? ==> forall j :: i <= j < r.value ==> !h[j]
    ensures r.None? ==> forall j :: i <= j < |h| ==> !h[j]
    decreases |h| - i
  {
    if i == |h| then None
    else if h[i] then Some(i)
    else FirstTrue(h, i + 1)
  }

  /** `re.search(p, s)`: the start of the leftmost match, and nothing only
      when `p` matches nowhere. */
  function Search(p: Pattern, s: string): (r: Option<nat>)
    ensures r.Some? <==> Matches(p, s)
    ensures r.Some? ==> MatchAt(p, s, r.value).Some?
    ensures r.Some? ==> forall j :: 0 <= j < r.value ==> MatchAt(p, s, j).None?
  {
    var h := Hits(p, s);
    assert forall j :: 0 <= j < |h| ==> h[j] == MatchAt(p, s, j).Some?;
    FirstTrue(h, 0)
  }

  /** The early-return loop of `looks_like_task` over `TASK_KEYWORDS`. */
  function AnyKeywordMatches(ps: seq<Pattern>, s: string): bool {
    if ps == [] then false
    else if Search(ps[0], s).Some? then true
    else AnyKeywordMatches(ps[1..], s)
  }

  /** `looks_like_task`: the keyword patterns on the lowered text, then the
      checklist bullets, then the "by <word> <day>" phrase. */
  function LooksLikeTask(content: string): bool {
    AnyKeywordMatches(TaskKeywords, Lower(content))
    || Search(Checklist, content).Some?
    || Search(ByWordDay, content).Some?
  }

  lemma {:induction false} AnyKeywordMatchesIff(ps: seq<Pattern>, s: string)
    ensures AnyKeywordMatches(ps, s) <==> exists k :: 0 <= k < |ps| && Matches(ps[k], s)
    decreases |ps|
  {
    if ps != [] {
      AnyKeywordMatchesIff(ps[1..], s);
      if exists k :: 0 <= k < |ps| && Matches(ps[k], s) {
        var k :| 0 <= k < |ps| && Matches(ps[k], s);
        if k > 0 { assert ps[1..][k - 1] == ps[k]; }
      }
      if exists k :: 0 <= k < |ps[1..]| && Matches(ps[1..][k], s) {
        var k :| 0 <= k < |ps[1..]| && Matches(ps[1..][k], s);
        assert ps[1..][k] == ps[k + 1];
      }
    }
  }

  /** `looks_like_task` is true exactly when one of its patterns matches. */
  lemma LooksLikeTaskIff(content: string)
    ensures LooksLikeTask(content) <==>
      (exists k :: 0 <= k < |TaskKeywords| && Matches(TaskKeywords[k], Lower(content)))
      || Matches(Checklist, content)
      || Matches(ByWordDay, content)
  {
    AnyKeywordMatchesIff(TaskKeywords, Lower(content));
  }

  /** A text that looks like a task holds a non-whitespace character, so a
      title can be extracted from it. */
  lemma LooksLikeTaskHasNonSpace(content: string)
    requires LooksLikeTask(content)
    ensures HasNonSpace(content)
  {
    LooksLikeTaskIff(content);
    if exists k :: 0 <= k < |TaskKeywords| && Matches(TaskKeywords[k], Lower(content)) {
      var k :| 0 <= k < |TaskKeywords| && Matches(TaskKeywords[k], Lower(content));
      var i :| 0 <= i <= |content| && MatchAt(TaskKeywords[k], Lower(content), i).Some?;
      LowerCharKeepsClass(content[i]);
      assert !IsSpace(content[i]);
    } else if Matches(Checklist, content) {
      var i :| 0 <= i <= |content| && MatchAt(Checklist, content, i).Some?;
      assert !IsSpace(content[i]);
    } else {
      var i :| 0 <= i <= |content| && MatchAt(ByWordDay, content, i).Some?;
      assert !IsSpace(content[i]);
    }
  }

  lemma LowerKeepsBoundary(s: string, k: nat)
    requires k <= |s|
    ensures Boundary(Lower(s), k) == Boundary(s, k)
  {
    if k > 0 { LowerCharKeepsClass(s[k - 1]); }
    if k < |s| { LowerCharKeepsClass(s[k]); }
  }

  lemma LowerKeepsCiLit(s: string, i: nat, w: string)
    ensures CiLitAt(Lower(s), i, w) == CiLitAt(s, i, w)
  {
    if i + |w| <= |s| {
      forall j | i <= j < i + |w| ensures LowerChar(Lower(s)[j]) == LowerChar(s[j]) {
        LowerCharKeepsClass(s[j]);
      }
    }
  }

  /** A match of one of the keyword patterns on the lowered text makes the
      text a task. */
  lemma KeywordMatchMakesTask(content: string, k: nat)
    ensures k < |TaskKeywords| && Matches(TaskKeywords[k], Lower(content)) ==> LooksLikeTask(content)
  {
    LooksLikeTaskIff(content);
  }

  /** A whole word "task", "deadline", "deliverable" or "action", in any
      letter case, makes the text a task. */
  lemma KeywordMakesTask(content: string, i: nat, w: string)
    requires w == "task" || w == "deadline" || w == "deliverable" || w == "action"
    requires i + |w| <= |content|
    requires Boundary(content, i) && CiLitAt(content, i, w) && Boundary(content, i + |w|)
    ensures LooksLikeTask(content)
  {
    var k := if w == "task" then 0 else if w == "deadline" then 1 else if w == "deliverable" then 2 else 3;
    assert TaskKeywords[k] == Keyword(w);
    assert Matches(Keyword(w), Lower(content)) by {
      LowerKeepsBoundary(content, i);
      LowerKeepsBoundary(content, i + |w|);
      LowerKeepsCiLit(content, i, w);
      assert MatchAt(Keyword(w), Lower(content), i).Some?;
    }
    KeywordMatchMakesTask(content, k);
  }

  /** A line that begins with "- [ ] " or "- [x]" makes the text a task. */
  lemma ChecklistMakesTask(content: string, i: nat)
    requires i == 0 || (0 < i <= |content| && content[i - 1] == '\n')
    requires LitAt(content, i, "- [ ] ") || LitAt(content, i, "- [x]")
    ensures LooksLikeTask(content)
  {
    assert MatchAt(Checklist, content, i).Some?;
    LooksLikeTaskIff(content);
  }

  /** The checklist pattern has no `re.I`: a checked box with a capital X is
      not recognised, and neither is an open box "- [ ]" that is not
      followed by a space. */
  lemma ChecklistNeedsLowercaseX(s: string, i: nat)
    requires LitAt(s, i, "- [X]") || (LitAt(s, i, "- [ ]") && (i + 5 == |s| || s[i + 5] != ' '))
    ensures MatchAt(Checklist, s, i).None?
  {
    if LitAt(s, i, "- [X]") {
      assert s[i + 3] == s[i..i + 5][3] == 'X';
    } else {
      assert s[i + 3] == s[i..i + 5][3] == ' ';
      assert !LitAt(s, i, "- [ ] ") by {
        if i + 6 <= |s| {
          assert s[i..i + 6][5] == s[i + 5] != ' ';
        }
      }
    }
  }

  /** `extract_title`: the first line of the stripped text, cut to 150
      characters. The source indexes `[0]` of the line list, which raises on
      a text without a non-whitespace character. The result is the longest
      prefix of the stripped text of at most 150 characters that does not
      cross a line boundary. */
  function ExtractTitle(content: string): (r: string)
    requires HasNonSpace(content)
    ensures 0 < |r| <= 150
    ensures |r| <= |Strip(content)| && r == Strip(content)[..|r|]
    ensures !IsSpace(r[0])
    ensures forall j :: 0 <= j < |r| ==> !IsLineBreak(r[j])
    ensures |r| == 150 || |r| == |Strip(content)| || IsLineBreak(Strip(content)[|r|])
  {
    var t := Strip(content);
    StripEmptyIff(content);
    StripEnds(content);
    var first := SplitLines(t)[0];
    assert !IsLineBreak(t[0]);
    Take(first, 150)
  }

  /** `extract_deadline`: the date captured by the leftmost case-sensitive
      "by <Month> <day>[, <year>]" match, else the token captured after the
      leftmost usable case-insensitive "deadline" label, else nothing. */
  function ExtractDeadline(content: string): (r: Option<string>)
    ensures r.None? <==> !Matches(DeadlineDate, content) && !Matches(DeadlineLabel, content)
    ensures r.Some? ==> r.value != []
    ensures r.Some? ==> exists a :: 0 <= a <= |content| && r.value <= content[a..]
    ensures Matches(DeadlineDate, content) ==> r.Some? && IsAsciiUpper(r.value[0])
    ensures !Matches(DeadlineDate, content) && r.Some? ==>
      forall j :: 0 <= j < |r.value| ==> In(DeadlineChar, r.value[j])
  {
    match Search(DeadlineDate, content)
    case Some(i) => Some(Capture(DeadlineDate, content, i))
    case None =>
      match Search(DeadlineLabel, content)
      case Some(i) => Some(Capture(DeadlineLabel, content, i))
      case None => None
  }

  /** The text of the span that `p` matches or captures at `i`. */
  function Capture(p: Pattern, s: string, i: nat): (r: string)
    requires MatchAt(p, s, i).Some?
    ensures r != []
    ensures exists a :: 0 <= a <= |s| && r <= s[a..]
    ensures p.DeadlineDate? ==> IsAsciiUpper(r[0])
    ensures p.DeadlineLabel? ==> forall j :: 0 <= j < |r| ==> In(DeadlineChar, r[j])
  {
    var g := MatchAt(p, s, i).value;
    assert s[g.start..g.end] <= s[g.start..];
    s[g.start..g.end]
  }
}
