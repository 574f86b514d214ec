/** Reference definitions of the regular expressions of
    app/handlers/task_detector.py, written as "there is a way to split the
    text" rather than as the engine's search, and the proofs that the
    matchers of `TaskDetector` agree with them. For the two deadline
    patterns the reference also says which group the engine captures. */
module PatternSpec {
  import opened Wrappers
  import opened PyStr
  import opened TaskDetector

  /** After "please" at `i`: whitespace from `i + 6` to `j`, then verb `k`
      of `Verbs` ending at a word boundary. */
  ghost predicate VerbAfter(s: string, i: nat, j: nat, k: nat) {
    && i + 6 < j && AllIn(s, i + 6, j, Space)
    && k < |Verbs| && CiLitAt(s, j, Verbs[k]) && Boundary(s, j + |Verbs[k]|)
  }

  /** `\bplease\s+(?:do|complete|implement|review)\b` matches at `i`: "please"
      at a word boundary, a non-empty run of whitespace, one of the verbs and
      a word boundary after it. */
  ghost predicate PleaseVerbSpec(s: string, i: nat) {
    && i <= |s| && Boundary(s, i) && CiLitAt(s, i, "please")
    && exists j: nat, k: nat :: VerbAfter(s, i, j, k)
  }

  /** The verb alternation finds a verb whenever one of them fits. */
  lemma {:induction false} VerbAtComplete(s: string, j: nat, vs: seq<string>, k: nat)
    requires j <= |s| && k < |vs| && vs[k] != []
    requires CiLitAt(s, j, vs[k]) && Boundary(s, j + |vs[k]|)
    ensures VerbAt(s, j, vs).Some?
    decreases |vs|
  {
    if k > 0 && !(vs[0] != [] && CiLitAt(s, j, vs[0]) && Boundary(s, j + |vs[0]|)) {
      assert vs[1..][k - 1] == vs[k];
      VerbAtComplete(s, j, vs[1..], k - 1);
    }
  }

  /** A case-insensitive match of a word that starts with a letter starts
      with a letter, so it is not whitespace. */
  lemma LetterLitNotSpace(s: string, j: nat, w: string)
    requires w != [] && IsAsciiLetter(w[0]) && CiLitAt(s, j, w)
    ensures j < |s| && IsAsciiLetter(s[j]) && !In(Space, s[j])
  {
    CiLitFirst(s, j, w);
    LowerCharKeepsClass(s[j]);
    LowerCharKeepsClass(w[0]);
  }

  /** The verb that the alternation finds. */
  lemma VerbAtFits(s: string, i: nat, j: nat)
    requires i + 6 < j <= |s| && AllIn(s, i + 6, j, Space) && VerbAt(s, j, Verbs).Some?
    ensures exists k: nat :: VerbAfter(s, i, j, k)
  {
    var e := VerbAt(s, j, Verbs).value;
    var k :| 0 <= k < |Verbs| && e == j + |Verbs[k]| && CiLitAt(s, j, Verbs[k]);
    assert VerbAfter(s, i, j, k);
  }

  lemma PleaseVerbSound(s: string, i: nat)
    requires i < |s| && PleaseVerbAt(s, i).Some?
    ensures PleaseVerbSpec(s, i)
  {
    var j := SkipWhile(s, i + 6, Space);
    SkipWhileRun(s, i + 6, Space);
    VerbAtFits(s, i, j);
  }

  lemma VerbAfterFound(s: string, i: nat, j: nat, k: nat)
    requires VerbAfter(s, i, j, k)
    ensures SkipWhile(s, i + 6, Space) == j && VerbAt(s, j, Verbs).Some?
  {
    LetterLitNotSpace(s, j, Verbs[k]);
    SkipWhileStops(s, i + 6, j, Space);
    VerbAtComplete(s, j, Verbs, k);
  }

  lemma PleaseVerbComplete(s: string, i: nat)
    requires i < |s| && PleaseVerbSpec(s, i)
    ensures PleaseVerbAt(s, i).Some?
  {
    var j: nat, k: nat :| VerbAfter(s, i, j, k);
    VerbAfterFound(s, i, j, k);
  }

  /** The matcher for "please <verb>" matches exactly where the reference
      does. */
  lemma PleaseVerbAtIff(s: string, i: nat)
    requires i < |s|
    ensures PleaseVerbAt(s, i).Some? <==> PleaseVerbSpec(s, i)
  {
    if PleaseVerbAt(s, i).Some? {
      PleaseVerbSound(s, i);
    } else if PleaseVerbSpec(s, i) {
      PleaseVerbComplete(s, i);
    }
  }

  /** `\d{1,2}` spans `p..e`. */
  ghost predicate DayDigits(s: string, p: nat, e: nat) {
    p < e <= p + 2 && e <= |s| && forall t :: p <= t < e ==> IsAsciiDigit(s[t])
  }

  /** `\d{1,2}\b` matches at `p` whenever one or two digits end at a word
      boundary. */
  lemma DayThenBoundaryComplete(s: string, p: nat, e: nat)
    requires DayDigits(s, p, e) && Boundary(s, e)
    ensures DayThenBoundary(s, p).Some?
  {
    assert IsAsciiDigit(s[p]);
    if e == p + 2 {
      assert IsAsciiDigit(s[p + 1]);
    }
  }

  /** After "by" at `i`: whitespace up to `j`, a letter at `j`, letters up to
      `m`, one blank at `m`, and a day `m + 1..e` ending at a word boundary. */
  ghost predicate MonthDayAfter(s: string, i: nat, j: nat, m: nat, e: nat) {
    && i + 2 < j && AllIn(s, i + 2, j, Space) && j < |s| && IsAsciiLetter(s[j])
    && j + 1 < m && AllIn(s, j + 1, m, Letter) && m < |s| && s[m] == ' '
    && DayDigits(s, m + 1, e) && Boundary(s, e)
  }

  /** `\bby\s+[A-Z][a-z]+ \d{1,2}\b` under `re.I` matches at `i`. */
  ghost predicate ByMonthDaySpec(s: string, i: nat) {
    && i <= |s| && Boundary(s, i) && CiLitAt(s, i, "by")
    && exists j: nat, m: nat, e: nat :: MonthDayAfter(s, i, j, m, e)
  }

  lemma ByMonthDaySound(s: string, i: nat)
    requires i < |s| && ByMonthDayAt(s, i).Some?
    ensures ByMonthDaySpec(s, i)
  {
    var j := SkipWhile(s, i + 2, Space);
    SkipWhileRun(s, i + 2, Space);
    var m := SkipWhile(s, j + 1, Letter);
    SkipWhileRun(s, j + 1, Letter);
    var e := DayThenBoundary(s, m + 1).value;
    assert MonthDayAfter(s, i, j, m, e);
  }

  lemma MonthDayAfterFound(s: string, i: nat, j: nat, m: nat, e: nat)
    requires MonthDayAfter(s, i, j, m, e)
    ensures SkipWhile(s, i + 2, Space) == j && SkipWhile(s, j + 1, Letter) == m
    ensures DayThenBoundary(s, m + 1).Some?
  {
    SkipWhileStops(s, i + 2, j, Space);
    SkipWhileStops(s, j + 1, m, Letter);
    DayThenBoundaryComplete(s, m + 1, e);
  }

  lemma ByMonthDayComplete(s: string, i: nat)
    requires i < |s| && ByMonthDaySpec(s, i)
    ensures ByMonthDayAt(s, i).Some?
  {
    var j: nat, m: nat, e: nat :| MonthDayAfter(s, i, j, m, e);
    MonthDayAfterFound(s, i, j, m, e);
  }

  /** The matcher for "by <Month> <day>" matches exactly where the reference
      does. */
  lemma ByMonthDayAtIff(s: string, i: nat)
    requires i < |s|
    ensures ByMonthDayAt(s, i).Some? <==> ByMonthDaySpec(s, i)
  {
    if ByMonthDayAt(s, i).Some? {
      ByMonthDaySound(s, i);
    } else if ByMonthDaySpec(s, i) {
      ByMonthDayComplete(s, i);
    }
  }

  /** The year group `,?\s+\d{4}` spans `d..e`: an optional comma ending at
      `c`, whitespace from `c` to `r`, and four digits from `r`. */
  ghost predicate YearParts(s: string, d: nat, c: nat, r: nat, e: nat) {
    && (c == d || (c == d + 1 && d < |s| && s[d] == ','))
    && c < r && AllIn(s, c, r, Space) && e == r + 4 && e <= |s|
    && IsAsciiDigit(s[r]) && IsAsciiDigit(s[r + 1]) && IsAsciiDigit(s[r + 2]) && IsAsciiDigit(s[r + 3])
  }

  ghost predicate YearAt(s: string, d: nat, e: nat) {
    exists c: nat, r: nat :: YearParts(s, d, c, r, e)
  }

  lemma YearSound(s: string, d: nat)
    requires d <= |s| && Year(s, d).Some?
    ensures YearAt(s, d, Year(s, d).value)
  {
    var c := if d < |s| && s[d] == ',' then d + 1 else d;
    SkipWhileRun(s, c, Space);
    assert YearParts(s, d, c, SkipWhile(s, c, Space), Year(s, d).value);
  }

  /** The year group has one way to match: the comma is taken when present
      and the whitespace run is maximal. */
  lemma YearComplete(s: string, d: nat, c: nat, r: nat, e: nat)
    requires YearParts(s, d, c, r, e)
    ensures Year(s, d) == Some(e)
  {
    assert In(Space, s[c]);
    SkipWhileStops(s, c, r, Space);
  }

  /** A year group starts with a comma or whitespace, never with a digit. */
  lemma YearStartsWithNonDigit(s: string, d: nat, c: nat, r: nat, e: nat)
    requires YearParts(s, d, c, r, e)
    ensures d < |s| && !IsAsciiDigit(s[d])
  {
    assert In(Space, s[c]);
  }

  lemma YearThenBoundarySound(s: string, d: nat)
    requires d <= |s| && YearThenBoundary(s, d).Some?
    ensures YearThenBoundary(s, d).value == d || YearAt(s, d, YearThenBoundary(s, d).value)
  {
    if Year(s, d).Some? {
      YearSound(s, d);
    }
  }

  /** After "by" at `i`: whitespace up to `j`, word characters up to `m`,
      whitespace up to `q`, a day `q..d`, an optional year `d..e` and a word
      boundary at `e`. */
  ghost predicate WordDayAfter(s: string, i: nat, j: nat, m: nat, q: nat, d: nat, e: nat) {
    && i + 2 < j && AllIn(s, i + 2, j, Space) && j < m && AllIn(s, j, m, Word)
    && m < q && AllIn(s, m, q, Space) && DayDigits(s, q, d)
    && (e == d || YearAt(s, d, e)) && Boundary(s, e)
  }

  /** `\bby\s+\w+\s+\d{1,2}(?:,?\s+\d{4})?\b` under `re.I` matches at `i`. */
  ghost predicate ByWordDaySpec(s: string, i: nat) {
    && i <= |s| && Boundary(s, i) && CiLitAt(s, i, "by")
    && exists j: nat, m: nat, q: nat, d: nat, e: nat :: WordDayAfter(s, i, j, m, q, d, e)
  }

  /** The day and optional year that the engine settles on. */
  lemma DayYearFits(s: string, i: nat, j: nat, m: nat, q: nat, d: nat)
    requires i + 2 < j && AllIn(s, i + 2, j, Space) && j < m && AllIn(s, j, m, Word)
    requires m < q && AllIn(s, m, q, Space) && DayDigits(s, q, d)
    requires YearThenBoundary(s, d).Some?
    ensures WordDayAfter(s, i, j, m, q, d, YearThenBoundary(s, d).value)
  {
    YearThenBoundarySound(s, d);
  }

  /** The conditions under which the matcher for "by <word> <day>" succeeds,
      in terms of the three maximal runs after "by". */
  ghost predicate WordDayScan(s: string, i: nat, j: nat, m: nat, q: nat) {
    && i + 2 <= |s| && Boundary(s, i) && CiLitAt(s, i, "by")
    && j == SkipWhile(s, i + 2, Space) && m == SkipWhile(s, j, Word) && q == SkipWhile(s, m, Space)
    && j > i + 2 && m > j && q > m && q < |s| && IsAsciiDigit(s[q])
    && ((q + 1 < |s| && IsAsciiDigit(s[q + 1]) && YearThenBoundary(s, q + 2).Some?)
        || YearThenBoundary(s, q + 1).Some?)
  }

  lemma ByWordDayAtScan(s: string, i: nat, j: nat, m: nat, q: nat)
    requires i < |s| && ByWordDayAt(s, i).Some?
    requires i + 2 <= |s| && j == SkipWhile(s, i + 2, Space)
    requires m == SkipWhile(s, j, Word) && q == SkipWhile(s, m, Space)
    ensures WordDayScan(s, i, j, m, q)
  {
  }

  lemma ByWordDayAtFromScan(s: string, i: nat, j: nat, m: nat, q: nat)
    requires i < |s| && WordDayScan(s, i, j, m, q)
    ensures ByWordDayAt(s, i).Some?
  {
  }

  lemma ByWordDaySound(s: string, i: nat)
    requires i < |s| && ByWordDayAt(s, i).Some?
    ensures ByWordDaySpec(s, i)
  {
    assert CiLitAt(s, i, "by");
    var j := SkipWhile(s, i + 2, Space);
    var m := SkipWhile(s, j, Word);
    var q := SkipWhile(s, m, Space);
    ByWordDayAtScan(s, i, j, m, q);
    WordDayScanFits(s, i, j, m, q);
  }

  lemma WordDayScanFits(s: string, i: nat, j: nat, m: nat, q: nat)
    requires WordDayScan(s, i, j, m, q)
    ensures ByWordDaySpec(s, i)
  {
    ScannedRuns(s, i + 2, j, m, q);
    var two := q + 1 < |s| && IsAsciiDigit(s[q + 1]) && YearThenBoundary(s, q + 2).Some?;
    var d := if two then q + 2 else q + 1;
    assert DayDigits(s, q, d);
    DayYearFits(s, i, j, m, q, d);
    assert WordDayAfter(s, i, j, m, q, d, YearThenBoundary(s, d).value);
  }

  /** The three runs the matcher scans after "by". */
  lemma ScannedRuns(s: string, k: nat, j: nat, m: nat, q: nat)
    requires k <= |s| && j == SkipWhile(s, k, Space) && m == SkipWhile(s, j, Word)
    requires q == SkipWhile(s, m, Space)
    ensures AllIn(s, k, j, Space) && AllIn(s, j, m, Word) && AllIn(s, m, q, Space)
  {
    SkipWhileRun(s, k, Space);
    SkipWhileRun(s, j, Word);
    SkipWhileRun(s, m, Space);
  }

  /** The runs of the reference are the maximal ones the matcher scans. */
  lemma WordDayRuns(s: string, i: nat, j: nat, m: nat, q: nat, d: nat, e: nat)
    requires WordDayAfter(s, i, j, m, q, d, e)
    ensures SkipWhile(s, i + 2, Space) == j && SkipWhile(s, j, Word) == m
    ensures SkipWhile(s, m, Space) == q
  {
    assert In(Word, s[j]) && In(Space, s[m]) && IsAsciiDigit(s[q]);
    SkipWhileStops(s, i + 2, j, Space);
    SkipWhileStops(s, j, m, Word);
    SkipWhileStops(s, m, q, Space);
  }

  /** Either way the day and year end, `(?:,?\s+\d{4})?\b` matches after
      the day. */
  lemma DayYearFound(s: string, d: nat, e: nat)
    requires d <= |s| && e <= |s| && (e == d || YearAt(s, d, e)) && Boundary(s, e)
    ensures YearThenBoundary(s, d).Some?
  {
    if e != d {
      var c: nat, r: nat :| YearParts(s, d, c, r, e);
      YearComplete(s, d, c, r, e);
    }
  }

  lemma ByWordDayComplete(s: string, i: nat)
    requires i < |s| && ByWordDaySpec(s, i)
    ensures ByWordDayAt(s, i).Some?
  {
    var j: nat, m: nat, q: nat, d: nat, e: nat :| WordDayAfter(s, i, j, m, q, d, e);
    WordDayAfterFound(s, i, j, m, q, d, e);
  }

  lemma WordDayAfterFound(s: string, i: nat, j: nat, m: nat, q: nat, d: nat, e: nat)
    requires i < |s| && Boundary(s, i) && CiLitAt(s, i, "by") && WordDayAfter(s, i, j, m, q, d, e)
    ensures ByWordDayAt(s, i).Some?
  {
    WordDayRuns(s, i, j, m, q, d, e);
    DayChoiceFound(s, q, d, e);
    assert WordDayScan(s, i, j, m, q);
    ByWordDayAtFromScan(s, i, j, m, q);
  }

  /** One of the two day lengths the matcher tries leads to a match. */
  lemma DayChoiceFound(s: string, q: nat, d: nat, e: nat)
    requires q < |s| && DayDigits(s, q, d) && e <= |s| && (e == d || YearAt(s, d, e)) && Boundary(s, e)
    ensures IsAsciiDigit(s[q])
    ensures (q + 1 < |s| && IsAsciiDigit(s[q + 1]) && YearThenBoundary(s, q + 2).Some?)
            || YearThenBoundary(s, q + 1).Some?
  {
    DayYearFound(s, d, e);
    assert IsAsciiDigit(s[q]);
    if d == q + 2 {
      assert IsAsciiDigit(s[q + 1]);
    }
  }

  /** The matcher for "by <word> <day>[, <year>]" matches exactly where the
      reference does. */
  lemma ByWordDayAtIff(s: string, i: nat)
    requires i < |s|
    ensures ByWordDayAt(s, i).Some? <==> ByWordDaySpec(s, i)
  {
    if ByWordDayAt(s, i).Some? {
      ByWordDaySound(s, i);
    } else if ByWordDaySpec(s, i) {
      ByWordDayComplete(s, i);
    }
  }

  /** After "by" at `i`: whitespace up to `j`, an upper-case letter at `j`,
      lower-case letters up to `m`, whitespace up to `q` and a day `q..d`. */
  ghost predicate DateAfter(s: string, i: nat, j: nat, m: nat, q: nat, d: nat) {
    && i + 2 < j && AllIn(s, i + 2, j, Space) && j < |s| && IsAsciiUpper(s[j])
    && j + 1 < m && AllIn(s, j + 1, m, LowerLetter) && m < q && AllIn(s, m, q, Space)
    && DayDigits(s, q, d)
  }

  /** `by\s+([A-Z][a-z]+\s+\d{1,2}(?:,?\s+\d{4})?)` can match at `i` with
      group 1 spanning `j..e`. */
  ghost predicate DateGroup(s: string, i: nat, j: nat, e: nat) {
    && LitAt(s, i, "by")
    && exists m: nat, q: nat, d: nat :: DateAfter(s, i, j, m, q, d) && (e == d || YearAt(s, d, e))
  }

  /** The conditions under which the date matcher succeeds, in terms of the
      maximal runs it scans. */
  ghost predicate DateScan(s: string, i: nat, j: nat, m: nat, q: nat) {
    && LitAt(s, i, "by")
    && j == SkipWhile(s, i + 2, Space) && j > i + 2 && j < |s| && IsAsciiUpper(s[j])
    && m == SkipWhile(s, j + 1, LowerLetter) && q == SkipWhile(s, m, Space)
    && m > j + 1 && q > m && q < |s| && IsAsciiDigit(s[q])
  }

  /** The day the engine takes: two digits when there are two. */
  function DayEnd(s: string, q: nat): nat
    requires q < |s|
  {
    if q + 1 < |s| && IsAsciiDigit(s[q + 1]) then q + 2 else q + 1
  }

  /** The group end the engine takes: the year when one follows the day. */
  function DateEnd(s: string, q: nat): nat
    requires q < |s|
  {
    match Year(s, DayEnd(s, q)) case Some(y) => y case None => DayEnd(s, q)
  }

  lemma DeadlineDateAtScan(s: string, i: nat, j: nat, m: nat, q: nat)
    requires i < |s| && DeadlineDateAt(s, i).Some?
    requires i + 2 <= |s| && j == SkipWhile(s, i + 2, Space)
    requires j < |s| && m == SkipWhile(s, j + 1, LowerLetter) && q == SkipWhile(s, m, Space)
    ensures DateScan(s, i, j, m, q) && DeadlineDateAt(s, i) == Some(Span(j, DateEnd(s, q)))
  {
  }

  lemma DeadlineDateAtFromScan(s: string, i: nat, j: nat, m: nat, q: nat)
    requires i < |s| && DateScan(s, i, j, m, q)
    ensures DeadlineDateAt(s, i) == Some(Span(j, DateEnd(s, q)))
  {
  }

  lemma DateScanFits(s: string, i: nat, j: nat, m: nat, q: nat)
    requires DateScan(s, i, j, m, q)
    ensures DateGroup(s, i, j, DateEnd(s, q))
  {
    SkipWhileRun(s, i + 2, Space);
    SkipWhileRun(s, j + 1, LowerLetter);
    SkipWhileRun(s, m, Space);
    var d := DayEnd(s, q);
    assert DateAfter(s, i, j, m, q, d);
    if Year(s, d).Some? {
      YearSound(s, d);
    }
  }

  /** The date matcher captures a group the reference allows. */
  lemma DeadlineDateSound(s: string, i: nat)
    requires i < |s| && DeadlineDateAt(s, i).Some?
    ensures DateGroup(s, i, DeadlineDateAt(s, i).value.start, DeadlineDateAt(s, i).value.end)
  {
    assert LitAt(s, i, "by");
    var j := SkipWhile(s, i + 2, Space);
    assert j < |s|;
    var m := SkipWhile(s, j + 1, LowerLetter);
    var q := SkipWhile(s, m, Space);
    DeadlineDateAtScan(s, i, j, m, q);
    DateScanFits(s, i, j, m, q);
  }

  lemma DateAfterRuns(s: string, i: nat, j: nat, m: nat, q: nat, d: nat)
    requires LitAt(s, i, "by") && DateAfter(s, i, j, m, q, d)
    ensures DateScan(s, i, j, m, q)
  {
    assert In(Space, s[m]) && IsAsciiDigit(s[q]);
    SkipWhileStops(s, i + 2, j, Space);
    SkipWhileStops(s, j + 1, m, LowerLetter);
    SkipWhileStops(s, m, q, Space);
  }

  /** Every group end the reference allows is at most the one the engine
      takes. */
  lemma DateEndIsLongest(s: string, q: nat, d: nat, e: nat)
    requires q < |s| && DayDigits(s, q, d) && (e == d || YearAt(s, d, e))
    ensures e <= DateEnd(s, q)
  {
    if e != d {
      var c: nat, r: nat :| YearParts(s, d, c, r, e);
      YearComplete(s, d, c, r, e);
      YearStartsWithNonDigit(s, d, c, r, e);
      if d == q + 2 {
        assert IsAsciiDigit(s[q + 1]);
      }
    } else if d == q + 2 {
      assert IsAsciiDigit(s[q + 1]);
    }
  }

  lemma DateGroupFound(s: string, i: nat, j: nat, e: nat, m: nat, q: nat, d: nat)
    requires LitAt(s, i, "by") && DateAfter(s, i, j, m, q, d) && (e == d || YearAt(s, d, e))
    ensures DeadlineDateAt(s, i).Some?
    ensures DeadlineDateAt(s, i).value.start == j && e <= DeadlineDateAt(s, i).value.end
  {
    DateAfterRuns(s, i, j, m, q, d);
    DeadlineDateAtFromScan(s, i, j, m, q);
    DateEndIsLongest(s, q, d, e);
  }

  /** Wherever the date pattern can match, the matcher finds the match, and
      its group is the longest one the pattern allows at that index: the
      group start is forced, the day takes two digits when there are two and
      the year is taken when it follows. */
  lemma DeadlineDateIsLongest(s: string, i: nat, j: nat, e: nat)
    ensures i < |s| && DateGroup(s, i, j, e) ==>
      DeadlineDateAt(s, i).Some? && DeadlineDateAt(s, i).value.start == j
      && e <= DeadlineDateAt(s, i).value.end
  {
    if i < |s| && DateGroup(s, i, j, e) {
      var m: nat, q: nat, d: nat :| DateAfter(s, i, j, m, q, d) && (e == d || YearAt(s, d, e));
      DateGroupFound(s, i, j, e, m, q, d);
    }
  }

  /** `deadline[:\s]*([0-9T:\-\/ ]+)` under `re.I` can match at `i` with
      group 1 spanning `a..b`: colons and whitespace up to `a`, then a
      non-empty run of group characters up to `b`. */
  ghost predicate LabelGroup(s: string, i: nat, a: nat, b: nat) {
    && CiLitAt(s, i, "deadline")
    && i + 8 <= a < b && AllIn(s, i + 8, a, ColonOrSpace) && AllIn(s, a, b, DeadlineChar)
  }

  /** The label matcher captures a group the reference allows, and that
      group cannot be extended to the right. */
  lemma DeadlineLabelSound(s: string, i: nat)
    requires i < |s| && DeadlineLabelAt(s, i).Some?
    ensures LabelGroup(s, i, DeadlineLabelAt(s, i).value.start, DeadlineLabelAt(s, i).value.end)
    ensures DeadlineLabelAt(s, i).value.end == |s|
         || !In(DeadlineChar, s[DeadlineLabelAt(s, i).value.end])
  {
    SkipWhileRun(s, i + 8, ColonOrSpace);
    var k := DeadlineLabelAt(s, i).value.start;
    SkipWhileRun(s, k, DeadlineChar);
  }

  lemma LabelGroupFound(s: string, i: nat, a: nat, b: nat)
    requires i < |s| && LabelGroup(s, i, a, b)
    ensures DeadlineLabelAt(s, i).Some?
    ensures a <= DeadlineLabelAt(s, i).value.start
    ensures a == DeadlineLabelAt(s, i).value.start ==> b <= DeadlineLabelAt(s, i).value.end
  {
    SkipWhileMaximal(s, i + 8, a, ColonOrSpace);
    assert In(DeadlineChar, s[a]);
    var k := DeadlineLabelAt(s, i).value.start;
    if a == k {
      SkipWhileMaximal(s, k, b, DeadlineChar);
    }
  }

  /** Wherever the label pattern can match, the matcher finds a match, and
      its group is the one the engine's backtracking reaches first: the
      group starts as late as the pattern allows (`[:\s]*` gives back as
      little as it can, so "Deadline: Friday" captures the lone blank) and
      then runs as far as it can. */
  lemma DeadlineLabelIsLatestLongest(s: string, i: nat, a: nat, b: nat)
    ensures i < |s| && LabelGroup(s, i, a, b) ==>
      DeadlineLabelAt(s, i).Some? && a <= DeadlineLabelAt(s, i).value.start
      && (a == DeadlineLabelAt(s, i).value.start ==> b <= DeadlineLabelAt(s, i).value.end)
  {
    if i < |s| && LabelGroup(s, i, a, b) {
      LabelGroupFound(s, i, a, b);
    }
  }

  /** The plain words of `TASK_KEYWORDS`, in order. */
  const TaskWords: seq<string> := ["task", "deadline", "deliverable", "action"]

  /** `\bWORD\b` under `re.I` matches at `i`. */
  ghost predicate WholeWordAt(s: string, i: nat, w: string) {
    CiLitAt(s, i, w) && Boundary(s, i) && Boundary(s, i + |w|)
  }

  /** One of the patterns `looks_like_task` applies to the lowered text
      matches at `i`. */
  ghost predicate KeywordRuleAt(s: string, i: nat) {
    i <= |s| &&
    ((exists k :: 0 <= k < |TaskWords| && WholeWordAt(s, i, TaskWords[k]))
     || PleaseVerbSpec(s, i) || ByMonthDaySpec(s, i))
  }

  /** `^- \[ \] |^- \[x\]` under `re.M` matches at `i`. */
  ghost predicate ChecklistLineAt(s: string, i: nat) {
    && (i == 0 || (i <= |s| && s[i - 1] == '\n'))
    && (LitAt(s, i, "- [ ] ") || LitAt(s, i, "- [x]"))
  }

  /** The reference reading of `looks_like_task`: a keyword rule fires
      somewhere in the lowered text, or a checklist line or a "by <word>
      <day>" phrase occurs in the text itself. */
  ghost predicate TaskSpec(content: string) {
    || (exists i :: 0 <= i < |content| && KeywordRuleAt(Lower(content), i))
    || (exists i :: 0 <= i < |content| && ChecklistLineAt(content, i))
    || (exists i :: 0 <= i < |content| && ByWordDaySpec(content, i))
  }

  /** `MatchAt` at an index inside the text is the pattern's own matcher. */
  lemma MatchAtInside(p: Pattern, s: string, i: nat)
    requires i < |s|
    ensures p.Keyword? ==> MatchAt(p, s, i) == KeywordAt(p.word, s, i)
    ensures p.PleaseVerb? ==> MatchAt(p, s, i) == PleaseVerbAt(s, i)
    ensures p.ByMonthDay? ==> MatchAt(p, s, i) == ByMonthDayAt(s, i)
    ensures p.Checklist? ==> MatchAt(p, s, i) == ChecklistAt(s, i)
    ensures p.ByWordDay? ==> MatchAt(p, s, i) == ByWordDayAt(s, i)
    ensures p.DeadlineDate? ==> MatchAt(p, s, i) == DeadlineDateAt(s, i)
    ensures p.DeadlineLabel? ==> MatchAt(p, s, i) == DeadlineLabelAt(s, i)
  {
  }

  lemma KeywordPatternFires(s: string, k: nat, i: nat)
    requires k < |TaskKeywords| && i < |s| && MatchAt(TaskKeywords[k], s, i).Some?
    ensures KeywordRuleAt(s, i)
  {
    MatchAtInside(TaskKeywords[k], s, i);
    if k < 4 {
      assert TaskKeywords[k] == Keyword(TaskWords[k]);
      assert WholeWordAt(s, i, TaskWords[k]);
    } else if k == 4 {
      PleaseVerbAtIff(s, i);
    } else {
      ByMonthDayAtIff(s, i);
    }
  }

  lemma WholeWordMatches(s: string, i: nat, k: nat)
    requires i < |s| && k < |TaskWords| && WholeWordAt(s, i, TaskWords[k])
    ensures MatchAt(TaskKeywords[k], s, i).Some?
  {
    assert TaskKeywords[k] == Keyword(TaskWords[k]);
    MatchAtInside(TaskKeywords[k], s, i);
  }

  lemma KeywordRuleMatches(s: string, i: nat)
    requires i < |s| && KeywordRuleAt(s, i)
    ensures exists k :: 0 <= k < |TaskKeywords| && MatchAt(TaskKeywords[k], s, i).Some?
  {
    if exists k :: 0 <= k < |TaskWords| && WholeWordAt(s, i, TaskWords[k]) {
      var k :| 0 <= k < |TaskWords| && WholeWordAt(s, i, TaskWords[k]);
      WholeWordMatches(s, i, k);
    } else if PleaseVerbSpec(s, i) {
      PleaseVerbAtIff(s, i);
      MatchAtInside(TaskKeywords[4], s, i);
    } else {
      ByMonthDayAtIff(s, i);
      MatchAtInside(TaskKeywords[5], s, i);
    }
  }

  lemma KeywordPatternsIff(s: string)
    ensures (exists k :: 0 <= k < |TaskKeywords| && Matches(TaskKeywords[k], s))
        <==> exists i :: 0 <= i < |s| && KeywordRuleAt(s, i)
  {
    if exists k :: 0 <= k < |TaskKeywords| && Matches(TaskKeywords[k], s) {
      var k :| 0 <= k < |TaskKeywords| && Matches(TaskKeywords[k], s);
      var i :| 0 <= i <= |s| && MatchAt(TaskKeywords[k], s, i).Some?;
      KeywordPatternFires(s, k, i);
    }
    if exists i :: 0 <= i < |s| && KeywordRuleAt(s, i) {
      var i :| 0 <= i < |s| && KeywordRuleAt(s, i);
      KeywordRuleMatches(s, i);
      var k :| 0 <= k < |TaskKeywords| && MatchAt(TaskKeywords[k], s, i).Some?;
      assert Matches(TaskKeywords[k], s);
    }
  }

  lemma ChecklistIff(s: string)
    ensures Matches(Checklist, s) <==> exists i :: 0 <= i < |s| && ChecklistLineAt(s, i)
  {
    if Matches(Checklist, s) {
      var i :| 0 <= i <= |s| && MatchAt(Checklist, s, i).Some?;
      MatchAtInside(Checklist, s, i);
      assert ChecklistLineAt(s, i);
    }
    if exists i :: 0 <= i < |s| && ChecklistLineAt(s, i) {
      var i :| 0 <= i < |s| && ChecklistLineAt(s, i);
      MatchAtInside(Checklist, s, i);
      assert MatchAt(Checklist, s, i).Some?;
    }
  }

  lemma ByWordDayIff(s: string)
    ensures Matches(ByWordDay, s) <==> exists i :: 0 <= i < |s| && ByWordDaySpec(s, i)
  {
    if Matches(ByWordDay, s) {
      var i :| 0 <= i <= |s| && MatchAt(ByWordDay, s, i).Some?;
      MatchAtInside(ByWordDay, s, i);
      ByWordDayAtIff(s, i);
    }
    if exists i :: 0 <= i < |s| && ByWordDaySpec(s, i) {
      var i :| 0 <= i < |s| && ByWordDaySpec(s, i);
      MatchAtInside(ByWordDay, s, i);
      ByWordDayAtIff(s, i);
      assert MatchAt(ByWordDay, s, i).Some?;
    }
  }

  /** `looks_like_task` is true exactly when the reference reading holds. */
  lemma LooksLikeTaskSpecIff(content: string)
    ensures LooksLikeTask(content) <==> TaskSpec(content)
  {
    LooksLikeTaskIff(content);
    KeywordPatternsIff(Lower(content));
    ChecklistIff(content);
    ByWordDayIff(content);
  }

  /** The date pattern can match at `i`. */
  ghost predicate DateMatchesAt(s: string, i: nat) {
    exists j: nat, e: nat :: DateGroup(s, i, j, e)
  }

  /** The label pattern can match at `i`. */
  ghost predicate LabelMatchesAt(s: string, i: nat) {
    exists a: nat, b: nat :: LabelGroup(s, i, a, b)
  }

  /** The date matcher matches exactly where the reference does. */
  lemma DeadlineDateAtIff(s: string, i: nat)
    requires i < |s|
    ensures DeadlineDateAt(s, i).Some? <==> DateMatchesAt(s, i)
  {
    if DeadlineDateAt(s, i).Some? {
      DeadlineDateSound(s, i);
    }
    if DateMatchesAt(s, i) {
      var j: nat, e: nat :| DateGroup(s, i, j, e);
      DeadlineDateIsLongest(s, i, j, e);
    }
  }

  /** The label matcher matches exactly where the reference does. */
  lemma DeadlineLabelAtIff(s: string, i: nat)
    requires i < |s|
    ensures DeadlineLabelAt(s, i).Some? <==> LabelMatchesAt(s, i)
  {
    if DeadlineLabelAt(s, i).Some? {
      DeadlineLabelSound(s, i);
    }
    if LabelMatchesAt(s, i) {
      var a: nat, b: nat :| LabelGroup(s, i, a, b);
      DeadlineLabelIsLatestLongest(s, i, a, b);
    }
  }

  /** Where a deadline pattern matches, in the reference's terms. */
  lemma DeadlineMatchAtIff(p: Pattern, s: string, i: nat)
    requires p.DeadlineDate? || p.DeadlineLabel?
    ensures MatchAt(p, s, i).Some? <==>
      i < |s| && (if p.DeadlineDate? then DateMatchesAt(s, i) else LabelMatchesAt(s, i))
  {
    if i < |s| {
      MatchAtInside(p, s, i);
      if p.DeadlineDate? {
        DeadlineDateAtIff(s, i);
      } else {
        DeadlineLabelAtIff(s, i);
      }
    }
  }

  /** `re.search` reports the first index where the pattern matches. */
  lemma SearchIsLeftmost(p: Pattern, c: string, i: nat)
    requires MatchAt(p, c, i).Some?
    requires forall i' :: 0 <= i' < i ==> MatchAt(p, c, i').None?
    ensures Search(p, c) == Some(i)
  {
    assert Matches(p, c);
  }

  /** `re.search` with the date pattern reports the leftmost index where
      the reference lets it match. */
  lemma DateSearchIsLeftmost(c: string, i: nat)
    requires i < |c| && DateMatchesAt(c, i)
    requires forall i' :: 0 <= i' < i ==> !DateMatchesAt(c, i')
    ensures Search(DeadlineDate, c) == Some(i)
  {
    DeadlineMatchAtIff(DeadlineDate, c, i);
    forall i' | 0 <= i' < i
      ensures MatchAt(DeadlineDate, c, i').None?
    {
      DeadlineMatchAtIff(DeadlineDate, c, i');
    }
    SearchIsLeftmost(DeadlineDate, c, i);
  }

  lemma LabelSearchIsLeftmost(c: string, i: nat)
    requires i < |c| && LabelMatchesAt(c, i)
    requires forall i' :: 0 <= i' < i ==> !LabelMatchesAt(c, i')
    ensures Search(DeadlineLabel, c) == Some(i)
  {
    DeadlineMatchAtIff(DeadlineLabel, c, i);
    forall i' | 0 <= i' < i
      ensures MatchAt(DeadlineLabel, c, i').None?
    {
      DeadlineMatchAtIff(DeadlineLabel, c, i');
    }
    SearchIsLeftmost(DeadlineLabel, c, i);
  }

  /** With no date anywhere, `re.search` with the date pattern fails. */
  lemma NoDateSearch(c: string)
    requires forall i :: 0 <= i < |c| ==> !DateMatchesAt(c, i)
    ensures Search(DeadlineDate, c).None?
  {
    forall i | 0 <= i <= |c|
      ensures MatchAt(DeadlineDate, c, i).None?
    {
      DeadlineMatchAtIff(DeadlineDate, c, i);
    }
  }

  lemma ExtractDeadlineDateAt(c: string, i: nat, j: nat, e: nat)
    requires i < |c| && DateGroup(c, i, j, e)
    requires forall i' :: 0 <= i' < i ==> !DateMatchesAt(c, i')
    ensures exists e': nat :: e <= e' && j <= e' <= |c| && DateGroup(c, i, j, e')
                              && ExtractDeadline(c) == Some(c[j..e'])
  {
    DateSearchIsLeftmost(c, i);
    DeadlineDateIsLongest(c, i, j, e);
    DeadlineDateSound(c, i);
    MatchAtInside(DeadlineDate, c, i);
    var e' := DeadlineDateAt(c, i).value.end;
    assert DateGroup(c, i, j, e');
  }

  /** `extract_deadline` with a date in the text: the result is the longest
      date group at the leftmost index where the date pattern matches. */
  lemma ExtractDeadlineTakesLeftmostDate(c: string, i: nat, j: nat, e: nat)
    ensures i < |c| && DateGroup(c, i, j, e) && (forall i' :: 0 <= i' < i ==> !DateMatchesAt(c, i')) ==>
      exists e': nat :: e <= e' && j <= e' <= |c| && DateGroup(c, i, j, e')
                        && ExtractDeadline(c) == Some(c[j..e'])
  {
    if i < |c| && DateGroup(c, i, j, e) && (forall i' :: 0 <= i' < i ==> !DateMatchesAt(c, i')) {
      ExtractDeadlineDateAt(c, i, j, e);
    }
  }

  lemma ExtractDeadlineLabelAt(c: string, i: nat, a: nat, b: nat)
    requires forall i' :: 0 <= i' < |c| ==> !DateMatchesAt(c, i')
    requires i < |c| && LabelGroup(c, i, a, b)
    requires forall i' :: 0 <= i' < i ==> !LabelMatchesAt(c, i')
    ensures exists a': nat, b': nat :: a <= a' <= b' <= |c| && (a == a' ==> b <= b')
                                      && LabelGroup(c, i, a', b') && ExtractDeadline(c) == Some(c[a'..b'])
  {
    NoDateSearch(c);
    LabelSearchIsLeftmost(c, i);
    DeadlineLabelIsLatestLongest(c, i, a, b);
    DeadlineLabelSound(c, i);
    MatchAtInside(DeadlineLabel, c, i);
    var g := DeadlineLabelAt(c, i).value;
    assert LabelGroup(c, i, g.start, g.end);
  }

  /** `extract_deadline` with no date in the text: the result is the group
      after the leftmost usable "deadline" label, starting as late and
      running as far as the pattern allows. */
  lemma ExtractDeadlineFallsBackToLabel(c: string, i: nat, a: nat, b: nat)
    ensures && (forall i' :: 0 <= i' < |c| ==> !DateMatchesAt(c, i'))
            && i < |c| && LabelGroup(c, i, a, b)
            && (forall i' :: 0 <= i' < i ==> !LabelMatchesAt(c, i')) ==>
      exists a': nat, b': nat :: a <= a' <= b' <= |c| && (a == a' ==> b <= b')
                                && LabelGroup(c, i, a', b') && ExtractDeadline(c) == Some(c[a'..b'])
  {
    if && (forall i' :: 0 <= i' < |c| ==> !DateMatchesAt(c, i'))
       && i < |c| && LabelGroup(c, i, a, b)
       && (forall i' :: 0 <= i' < i ==> !LabelMatchesAt(c, i')) {
      ExtractDeadlineLabelAt(c, i, a, b);
    }
  }

  /** `extract_deadline` returns nothing exactly when neither pattern can
      match anywhere. */
  lemma ExtractDeadlineNoneIff(c: string)
    ensures ExtractDeadline(c).None? <==>
      forall i :: 0 <= i < |c| ==> !DateMatchesAt(c, i) && !LabelMatchesAt(c, i)
  {
    forall i | 0 <= i <= |c|
      ensures MatchAt(DeadlineDate, c, i).Some? <==> i < |c| && DateMatchesAt(c, i)
      ensures MatchAt(DeadlineLabel, c, i).Some? <==> i < |c| && LabelMatchesAt(c, i)
    {
      DeadlineMatchAtIff(DeadlineDate, c, i);
      DeadlineMatchAtIff(DeadlineLabel, c, i);
    }
  }
}
