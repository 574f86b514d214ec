/** The pieces of Python's `str` that the Iris handlers rely on: `isspace`,
    `strip()`, `strip(chars)`, `splitlines()`, `lower()` and slicing `s[:n]`.
    Character classes are those of Python's `str` where that is a finite list
    (whitespace, line boundaries); letters and digits are ASCII. */
module PyStr {

  /** `c.isspace()` in Python 3: the characters of bidirectional class WS, B
      or S, or of category Zs. This is also what `\s` matches in a `str`
      pattern. */
  predicate IsSpace(c: char) {
    ('\t' <= c <= '\r') || ('\U{1C}' <= c <= ' ') || c == '\U{85}' || c == '\U{A0}'
    || c == '\U{1680}' || ('\U{2000}' <= c <= '\U{200A}') || c == '\U{2028}' || c == '\U{2029}'
    || c == '\U{202F}' || c == '\U{205F}' || c == '\U{3000}'
  }

  /** A line boundary of `str.splitlines()` (the pair "\r\n" counts as one,
      see `BreakWidth`). Every line boundary is whitespace. */
  predicate IsLineBreak(c: char)
    ensures IsLineBreak(c) ==> IsSpace(c)
  {
    c == '\n' || c == '\r' || c == '\U{0B}' || c == '\U{0C}' || c == '\U{1C}'
    || c == '\U{1D}' || c == '\U{1E}' || c == '\U{85}' || c == '\U{2028}' || c == '\U{2029}'
  }

  predicate IsAsciiDigit(c: char) { '0' <= c <= '9' }
  predicate IsAsciiUpper(c: char) { 'A' <= c <= 'Z' }
  predicate IsAsciiLower(c: char) { 'a' <= c <= 'z' }
  predicate IsAsciiLetter(c: char) { IsAsciiUpper(c) || IsAsciiLower(c) }

  /** `\w`: letters, digits and the underscore. */
  predicate IsWordChar(c: char) { IsAsciiLetter(c) || IsAsciiDigit(c) || c == '_' }

  /** The character sets the handlers scan with: regular-expression classes
      (`\s`, `[A-Za-z]`, `[a-z]`, `\w`, `[:\s]`, `[0-9T:\-\/ ]` under `re.I`),
      the complement of the line boundaries, and the set of `strip("-* ")`. */
  datatype CharClass =
    | Space | NotLineBreak | Letter | LowerLetter | Word | ColonOrSpace | DeadlineChar | BulletChar

  predicate In(cls: CharClass, c: char) {
    match cls
    case Space => IsSpace(c)
    case NotLineBreak => !IsLineBreak(c)
    case Letter => IsAsciiLetter(c)
    case LowerLetter => IsAsciiLower(c)
    case Word => IsWordChar(c)
    case ColonOrSpace => c == ':' || IsSpace(c)
    case DeadlineChar => IsAsciiDigit(c) || c == 'T' || c == 't' || c == ':' || c == '-' || c == '/' || c == ' '
    case BulletChar => c == '-' || c == '*' || c == ' '
  }

  /** `c.lower()` on ASCII; every other character is left as it is. */
  function LowerChar(c: char): (r: char)
    ensures IsAsciiUpper(c) ==> IsAsciiLower(r) && r as int == c as int + 32
    ensures !IsAsciiUpper(c) ==> r == c
  {
    if IsAsciiUpper(c) then (c as int + 32) as char else c
  }

  /** `s.lower()`: same length, character by character. */
  function Lower(s: string): (r: string)
    ensures |r| == |s|
    ensures forall i :: 0 <= i < |s| ==> r[i] == LowerChar(s[i])
  {
    seq(|s|, i requires 0 <= i < |s| => LowerChar(s[i]))
  }

  /** Lowering keeps a character a word character, a space, or neither. */
  lemma LowerCharKeepsClass(c: char)
    ensures IsWordChar(LowerChar(c)) == IsWordChar(c)
    ensures IsSpace(LowerChar(c)) == IsSpace(c)
    ensures IsAsciiDigit(LowerChar(c)) == IsAsciiDigit(c)
    ensures LowerChar(LowerChar(c)) == LowerChar(c)
  {}

  /** True iff the text holds a character that is not whitespace. */
  predicate HasNonSpace(s: string) {
    exists i :: 0 <= i < |s| && !IsSpace(s[i])
  }

  /** The first index at or after `k` whose character does not satisfy `p`
      (the end of a greedy run of `p`). */
  function SkipWhile(s: string, k: nat, cls: CharClass): (r: nat)
    requires k <= |s|
    ensures k <= r <= |s|
    ensures r < |s| ==> !In(cls, s[r])
    decreases |s| - k
  {
    if k < |s| && In(cls, s[k]) then SkipWhile(s, k + 1, cls) else k
  }

  /** Every character of `s[a..b]` is in the class. */
  predicate AllIn(s: string, a: nat, b: nat, cls: CharClass) {
    a <= b <= |s| && forall t :: a <= t < b ==> In(cls, s[t])
  }

  /** A greedy run of `cls` from `a` ends exactly where the class first
      fails. */
  lemma {:induction false} SkipWhileStops(s: string, a: nat, b: nat, cls: CharClass)
    requires AllIn(s, a, b, cls) && (b == |s| || !In(cls, s[b]))
    ensures SkipWhile(s, a, cls) == b
    decreases b - a
  {
    if a < b {
      SkipWhileStops(s, a + 1, b, cls);
    }
  }

  /** A greedy run of `cls` from `a` reaches at least as far as any run of
      `cls` from `a`. */
  lemma {:induction false} SkipWhileMaximal(s: string, a: nat, b: nat, cls: CharClass)
    requires AllIn(s, a, b, cls)
    ensures b <= SkipWhile(s, a, cls)
    decreases b - a
  {
    if a < b {
      SkipWhileMaximal(s, a + 1, b, cls);
    }
  }

  /** Every character that `SkipWhile` passes over is in the class. */
  lemma {:induction false} SkipWhileRun(s: string, k: nat, cls: CharClass)
    requires k <= |s|
    ensures forall j :: k <= j < SkipWhile(s, k, cls) ==> In(cls, s[j])
    decreases |s| - k
  {
    if k < |s| && In(cls, s[k]) {
      SkipWhileRun(s, k + 1, cls);
    }
  }

  /** The start of the run of characters of `cls` that ends at `k`, not
      going below `lo`: `strip` scans back from the end while it is still
      right of the left cut. */
  function TrailBack(s: string, lo: nat, k: nat, cls: CharClass): (r: nat)
    requires lo <= k <= |s|
    ensures lo <= r <= k
    ensures forall j :: r <= j < k ==> In(cls, s[j])
    ensures r > lo ==> !In(cls, s[r - 1])
    decreases k
  {
    if k > lo && In(cls, s[k - 1]) then TrailBack(s, lo, k - 1, cls) else k
  }

  /** `s.strip(chars)`, with the character set `cls`. What it keeps is
      stated by `StripWithSlice`. */
  function StripWith(s: string, cls: CharClass): (r: string)
    ensures |r| <= |s|
  {
    s[SkipWhile(s, 0, cls)..TrailBack(s, SkipWhile(s, 0, cls), |s|, cls)]
  }

  /** `strip` keeps the slice of `s` that starts at the first character not
      in `cls` and ends after the last one: only characters of `cls` lie
      outside it, and it neither starts nor ends with one. */
  lemma StripWithSlice(s: string, cls: CharClass)
    ensures SkipWhile(s, 0, cls) + |StripWith(s, cls)| <= |s|
    ensures StripWith(s, cls) == s[SkipWhile(s, 0, cls)..SkipWhile(s, 0, cls) + |StripWith(s, cls)|]
    ensures forall j :: 0 <= j < SkipWhile(s, 0, cls) ==> In(cls, s[j])
    ensures forall j :: SkipWhile(s, 0, cls) + |StripWith(s, cls)| <= j < |s| ==> In(cls, s[j])
    ensures StripWith(s, cls) != [] ==>
      !In(cls, StripWith(s, cls)[0]) && !In(cls, StripWith(s, cls)[|StripWith(s, cls)| - 1])
  {
    SkipWhileRun(s, 0, cls);
    var a := SkipWhile(s, 0, cls);
    var b := TrailBack(s, a, |s|, cls);
    assert StripWith(s, cls) == s[a..b];
  }

  /** `s.strip()`. */
  function Strip(s: string): (r: string)
    ensures |r| <= |s|
  {
    StripWith(s, Space)
  }

  /** `s.strip()` neither starts nor ends with whitespace. */
  lemma StripEnds(s: string)
    ensures Strip(s) != [] ==> !IsSpace(Strip(s)[0]) && !IsSpace(Strip(s)[|Strip(s)| - 1])
  {
    StripWithSlice(s, Space);
  }

  /** `s.strip()` is empty exactly when `s` is all whitespace. */
  lemma StripEmptyIff(s: string)
    ensures Strip(s) != [] <==> HasNonSpace(s)
  {
    StripWithSlice(s, Space);
    SkipWhileRun(s, 0, Space);
    var a := SkipWhile(s, 0, Space);
    if Strip(s) != [] {
      assert s[a] == Strip(s)[0];
    } else {
      assert forall j :: 0 <= j < |s| ==> IsSpace(s[j]) by {
        forall j | 0 <= j < |s| ensures IsSpace(s[j]) {
          assert In(Space, s[j]);
        }
      }
    }
  }

  /** `s[:n]`: the longest prefix of `s` of length at most `n`. */
  function Take<T>(s: seq<T>, n: nat): (r: seq<T>)
    ensures |r| == if |s| <= n then |s| else n
    ensures r == s[..|r|]
  {
    if |s| <= n then s else s[..n]
  }

  /** Width of the line boundary at `k`: "\r\n" is one boundary. */
  function BreakWidth(s: string, k: nat): (w: nat)
    requires k < |s|
    ensures 1 <= w <= |s| - k
  {
    if s[k] == '\r' && k + 1 < |s| && s[k + 1] == '\n' then 2 else 1
  }

  /** The index of the first line boundary of `s`, or `|s|`. */
  function LineEnd(s: string): (k: nat)
    ensures k <= |s|
    ensures forall j :: 0 <= j < k ==> !IsLineBreak(s[j])
    ensures k < |s| ==> IsLineBreak(s[k])
  {
    SkipWhileRun(s, 0, NotLineBreak);
    SkipWhile(s, 0, NotLineBreak)
  }

  /** `s.splitlines()`: the text between line boundaries, with no empty line
      after a final boundary and no line at all for the empty text. */
  function SplitLines(s: string): (ls: seq<string>)
    ensures s == [] <==> ls == []
    ensures s != [] ==> ls[0] == s[..LineEnd(s)]
    decreases |s|
  {
    if s == [] then []
    else
      var k := LineEnd(s);
      if k == |s| then [s]
      else [s[..k]] + SplitLines(s[k + BreakWidth(s, k)..])
  }

  /** A line boundary of `splitlines()`: "\r\n" or one line-break
      character. */
  predicate IsBoundary(b: string) {
    b == "\r\n" || (|b| == 1 && IsLineBreak(b[0]))
  }

  /** The lines put back together, each followed by its boundary. */
  function Rejoin(ls: seq<string>, bs: seq<string>): string
    requires |ls| == |bs|
    decreases |ls|
  {
    if ls == [] then [] else ls[0] + bs[0] + Rejoin(ls[1..], bs[1..])
  }

  predicate StartsWithNewline(t: string) {
    |t| > 0 && t[0] == '\n'
  }

  /** No character of `t` is a line boundary. */
  predicate NoLineBreak(t: string) {
    forall j :: 0 <= j < |t| ==> !IsLineBreak(t[j])
  }

  /** `bs` are the boundaries that cut `s` into the lines `ls`: `s` starts
      with the first line and its boundary, and the rest of `s` is cut the
      same way into the other lines. No line holds a line break; only the
      last line may lack a boundary, and then it is not empty; and a lone
      "\r" boundary is never followed by an empty line with a "\n"
      boundary, which would make the two one boundary. */
  ghost predicate SplitsInto(s: string, ls: seq<string>, bs: seq<string>)
    decreases |ls|
  {
    && |bs| == |ls|
    && if ls == [] then s == []
       else
         && NoLineBreak(ls[0])
         && (IsBoundary(bs[0]) || (|ls| == 1 && bs[0] == [] && ls[0] != []))
         && (bs[0] == "\r" && |ls| > 1 && ls[1] == [] ==> !StartsWithNewline(bs[1]))
         && |ls[0]| + |bs[0]| <= |s| && s[..|ls[0]| + |bs[0]|] == ls[0] + bs[0]
         && SplitsInto(s[|ls[0]| + |bs[0]|..], ls[1..], bs[1..])
  }

  /** What a split says line by line: the text is the lines, each followed
      by its boundary, and no line holds a line break. */
  lemma {:induction false} SplitsIntoLines(s: string, ls: seq<string>, bs: seq<string>)
    requires SplitsInto(s, ls, bs)
    ensures s == Rejoin(ls, bs)
    ensures forall k :: 0 <= k < |ls| ==> NoLineBreak(ls[k])
    decreases |ls|
  {
    if ls != [] {
      var n := |ls[0]| + |bs[0]|;
      SplitsIntoLines(s[n..], ls[1..], bs[1..]);
      assert s == s[..n] + s[n..];
      forall k | 1 <= k < |ls| ensures NoLineBreak(ls[k]) {
        assert ls[k] == ls[1..][k - 1];
      }
    }
  }

  lemma SliceThree<T>(s: seq<T>, i: nat, j: nat)
    requires i <= j <= |s|
    ensures s == s[..i] + s[i..j] + s[j..]
  {
  }

  /** The boundary `splitlines()` cuts after each of its lines; the last
      line's is empty when the text does not end with a line break. */
  function LineBoundaries(s: string): seq<string>
    decreases |s|
  {
    if s == [] then []
    else
      var k := LineEnd(s);
      if k == |s| then [[]]
      else [s[k..k + BreakWidth(s, k)]] + LineBoundaries(s[k + BreakWidth(s, k)..])
  }

  /** `splitlines()` cuts the text at its line boundaries and nowhere else. */
  lemma {:induction false} SplitLinesRebuild(s: string)
    ensures SplitsInto(s, SplitLines(s), LineBoundaries(s))
    decreases |s|
  {
    if s == [] {
      assert SplitsInto(s, SplitLines(s), []);
    } else if LineEnd(s) == |s| {
      OneLineRebuild(s);
    } else {
      var k := LineEnd(s);
      var rest := s[k + BreakWidth(s, k)..];
      SplitLinesRebuild(rest);
      FirstLineRebuild(s, rest, LineBoundaries(rest));
    }
  }

  lemma OneLineRebuild(s: string)
    requires s != [] && LineEnd(s) == |s|
    ensures SplitsInto(s, SplitLines(s), [[]])
  {
    assert SplitLines(s) == [s];
    assert s[..|s|] == s + [];
    assert SplitsInto(s[|s|..], [], []);
  }

  lemma FirstLineRebuild(s: string, rest: string, bs: seq<string>)
    requires s != [] && LineEnd(s) < |s|
    requires rest == s[LineEnd(s) + BreakWidth(s, LineEnd(s))..]
    requires SplitsInto(rest, SplitLines(rest), bs)
    ensures SplitsInto(s, SplitLines(s), [s[LineEnd(s)..LineEnd(s) + BreakWidth(s, LineEnd(s))]] + bs)
  {
    var k := LineEnd(s);
    var w := BreakWidth(s, k);
    var b := s[k..k + w];
    var ls := SplitLines(rest);
    var ls2, bs2 := [s[..k]] + ls, [b] + bs;
    assert SplitLines(s) == ls2;
    assert ls2[1..] == ls && bs2[1..] == bs;
    FirstBoundary(s, k);
    LoneCrBoundary(s, k, rest, ls, bs);
    SliceThree(s, k, k + w);
    assert s[..k + w] == s[..k] + b;
    assert s[k + w..] == rest;
  }

  /** The boundary after the first line is a boundary. */
  lemma FirstBoundary(s: string, k: nat)
    requires k < |s| && IsLineBreak(s[k])
    ensures IsBoundary(s[k..k + BreakWidth(s, k)])
  {
    if BreakWidth(s, k) == 2 {
      assert s[k..k + 2] == [s[k], s[k + 1]];
    } else {
      assert s[k..k + 1] == [s[k]];
    }
  }

  /** A lone "\r" after the first line is not followed by "\n". */
  lemma LoneCrBoundary(s: string, k: nat, rest: string, ls: seq<string>, bs: seq<string>)
    requires k < |s| && rest == s[k + BreakWidth(s, k)..] && SplitsInto(rest, ls, bs)
    ensures s[k..k + BreakWidth(s, k)] == "\r" && ls != [] && ls[0] == [] ==> !StartsWithNewline(bs[0])
  {
    var w := BreakWidth(s, k);
    if s[k..k + w] == "\r" && ls != [] && ls[0] == [] {
      assert rest[..|bs[0]|] == bs[0];
      assert s[k] == s[k..k + w][0] && rest[0] == s[k + 1];
    }
  }

  /** Python's `s.startswith("-")`. */
  predicate StartsWithDash(s: string) {
    |s| > 0 && s[0] == '-'
  }
}
