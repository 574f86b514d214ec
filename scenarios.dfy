/** Worked examples of the handlers on concrete message texts. */
module Scenarios {
  import opened Wrappers
  import opened PyStr
  import opened TaskDetector
  import opened Summarizer

  lemma DateTextYear()
    ensures Year("by May 5, 2025", 8) == Some(14)
  {
    var s := "by May 5, 2025";
    assert SkipWhile(s, 9, Space) == 10;
  }

  lemma DateTextRuns()
    ensures LitAt("by May 5, 2025", 0, "by")
    ensures SkipWhile("by May 5, 2025", 2, Space) == 3
    ensures SkipWhile("by May 5, 2025", 4, LowerLetter) == 6
    ensures SkipWhile("by May 5, 2025", 6, Space) == 7
  {
    var s := "by May 5, 2025";
    assert s[..2] == "by";
  }

  lemma DateTextMatch()
    ensures MatchAt(DeadlineDate, "by May 5, 2025", 0) == Some(Span(3, 14))
  {
    DateTextRuns();
    DateTextYear();
  }

  lemma DateTextCapture()
    ensures MatchAt(DeadlineDate, "by May 5, 2025", 0).Some?
    ensures Capture(DeadlineDate, "by May 5, 2025", 0) == "May 5, 2025"
  {
    var s := "by May 5, 2025";
    DateTextMatch();
    assert Capture(DeadlineDate, s, 0) == s[3..14];
    assert s[3..14] == "May 5, 2025";
  }

  lemma DateTextSearch()
    ensures Search(DeadlineDate, "by May 5, 2025") == Some(0)
  {
    DateTextMatch();
  }

  /** The deadline is what the leftmost date captures, when there is one. */
  lemma DeadlineFromDate(s: string, i: nat)
    requires Search(DeadlineDate, s) == Some(i)
    ensures ExtractDeadline(s) == Some(Capture(DeadlineDate, s, i))
  {
  }

  /** The deadline of "by May 5, 2025" is the date with its year. */
  lemma DeadlineWithYear()
    ensures ExtractDeadline("by May 5, 2025") == Some("May 5, 2025")
  {
    DateTextSearch();
    DeadlineFromDate("by May 5, 2025", 0);
    DateTextCapture();
  }

  /** The date pattern starts with a literal "by": a text without a "b"
      has no date. */
  lemma NoDateWithoutB(s: string)
    requires forall j :: 0 <= j < |s| ==> s[j] != 'b'
    ensures Search(DeadlineDate, s) == None
  {
    forall i | 0 <= i <= |s| ensures MatchAt(DeadlineDate, s, i).None? {
      if i < |s| {
        assert s[i] != 'b';
      }
    }
  }

  lemma LabelTextRuns()
    ensures CiLitAt("Deadline: Friday", 0, "deadline")
    ensures SkipWhile("Deadline: Friday", 8, ColonOrSpace) == 10
  {
  }

  lemma LabelTextMatch()
    ensures MatchAt(DeadlineLabel, "Deadline: Friday", 0) == Some(Span(9, 10))
  {
    var s := "Deadline: Friday";
    LabelTextRuns();
    assert LastDeadlineCharFrom(s, 8, 10) == Some(9);
    assert SkipWhile(s, 9, DeadlineChar) == 10;
  }

  lemma LabelTextCapture()
    ensures MatchAt(DeadlineLabel, "Deadline: Friday", 0).Some?
    ensures Capture(DeadlineLabel, "Deadline: Friday", 0) == " "
  {
    var s := "Deadline: Friday";
    LabelTextMatch();
    assert Capture(DeadlineLabel, s, 0) == s[9..10];
    assert s[9..10] == " ";
  }

  lemma LabelTextSearch()
    ensures Search(DeadlineLabel, "Deadline: Friday") == Some(0)
  {
    LabelTextMatch();
  }

  /** Without a date, the deadline is what the leftmost label captures. */
  lemma DeadlineFromLabel(s: string, i: nat)
    requires Search(DeadlineDate, s) == None && Search(DeadlineLabel, s) == Some(i)
    ensures ExtractDeadline(s) == Some(Capture(DeadlineLabel, s, i))
  {
  }

  /** "Deadline: Friday": the label pattern's `[:\s]*` gives the space back
      to the group, whose class holds the space but no letter, so the
      deadline found is a single space. */
  lemma DeadlineLabelKeepsOnlyTheSpace()
    ensures ExtractDeadline("Deadline: Friday") == Some(" ")
  {
    var s := "Deadline: Friday";
    assert forall j :: 0 <= j < |s| ==> s[j] != 'b';
    NoDateWithoutB(s);
    LabelTextSearch();
    DeadlineFromLabel(s, 0);
    LabelTextCapture();
  }

  lemma TitleTextStrip()
    ensures Strip("Fix it\nsoon") == "Fix it\nsoon"
  {
    var c := "Fix it\nsoon";
    assert c[0] == 'F' && c[10] == 'n';
    assert SkipWhile(c, 0, Space) == 0;
    assert TrailBack(c, 0, 11, Space) == 11;
  }

  lemma TitleTextFirstLine()
    ensures SplitLines("Fix it\nsoon")[0] == "Fix it"
  {
    var c := "Fix it\nsoon";
    assert SkipWhile(c, 0, NotLineBreak) == 6;
    assert c[..6] == "Fix it";
  }

  /** The title is the first line of the stripped text. */
  lemma TitleIsFirstLine()
    ensures HasNonSpace("Fix it\nsoon") && ExtractTitle("Fix it\nsoon") == "Fix it"
  {
    var c := "Fix it\nsoon";
    assert !IsSpace(c[0]);
    TitleTextStrip();
    TitleTextFirstLine();
  }

  /** Removing the bullet stops at the "[" of a checklist box, so the box
      stays part of the deliverable. */
  lemma ChecklistBulletKeepsBox()
    ensures BulletItem("- [ ] ab") == "[ ] ab"
  {
    var l := "- [ ] ab";
    assert SkipWhile(l, 0, BulletChar) == 2;
    assert TrailBack(l, 2, 8, BulletChar) == 8;
    assert StripWith(l, BulletChar) == "[ ] ab";
    var t := "[ ] ab";
    assert SkipWhile(t, 0, Space) == 0;
    assert TrailBack(t, 0, 6, Space) == 6;
  }
}
