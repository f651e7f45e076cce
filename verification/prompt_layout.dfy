/**
 * The response layout the prompt of `analyzeFileContent` asks the model for,
 * and what the extractor recovers from a response that follows it exactly:
 *
 *   Summary: X
 *
 *   Feedback: Y
 *
 *   English Proficiency Score: Z%
 *
 * with `X` holding neither "Feedback:" nor "Score:", `Y` holding no
 * "Score:", and `Z` a number: digits with at most one decimal point.
 */
module PromptLayout {
  import opened Wrappers
  import opened JavaText
  import opened JavaDouble
  import opened AiService

  /** The words of the score label before "Score:". */
  const ScoreLabelHead: string := "English Proficiency"

  /**
   * A response in the requested layout, "Summary: X\n\nFeedback:
   * Y\n\nEnglish Proficiency Score: Z%", written as the pieces between the
   * keywords the extractor looks for.
   */
  function Layout(x: string, y: string, z: string): string {
    "Summary:" + (" " + x + "\n\n") + "Feedback:" + (" " + y + "\n\n" + ScoreLabelHead + " ") + "Score:" + (" " + z + "%")
  }

  /** A score placeholder that `Double.parseDouble` reads: digits, at least one, and at most one point. */
  predicate IsScoreNumber(z: string) {
    AllNumeric(z) && HasDigit(z) && PointCount(z) <= 1
  }

  /**
   * The placeholders as the layout lets them be: the summary text does not
   * hold the feedback label, neither text holds "Score:", and the score is
   * a number.
   */
  predicate WellFormed(x: string, y: string, z: string) {
    && !Contains(x, FeedbackKeywords[0]) && !Contains(x, ScoreKeywords[0])
    && !Contains(y, ScoreKeywords[0])
    && IsScoreNumber(z)
  }

  // ---------------------------------------------------------------------------
  // Where things are in a response
  // ---------------------------------------------------------------------------

  /** Six consecutive pieces of a concatenation, at the offsets their lengths give them. */
  lemma {:induction false} SixPieces(p1: string, p2: string, p3: string, p4: string, p5: string, p6: string)
    ensures var s := p1 + p2 + p3 + p4 + p5 + p6;
      var n1 := |p1|; var n2 := n1 + |p2|; var n3 := n2 + |p3|; var n4 := n3 + |p4|; var n5 := n4 + |p5|;
      && |s| == n5 + |p6|
      && s[..n1] == p1 && s[n1..n2] == p2 && s[n2..n3] == p3
      && s[n3..n4] == p4 && s[n4..n5] == p5 && s[n5..] == p6
  {
  }

  /**
   * `s` is a response in the layout for `x`, `y` and `z`, cut where the
   * keywords the extractor looks for begin and end.
   */
  predicate Shaped(s: string, x: string, y: string, z: string) {
    var a := |x|; var b := |y|;
    && |s| == 51 + a + b + |z|
    && s[..8] == "Summary:"
    && s[8..11 + a] == " " + x + "\n\n"
    && s[11 + a..20 + a] == "Feedback:"
    && s[20 + a..43 + a + b] == " " + y + "\n\n" + ScoreLabelHead + " "
    && s[43 + a + b..49 + a + b] == "Score:"
    && s[49 + a + b..] == " " + z + "%"
  }

  lemma {:induction false} LayoutShaped(x: string, y: string, z: string)
    ensures Shaped(Layout(x, y, z), x, y, z)
  {
    var p2 := " " + x + "\n\n";
    var p4 := " " + y + "\n\n" + ScoreLabelHead + " ";
    var p6 := " " + z + "%";
    SixPieces("Summary:", p2, "Feedback:", p4, "Score:", p6);
  }

  /** `k` occurs first at `p` from `from` on when it matches there and nowhere before. */
  lemma {:induction false} FirstMatchAt(s: string, k: string, from: nat, p: nat)
    requires from <= p && MatchesAt(s, k, p)
    requires forall j :: from <= j < p ==> !MatchesAt(s, k, j)
    ensures IndexOfFrom(s, k, from) == Some(p)
  {
  }

  /** The characters of a piece found at `lo` are the characters of `s` from `lo` on. */
  lemma {:induction false} PieceChars(s: string, lo: nat, p: string)
    requires lo + |p| <= |s| && s[lo..lo + |p|] == p
    ensures forall j :: lo <= j < lo + |p| ==> s[j] == p[j - lo]
  {
    forall j | lo <= j < lo + |p|
      ensures s[j] == p[j - lo]
    {
      assert s[lo..lo + |p|][j - lo] == s[j];
    }
  }

  /** A keyword whose first character is not in a fixed piece of text cannot start inside it. */
  lemma {:induction false} NoMatchOnLabel(s: string, k: string, lo: nat, hi: nat, fixed: string)
    requires |k| > 0 && hi == lo + |fixed| <= |s| && s[lo..hi] == fixed && k[0] !in fixed
    ensures forall j :: lo <= j < hi ==> !MatchesAt(s, k, j)
  {
    PieceChars(s, lo, fixed);
    forall j | lo <= j < hi
      ensures !MatchesAt(s, k, j)
    {
      assert fixed[j - lo] in fixed;
      if j + |k| <= |s| {
        assert s[j..j + |k|][0] == s[j];
      }
    }
  }

  /**
   * In a piece " " + `p` + "\n\n" of `s`, a keyword that holds no line feed,
   * does not start with a space and does not occur in `p` starts nowhere: a
   * match that began in `p` and ran past it would have to hold the line feed.
   */
  lemma {:induction false} NoMatchInGap(s: string, k: string, lo: nat, hi: nat, p: string)
    requires |k| > 0 && '\n' !in k && k[0] != ' '
    requires hi == lo + |p| + 3 <= |s| && s[lo..hi] == " " + p + "\n\n"
    requires !Contains(p, k)
    ensures forall j :: lo <= j < hi ==> !MatchesAt(s, k, j)
  {
    var g := " " + p + "\n\n";
    PieceChars(s, lo, g);
    var q := lo + 1 + |p|;
    assert s[lo] == ' ' && s[q] == '\n' && s[q + 1] == '\n' by {
      assert g[0] == ' ' && g[|p| + 1] == '\n' && g[|p| + 2] == '\n';
    }
    assert k[0] in k;
    forall j | lo <= j < q + 2
      ensures !MatchesAt(s, k, j)
    {
      if j + |k| <= |s| {
        var m := s[j..j + |k|];
        if lo < j && j + |k| <= q {
          forall i | 0 <= i < |k|
            ensures m[i] == p[j - lo - 1 + i]
          {
            assert g[j + i - lo] == p[j - lo - 1 + i];
          }
          assert m == p[j - lo - 1..j - lo - 1 + |k|];
          assert !MatchesAt(p, k, j - lo - 1);
        } else if lo < j <= q {
          assert m[q - j] == '\n';
          assert k[q - j] in k;
        } else {
          assert m[0] == s[j];
        }
      }
    }
  }

  /** The full score label ends with "Score:", so a text without "Score:" lacks the full label too. */
  lemma {:induction false} NoScoreNoLabel(y: string)
    ensures Contains(y, FeedbackEndKeywords[0]) ==> Contains(y, ScoreKeywords[0])
  {
    var k := FeedbackEndKeywords[0];
    if Contains(y, k) {
      var j := IndexOfFrom(y, k, 0).value;
      assert y[j..j + 26] == k;
      assert y[j + 20..j + 26] == k[20..];
      assert MatchesAt(y, ScoreKeywords[0], j + 20);
    }
  }

  // ---------------------------------------------------------------------------
  // The three fields
  // ---------------------------------------------------------------------------

  /**
   * When the first start keyword ends at `c` and the first end keyword from
   * there is at `e`, with " " + `p` + "\n\n" between them, the segment is `p`
   * trimmed.
   */
  lemma {:induction false} SegmentIsPiece(s: string, starts: seq<string>, ends: seq<string>, i: nat, c: nat, e: nat, p: string)
    requires |starts| > 0 && |ends| > 0 && c == i + |starts[0]|
    requires IndexOfFrom(s, starts[0], 0) == Some(i) && IndexOfFrom(s, ends[0], c) == Some(e)
    requires c <= e <= |s| && s[c..e] == " " + p + "\n\n"
    ensures FindContentBetweenKeywords(s, starts, ends) == Some(Trim(p))
  {
    ContentBetweenFirstKeywords(s, starts, ends, i, e);
    TrimSpaceAndBlankLine(p);
  }

  /** A piece set off by one space and a blank line trims to the piece trimmed. */
  lemma {:induction false} TrimSpaceAndBlankLine(p: string)
    ensures Trim(" " + p + "\n\n") == Trim(p)
  {
    TrimPadded(" ", p, "\n\n");
  }

  /** The summary keyword is found at the very start; the feedback label ends the summary. */
  lemma {:induction false} ShapedSummary(s: string, x: string, y: string, z: string)
    requires Shaped(s, x, y, z) && !Contains(x, FeedbackKeywords[0])
    ensures ExtractSummary(s) == Trim(x)
  {
    var a := |x|;
    assert IndexOfFrom(s, SummaryKeywords[0], 0) == Some(0) by {
      assert MatchesAt(s, SummaryKeywords[0], 0);
    }
    NoMatchInGap(s, FeedbackKeywords[0], 8, 11 + a, x);
    FirstMatchAt(s, FeedbackKeywords[0], 8, 11 + a);
    SegmentIsPiece(s, SummaryKeywords, FeedbackKeywords, 0, 8, 11 + a, x);
  }

  /** The first match of "Feedback:" is the one in the feedback label. */
  lemma {:induction false} ShapedFeedbackStart(s: string, x: string, y: string, z: string)
    requires Shaped(s, x, y, z) && !Contains(x, FeedbackKeywords[0])
    ensures IndexOfFrom(s, FeedbackKeywords[0], 0) == Some(11 + |x|)
  {
    var a := |x|;
    assert s[0..8] == "Summary:" by {
      assert s[0..8] == s[..8];
    }
    NoMatchOnLabel(s, FeedbackKeywords[0], 0, 8, "Summary:");
    NoMatchInGap(s, FeedbackKeywords[0], 8, 11 + a, x);
    FirstMatchAt(s, FeedbackKeywords[0], 0, 11 + a);
  }

  /** The text between the two labels, up to the blank line. */
  lemma {:induction false} ShapedFeedbackText(s: string, x: string, y: string, z: string)
    requires Shaped(s, x, y, z)
    ensures 23 + |x| + |y| <= |s| && s[20 + |x|..23 + |x| + |y|] == " " + y + "\n\n"
  {
    var a := |x|;
    var b := |y|;
    var piece := s[20 + a..43 + a + b];
    assert s[20 + a..23 + a + b] == piece[..3 + b];
    assert piece[..3 + b] == " " + y + "\n\n";
  }

  /** The words of the score label before "Score:" follow the feedback text and its blank line. */
  lemma {:induction false} ShapedLabelHead(s: string, x: string, y: string, z: string)
    requires Shaped(s, x, y, z)
    ensures s[23 + |x| + |y|..43 + |x| + |y|] == ScoreLabelHead + " "
  {
    var a := |x|;
    var b := |y|;
    var piece := s[20 + a..43 + a + b];
    assert s[23 + a + b..43 + a + b] == piece[3 + b..];
    assert piece[3 + b..] == ScoreLabelHead + " ";
  }

  /** The words before "Score:" and "Score:" itself make up the full score label. */
  lemma {:induction false} FullScoreLabel()
    ensures ScoreLabelHead + " " + "Score:" == FeedbackEndKeywords[0]
  {
  }

  /** The full score label follows the feedback text and its blank line. */
  lemma {:induction false} ShapedScoreLabelAt(s: string, x: string, y: string, z: string)
    requires Shaped(s, x, y, z)
    ensures MatchesAt(s, FeedbackEndKeywords[0], 23 + |x| + |y|)
  {
    var a := |x|;
    var b := |y|;
    ShapedLabelHead(s, x, y, z);
    assert s[23 + a + b..49 + a + b] == s[23 + a + b..43 + a + b] + s[43 + a + b..49 + a + b];
    FullScoreLabel();
  }

  /** The full score label is a keyword that a gap " " + `p` + "\n\n" without it cannot hold. */
  lemma {:induction false} FullScoreLabelShape()
    ensures |FeedbackEndKeywords[0]| == 26 && '\n' !in FeedbackEndKeywords[0] && FeedbackEndKeywords[0][0] != ' '
  {
  }

  /** A keyword that matches right after a gap it cannot occur in is first found there. */
  lemma {:induction false} FirstAfterGap(s: string, k: string, lo: nat, hi: nat, p: string)
    requires |k| > 0 && '\n' !in k && k[0] != ' '
    requires hi == lo + |p| + 3 <= |s| && s[lo..hi] == " " + p + "\n\n"
    requires !Contains(p, k) && MatchesAt(s, k, hi)
    ensures IndexOfFrom(s, k, lo) == Some(hi)
  {
    NoMatchInGap(s, k, lo, hi, p);
    FirstMatchAt(s, k, lo, hi);
  }

  /** The first match of the full score label after the feedback label is the label itself. */
  lemma {:induction false} ShapedScoreLabel(s: string, x: string, y: string, z: string)
    requires Shaped(s, x, y, z) && !Contains(y, FeedbackEndKeywords[0])
    ensures IndexOfFrom(s, FeedbackEndKeywords[0], 20 + |x|) == Some(23 + |x| + |y|)
  {
    ShapedScoreLabelAt(s, x, y, z);
    ShapedFeedbackText(s, x, y, z);
    FullScoreLabelShape();
    FirstAfterGap(s, FeedbackEndKeywords[0], 20 + |x|, 23 + |x| + |y|, y);
  }

  /** With the full score label first among the end keywords, the feedback segment is the feedback text. */
  lemma {:induction false} ShapedFeedbackContent(s: string, x: string, y: string, z: string)
    requires Shaped(s, x, y, z) && !Contains(x, FeedbackKeywords[0]) && !Contains(y, FeedbackEndKeywords[0])
    ensures FindContentBetweenKeywords(s, FeedbackKeywords, FeedbackEndKeywords) == Some(Trim(y))
  {
    var a := |x|;
    var b := |y|;
    ShapedFeedbackStart(s, x, y, z);
    ShapedScoreLabel(s, x, y, z);
    ShapedFeedbackText(s, x, y, z);
    SegmentIsPiece(s, FeedbackKeywords, FeedbackEndKeywords, 11 + a, 20 + a, 23 + a + b, y);
  }

  /** The corrected extraction returns the feedback text, trimmed. */
  lemma {:induction false} ShapedFeedback(s: string, x: string, y: string, z: string)
    requires Shaped(s, x, y, z) && !Contains(x, FeedbackKeywords[0]) && !Contains(y, FeedbackEndKeywords[0])
    ensures ExtractFeedbackCorrected(s) == Trim(y)
  {
    ShapedFeedbackContent(s, x, y, z);
  }

  /** After the feedback label, "Score:" is first found inside the score label. */
  lemma {:induction false} ShapedResidueEnd(s: string, x: string, y: string, z: string)
    requires Shaped(s, x, y, z) && !Contains(y, ScoreKeywords[0])
    ensures IndexOfFrom(s, ScoreKeywords[0], 20 + |x|) == Some(43 + |x| + |y|)
  {
    var a := |x|;
    var b := |y|;
    ShapedFeedbackText(s, x, y, z);
    NoMatchInGap(s, ScoreKeywords[0], 20 + a, 23 + a + b, y);
    ShapedLabelHead(s, x, y, z);
    NoMatchOnLabel(s, ScoreKeywords[0], 23 + a + b, 43 + a + b, ScoreLabelHead + " ");
    FirstMatchAt(s, ScoreKeywords[0], 20 + a, 43 + a + b);
  }

  /**
   * With the end keywords as written, the segment stops at the "Score:"
   * inside "English Proficiency Score:", the first end keyword in list
   * order, and so keeps the start of the score label.
   */
  lemma {:induction false} ShapedFeedbackContentAsWritten(s: string, x: string, y: string, z: string)
    requires Shaped(s, x, y, z) && !Contains(x, FeedbackKeywords[0]) && !Contains(y, ScoreKeywords[0])
    ensures FindContentBetweenKeywords(s, FeedbackKeywords, ScoreKeywords) == Some(Trim(y + "\n\n" + ScoreLabelHead))
  {
    var a := |x|;
    var b := |y|;
    ShapedFeedbackStart(s, x, y, z);
    ShapedResidueEnd(s, x, y, z);
    ContentBetweenFirstKeywords(s, FeedbackKeywords, ScoreKeywords, 11 + a, 43 + a + b);
    LabelGapTrim(y);
  }

  /** Trimming the feedback piece up to "Score:" drops the spaces around it. */
  lemma {:induction false} LabelGapTrim(y: string)
    ensures Trim(" " + y + "\n\n" + ScoreLabelHead + " ") == Trim(y + "\n\n" + ScoreLabelHead)
  {
    assert " " + y + "\n\n" + ScoreLabelHead + " " == " " + (y + "\n\n" + ScoreLabelHead) + " ";
    TrimPadded(" ", y + "\n\n" + ScoreLabelHead, " ");
  }

  /** As written, the extraction returns the feedback text, a blank line and the label's first words, trimmed. */
  lemma {:induction false} ShapedFeedbackAsWritten(s: string, x: string, y: string, z: string)
    requires Shaped(s, x, y, z) && !Contains(x, FeedbackKeywords[0]) && !Contains(y, ScoreKeywords[0])
    ensures ExtractFeedback(s) == Trim(y + "\n\n" + ScoreLabelHead)
  {
    ShapedFeedbackContentAsWritten(s, x, y, z);
  }

  /** The first "Score:" of a response is the one in the score label. */
  lemma {:induction false} ShapedScoreKeyword(s: string, x: string, y: string, z: string)
    requires Shaped(s, x, y, z) && !Contains(x, ScoreKeywords[0]) && !Contains(y, ScoreKeywords[0])
    ensures IndexOfFrom(s, ScoreKeywords[0], 0) == Some(43 + |x| + |y|)
  {
    var a := |x|;
    var k := ScoreKeywords[0];
    assert !MatchesAt(s, k, 0) by {
      assert s[..8][1] == 'u';
      if 6 <= |s| {
        assert s[0..6][1] == s[1];
      }
    }
    assert s[1..8] == "ummary:" by {
      assert s[1..8] == s[..8][1..];
    }
    NoMatchOnLabel(s, k, 1, 8, "ummary:");
    NoMatchInGap(s, k, 8, 11 + a, x);
    NoMatchOnLabel(s, k, 11 + a, 20 + a, "Feedback:");
    IndexOfFromEarlier(s, k, 0, 20 + a);
    ShapedResidueEnd(s, x, y, z);
  }

  /** The filter keeps exactly the digits and points of the score and drops the percent sign. */
  lemma {:induction false} ScoreDigitsKept(z: string)
    requires AllNumeric(z)
    ensures KeepNumeric(z + "%") == z
  {
    KeepNumericAppend(z, "%");
    KeepNumericOfNumeric(z);
    PercentDropped();
  }

  lemma {:induction false} PercentDropped()
    ensures KeepNumeric("%") == ""
  {
    assert "%"[1..] == "";
  }

  /** The score line parses to the number of the score, capped at 100. */
  lemma {:induction false} DigitsThenPercent(z: string)
    requires IsScoreNumber(z)
    ensures ParseScoreFromText(z + "%") == Some(Min(DecimalValue(z).value, MaxScore))
  {
    ScoreDigitsKept(z);
    KeepNumericOfNumeric(z);
    ScoreOnlySeesKept(z + "%", z);
  }

  /** A score of digits alone is that whole number, capped at 100. */
  lemma {:induction false} WholeScoreThenPercent(z: string)
    requires |z| > 0 && forall i :: 0 <= i < |z| ==> IsDigit(z[i])
    ensures ParseScoreFromText(z + "%") == Some(Min(Mantissa(z) as real, MaxScore))
  {
    ScoreDigitsKept(z);
    WholeNumberScore(z + "%", z);
  }

  /** One round of the keyword loop, once the keyword's first match and the trimmed rest are known. */
  lemma {:induction false} KeywordScoreOn(s: string, k: string, i: nat, line: string)
    requires IndexOfFrom(s, k, 0) == Some(i) && Trim(s[i + |k|..]) == line
    requires |SplitLines(line)| > 0 && SplitLines(line)[0] == line && Trim(line) == line
    ensures KeywordScore(s, k) == ParseScoreFromText(line)
  {
    KeywordEndAt(s, k, i);
    KeywordScoreFirstLine(s, k);
    FirstPieceIsFirstLine(line);
  }

  /** The score and its percent sign are left alone by trimming. */
  lemma {:induction false} ScoreLineTrimmed(z: string)
    requires |z| > 0 && AllNumeric(z)
    ensures Trim(" " + z + "%") == z + "%" && Trim(z + "%") == z + "%"
  {
    var line := z + "%";
    TrimPadded(" ", line, "");
    assert " " + line + "" == " " + z + "%";
    assert !IsTrimmable(line[0]) by { assert IsNumeric(line[0]); }
    TrimOfTrimmed(line);
  }

  /** The score and its percent sign form a single line. */
  lemma {:induction false} ScoreLineSingle(z: string)
    requires |z| > 0 && AllNumeric(z)
    ensures |SplitLines(z + "%")| > 0 && SplitLines(z + "%")[0] == z + "%"
  {
    var line := z + "%";
    forall j | 0 <= j < |line|
      ensures line[j] != '\n'
    {
      if j < |z| { assert IsNumeric(z[j]); }
    }
    var lines := SplitLines(line);
    assert |lines| > 0;
    assert |lines[0]| == |line|;
  }

  lemma {:induction false} ScoreLine(z: string)
    requires |z| > 0 && AllNumeric(z)
    ensures var line := z + "%";
      && Trim(" " + z + "%") == line && Trim(line) == line
      && |SplitLines(line)| > 0 && SplitLines(line)[0] == line
  {
    ScoreLineTrimmed(z);
    ScoreLineSingle(z);
  }

  /** What follows the score keyword is the score line, once trimmed. */
  lemma {:induction false} ShapedScoreRest(s: string, x: string, y: string, z: string)
    requires Shaped(s, x, y, z) && WellFormed(x, y, z)
    ensures IndexOfFrom(s, ScoreKeywords[0], 0) == Some(43 + |x| + |y|)
    ensures Trim(s[49 + |x| + |y|..]) == z + "%"
  {
    ShapedScoreKeyword(s, x, y, z);
    ScoreLine(z);
  }

  /** A keyword whose rest of text is a number and a percent sign scores that number. */
  lemma {:induction false} DigitsScore(s: string, k: string, i: nat, z: string)
    requires IsScoreNumber(z)
    requires IndexOfFrom(s, k, 0) == Some(i) && Trim(s[i + |k|..]) == z + "%"
    ensures KeywordScore(s, k) == Some(Min(DecimalValue(z).value, MaxScore))
  {
    ScoreLine(z);
    KeywordScoreOn(s, k, i, z + "%");
    DigitsThenPercent(z);
  }

  /** The first score keyword finds the score line. */
  lemma {:induction false} ShapedKeywordScore(s: string, x: string, y: string, z: string)
    requires Shaped(s, x, y, z) && WellFormed(x, y, z)
    ensures KeywordScore(s, ScoreKeywords[0]) == Some(Min(DecimalValue(z).value, MaxScore))
  {
    ShapedScoreRest(s, x, y, z);
    DigitsScore(s, ScoreKeywords[0], 43 + |x| + |y|, z);
  }

  /** The score is the number in the score label, capped at 100. */
  lemma {:induction false} ShapedScore(s: string, x: string, y: string, z: string)
    requires Shaped(s, x, y, z) && WellFormed(x, y, z)
    ensures ExtractScore(s) == Min(DecimalValue(z).value, MaxScore)
  {
    ShapedKeywordScore(s, x, y, z);
    FirstScoreFirstSuccess(ScoreKeywords, KeywordScorer(s), 0);
  }

  /**
   * A response in the requested layout gives back its three placeholders
   * through the corrected record: the summary and the feedback trimmed, the
   * score capped at 100.
   */
  lemma {:induction false} LayoutRoundTrip(x: string, y: string, z: string)
    requires WellFormed(x, y, z)
    ensures AnalyzeCorrected(Layout(x, y, z)) == Analysis(Trim(x), Trim(y), Min(DecimalValue(z).value, MaxScore))
  {
    var s := Layout(x, y, z);
    LayoutShaped(x, y, z);
    NoScoreNoLabel(y);
    ShapedSummary(s, x, y, z);
    ShapedFeedback(s, x, y, z);
    ShapedScore(s, x, y, z);
  }

  /**
   * The record `processFile` builds from the same response: the summary and
   * the score as intended, the feedback with the label's first words.
   */
  lemma {:induction false} LayoutRecordAsWritten(x: string, y: string, z: string)
    requires WellFormed(x, y, z)
    ensures Analyze(Layout(x, y, z)) == Analysis(Trim(x), Trim(y + "\n\n" + ScoreLabelHead), Min(DecimalValue(z).value, MaxScore))
  {
    var s := Layout(x, y, z);
    LayoutShaped(x, y, z);
    ShapedSummary(s, x, y, z);
    ShapedFeedbackAsWritten(s, x, y, z);
    ShapedScore(s, x, y, z);
  }

  /**
   * As written, `extractFeedback` on the same response returns the feedback
   * text followed by a blank line and "English Proficiency".
   */
  lemma {:induction false} LayoutFeedbackAsWritten(x: string, y: string, z: string)
    requires WellFormed(x, y, z)
    ensures ExtractFeedback(Layout(x, y, z)) == Trim(y + "\n\n" + ScoreLabelHead)
  {
    LayoutShaped(x, y, z);
    ShapedFeedbackAsWritten(Layout(x, y, z), x, y, z);
  }

  /**
   * Trimming text that ends with a blank gap and then `h` keeps all of `h`
   * on top of whatever trimming the text alone keeps.
   */
  lemma {:induction false} TrimKeepsTail(y: string, gap: string, h: string)
    requires forall i :: 0 <= i < |gap| ==> IsTrimmable(gap[i])
    requires |h| > 0 && !IsTrimmable(h[0]) && !IsTrimmable(h[|h| - 1])
    ensures |Trim(y + gap + h)| >= |Trim(y)| + |h|
  {
    var u := y + gap + h;
    assert u == y + (gap + h);
    TrimLeftAppend(y, gap + h);
    TrimLeftPadded(gap, h);
    assert TrimLeft(h) == h;
    var l := TrimLeft(u);
    TrimLeftIsSuffix(u);
    assert l[|l| - 1] == u[|u| - 1] == h[|h| - 1];
    assert TrimRight(l) == l;
  }

  /**
   * On every response in the requested layout, `extractFeedback` as written
   * returns at least the words "English Proficiency" more than the feedback
   * text: the two never agree.
   */
  lemma {:induction false} AsWrittenKeepsLabelWords(x: string, y: string, z: string)
    requires WellFormed(x, y, z)
    ensures |ExtractFeedback(Layout(x, y, z))| >= |ExtractFeedbackCorrected(Layout(x, y, z))| + |ScoreLabelHead|
  {
    var s := Layout(x, y, z);
    LayoutShaped(x, y, z);
    NoScoreNoLabel(y);
    ShapedFeedback(s, x, y, z);
    ShapedFeedbackAsWritten(s, x, y, z);
    LabelHeadKept(y);
  }

  /** The feedback as written keeps the whole "English Proficiency" head. */
  lemma {:induction false} LabelHeadKept(y: string)
    ensures |Trim(y + "\n\n" + ScoreLabelHead)| >= |Trim(y)| + |ScoreLabelHead|
  {
    TrimKeepsTail(y, "\n\n", ScoreLabelHead);
  }
}
