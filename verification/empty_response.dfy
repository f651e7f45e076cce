/**
 * The empty response: a summary of its own (empty) first line, no feedback
 * and the default score.
 */
module EmptyResponse {
  import opened Wrappers
  import opened JavaText
  import opened AiService

  /** No keyword of any list occurs in the empty text. */
  lemma {:induction false} NothingInEmpty(keys: seq<string>)
    requires forall q :: 0 <= q < |keys| ==> |keys[q]| > 0
    ensures ContainsNone("", keys)
  {
    forall q | 0 <= q < |keys|
      ensures !Contains("", keys[q])
    {
      var k := keys[q];
      assert !MatchesAt("", k, 0);
    }
  }

  /** The empty text splits into one empty line, so the line scan finds no feedback. */
  lemma {:induction false} EmptyFeedback()
    ensures ExtractFeedback("") == FeedbackNotFound
    ensures ExtractFeedbackCorrected("") == FeedbackNotFound
  {
    NothingInEmpty(FeedbackKeywords);
    assert |SplitLines("")| <= 2;
  }

  /** Neither a keyword nor a percent word yields a score, so the default is returned. */
  lemma {:induction false} EmptyScore()
    ensures ExtractScore("") == DefaultScore
  {
    NothingInEmpty(ScoreKeywords);
    assert ExtractScoreFromKeywords("", ScoreKeywords).None?;
    assert SplitWhitespace("") == [""];
    assert WordScore("").None?;
  }

  lemma {:induction false} EmptyAnalysis()
    ensures Analyze("") == Analysis("", FeedbackNotFound, DefaultScore)
  {
    EmptyFeedback();
    EmptyScore();
  }
}
