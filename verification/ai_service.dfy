/**
 * The analysis-text field extractor of `AiService`: from the raw text a
 * language model returns, recover a summary, a feedback block and a score.
 * Every member here is total over all strings; `null` and the index `-1` of
 * the Java code are `None`.
 */
module AiService {
  import opened Wrappers
  import opened JavaText
  import opened JavaDouble

  const SummaryKeywords: seq<string> := ["Summary:", "SUMMARY:", "summary:", "1. Summary", "**Summary**"]
  const FeedbackKeywords: seq<string> := ["Feedback:", "FEEDBACK:", "feedback:", "2. Feedback", "**Feedback**"]
  const ScoreKeywords: seq<string> := ["Score:", "SCORE:", "score:", "3. Score", "**Score**", "Percentage:", "Rating:"]

  const SummaryNotFound: string := "Summary not found"
  const FeedbackNotFound: string := "Feedback not found"
  const DefaultScore: real := 75.0
  const MaxScore: real := 100.0
  const PreviewLength: nat := 200
  const Ellipsis: string := "..."

  /** No keyword of `keys` occurs anywhere in `s`. */
  predicate ContainsNone(s: string, keys: seq<string>) {
    forall q {:trigger Contains(s, keys[q])} :: 0 <= q < |keys| ==> !Contains(s, keys[q])
  }

  // ---------------------------------------------------------------------------
  // findNextKeywordIndex
  // ---------------------------------------------------------------------------

  /** `k` occurs in `s` at or after offset `from`. */
  predicate OccursFrom(s: string, k: string, from: nat) {
    IndexOfFrom(s, k, from).Some?
  }

  /**
   * The offset of the first keyword, in list order, that occurs at or after
   * `startFrom`: that keyword's first such offset. It is not necessarily the
   * earliest offset of any keyword.
   */
  function FindNextKeywordIndex(s: string, keys: seq<string>, startFrom: nat): (r: Option<nat>)
    ensures r.None? <==> forall q {:trigger OccursFrom(s, keys[q], startFrom)} :: 0 <= q < |keys| ==> !OccursFrom(s, keys[q], startFrom)
    ensures r.Some? ==> startFrom <= r.value <= |s|
    ensures r.Some? ==> exists q {:trigger MatchesAt(s, keys[q], r.value)} :: 0 <= q < |keys| && MatchesAt(s, keys[q], r.value)
  {
    if |keys| == 0 then None
    else match IndexOfFrom(s, keys[0], startFrom)
      case Some(i) =>
        assert MatchesAt(s, keys[0], i) && OccursFrom(s, keys[0], startFrom);
        Some(i)
      case None =>
        var r := FindNextKeywordIndex(s, keys[1..], startFrom);
        assert forall q :: 1 <= q < |keys| ==> keys[q] == keys[1..][q - 1];
        r
  }

  /** The keyword that decides is the first in list order that occurs at all from `startFrom`. */
  lemma {:induction false} NextKeywordIsFirstListed(s: string, keys: seq<string>, startFrom: nat, q: nat)
    requires q < |keys| && OccursFrom(s, keys[q], startFrom)
    requires forall p {:trigger OccursFrom(s, keys[p], startFrom)} :: 0 <= p < q ==> !OccursFrom(s, keys[p], startFrom)
    ensures FindNextKeywordIndex(s, keys, startFrom) == IndexOfFrom(s, keys[q], startFrom)
  {
    if q > 0 {
      assert !OccursFrom(s, keys[0], startFrom);
      forall p | 0 <= p < q - 1 ensures !OccursFrom(s, keys[1..][p], startFrom) {
        assert keys[1..][p] == keys[p + 1];
      }
      NextKeywordIsFirstListed(s, keys[1..], startFrom, q - 1);
    }
  }

  // ---------------------------------------------------------------------------
  // findContentBetweenKeywords / extractRemainingContent
  // ---------------------------------------------------------------------------

  /** Everything in `s` before the first occurrence of `k` holds no occurrence of `k`. */
  lemma {:induction false} NoMatchBeforeFirst(s: string, k: string, d: nat)
    requires |k| > 0 && IndexOfFrom(s, k, 0) == Some(d)
    ensures d <= |s| && !Contains(s[..d], k)
  {
    if Contains(s[..d], k) {
      var j := IndexOfFrom(s[..d], k, 0).value;
      assert s[..d][j..j + |k|] == s[j..j + |k|];
      assert MatchesAt(s, k, j);
    }
  }

  /**
   * The text from `startIndex` when no end keyword follows: up to the first
   * blank line if there is one, else all of it, cut to its first 200
   * characters and marked with "..." when longer than that; trimmed.
   */
  function ExtractRemainingContent(s: string, startIndex: nat): string
    requires startIndex <= |s|
  {
    var remaining := s[startIndex..];
    match IndexOfFrom(remaining, "\n\n", 0)
    case Some(d) => Trim(remaining[..d])
    case None =>
      if |remaining| > PreviewLength then Trim(remaining[..PreviewLength]) + Ellipsis
      else Trim(remaining)
  }

  /**
   * The remaining content is the text before the first blank line, trimmed,
   * so a part of it that holds no blank line; without a blank line it is the
   * whole rest, trimmed, or its first 200 characters trimmed and followed by
   * "...", never longer than 203 characters.
   */
  lemma {:induction false} RemainingContentShape(s: string, startIndex: nat)
    requires startIndex <= |s|
    ensures var r := ExtractRemainingContent(s, startIndex);
      var rem := s[startIndex..]; var blank := IndexOfFrom(rem, "\n\n", 0);
      && (blank.Some? ==> blank.value <= |rem| && IsInfix(r, rem[..blank.value]) && !Contains(r, "\n\n"))
      && (blank.Some? ==> r == Trim(rem[..blank.value]))
      && (blank.None? ==> |r| <= PreviewLength + |Ellipsis|)
      && (blank.None? && |rem| <= PreviewLength ==> r == Trim(rem))
      && (blank.None? && |rem| > PreviewLength ==>
            |r| >= |Ellipsis| && r[|r| - |Ellipsis|..] == Ellipsis && IsInfix(r[..|r| - |Ellipsis|], rem[..PreviewLength]))
      && (blank.None? && |rem| > PreviewLength ==> r == Trim(rem[..PreviewLength]) + Ellipsis)
  {
    var r := ExtractRemainingContent(s, startIndex);
    var remaining := s[startIndex..];
    match IndexOfFrom(remaining, "\n\n", 0)
    case Some(d) =>
      NoMatchBeforeFirst(remaining, "\n\n", d);
      TrimIsInfix(remaining[..d]);
      ContainedInInfix(Trim(remaining[..d]), remaining[..d], "\n\n");
    case None =>
      if |remaining| > PreviewLength {
        TrimIsInfix(remaining[..PreviewLength]);
        assert r[..|r| - |Ellipsis|] == Trim(remaining[..PreviewLength]);
      } else {
        TrimIsInfix(remaining);
      }
  }

  /**
   * The segment that starts at `contentStart`: up to the next end keyword,
   * trimmed, or the remaining content when none follows.
   */
  function SegmentFrom(s: string, contentStart: nat, ends: seq<string>): string
    requires contentStart <= |s|
  {
    match FindNextKeywordIndex(s, ends, contentStart)
    case Some(e) => Trim(s[contentStart..e])
    case None => ExtractRemainingContent(s, contentStart)
  }

  /** Where the content after start keyword `k` begins: just past its first occurrence. */
  function KeywordEnd(s: string, k: string): (r: nat)
    requires Contains(s, k)
    ensures r <= |s|
  {
    IndexOfFrom(s, k, 0).value + |k|
  }

  /**
   * The body of the loop of `findContentBetweenKeywords` once start keyword
   * `k` is found: the segment after its first occurrence.
   */
  function ContentAfter(s: string, k: string, ends: seq<string>): string
    requires Contains(s, k)
  {
    SegmentFrom(s, KeywordEnd(s, k), ends)
  }

  /**
   * The loop of `findContentBetweenKeywords` without its body: the position in
   * `keys` of the first keyword, in list order, that occurs anywhere in `s`.
   */
  function FirstPresentKeyword(s: string, keys: seq<string>): (r: Option<nat>)
    ensures r.None? <==> ContainsNone(s, keys)
    ensures r.Some? ==> r.value < |keys| && Contains(s, keys[r.value])
    ensures r.Some? ==> forall p {:trigger Contains(s, keys[p])} :: 0 <= p < r.value ==> !Contains(s, keys[p])
  {
    if |keys| == 0 then None
    else if Contains(s, keys[0]) then Some(0)
    else
      var r := FirstPresentKeyword(s, keys[1..]);
      assert forall q :: 1 <= q < |keys| ==> keys[q] == keys[1..][q - 1];
      match r
      case None => None
      case Some(q) => Some(q + 1)
  }

  /**
   * `findContentBetweenKeywords`: the segment after the first occurrence of
   * the first start keyword, in list order, that occurs in `s`; `None` when
   * none occurs.
   */
  function FindContentBetweenKeywords(s: string, starts: seq<string>, ends: seq<string>): (r: Option<string>)
    ensures r.None? <==> ContainsNone(s, starts)
  {
    match FirstPresentKeyword(s, starts)
    case None => None
    case Some(q) => Some(ContentAfter(s, starts[q], ends))
  }

  /**
   * The start keyword that decides is the first in list order that occurs,
   * anchored at its first occurrence, whatever the offsets of the others.
   */
  lemma {:induction false} ContentAnchorsOnFirstListed(s: string, starts: seq<string>, ends: seq<string>, q: nat)
    requires q < |starts| && Contains(s, starts[q])
    requires forall p {:trigger Contains(s, starts[p])} :: 0 <= p < q ==> !Contains(s, starts[p])
    ensures FindContentBetweenKeywords(s, starts, ends) == Some(ContentAfter(s, starts[q], ends))
  {
    FirstPresentKeywordIs(s, starts, q);
  }

  /**
   * A segment after which the first end keyword in the list occurs, first at
   * `e`, is the text up to there, trimmed.
   */
  lemma {:induction false} SegmentToEnd(s: string, contentStart: nat, ends: seq<string>, e: nat)
    requires |ends| > 0 && contentStart <= |s| && IndexOfFrom(s, ends[0], contentStart) == Some(e)
    ensures contentStart <= e <= |s|
    ensures SegmentFrom(s, contentStart, ends) == Trim(s[contentStart..e])
  {
    NextEndIsFirstListed(s, ends, contentStart, e);
  }

  /** The segment after `k` when an end keyword in the list is found after it, first at `e`. */
  lemma {:induction false} ContentAfterEnds(s: string, k: string, ends: seq<string>, i: nat, e: nat)
    requires |ends| > 0
    requires IndexOfFrom(s, k, 0) == Some(i)
    requires IndexOfFrom(s, ends[0], i + |k|) == Some(e)
    ensures i + |k| <= e <= |s|
    ensures ContentAfter(s, k, ends) == Trim(s[i + |k|..e])
  {
    KeywordEndAt(s, k, i);
    SegmentToEnd(s, KeywordEnd(s, k), ends, e);
  }

  /** The content after `k` starts right after its first occurrence. */
  lemma {:induction false} KeywordEndAt(s: string, k: string, i: nat)
    requires IndexOfFrom(s, k, 0) == Some(i)
    ensures KeywordEnd(s, k) == i + |k| <= |s|
    ensures s[KeywordEnd(s, k)..] == s[i + |k|..]
  {
  }

  /** When the first end keyword in the list occurs from `c`, first at `e`, the search stops there. */
  lemma {:induction false} NextEndIsFirstListed(s: string, ends: seq<string>, c: nat, e: nat)
    requires |ends| > 0 && IndexOfFrom(s, ends[0], c) == Some(e)
    ensures FindNextKeywordIndex(s, ends, c) == Some(e)
  {
    NextKeywordIsFirstListed(s, ends, c, 0);
  }

  /**
   * When the first start keyword in the list occurs, first at `i`, and the
   * first end keyword in the list occurs after it, first at `e`, the content
   * is the text between the two, trimmed.
   */
  lemma {:induction false} ContentBetweenFirstKeywords(s: string, starts: seq<string>, ends: seq<string>, i: nat, e: nat)
    requires |starts| > 0 && |ends| > 0
    requires IndexOfFrom(s, starts[0], 0) == Some(i)
    requires IndexOfFrom(s, ends[0], i + |starts[0]|) == Some(e)
    ensures i + |starts[0]| <= e <= |s|
    ensures FindContentBetweenKeywords(s, starts, ends) == Some(Trim(s[i + |starts[0]|..e]))
  {
    assert FindContentBetweenKeywords(s, starts, ends) == Some(ContentAfter(s, starts[0], ends)) by {
      ContentAnchorsOnFirstListed(s, starts, ends, 0);
    }
    ContentAfterEnds(s, starts[0], ends, i, e);
  }

  /** The first keyword present is the one with nothing present before it. */
  lemma {:induction false} FirstPresentKeywordIs(s: string, keys: seq<string>, q: nat)
    requires q < |keys| && Contains(s, keys[q])
    requires forall p {:trigger Contains(s, keys[p])} :: 0 <= p < q ==> !Contains(s, keys[p])
    ensures FirstPresentKeyword(s, keys) == Some(q)
  {
    var f := FirstPresentKeyword(s, keys);
    assert f.Some?;
    assert !(f.value < q);
    assert !(f.value > q);
  }

  // ---------------------------------------------------------------------------
  // Summary
  // ---------------------------------------------------------------------------

  /** The text before the first line feed of `s`, or all of `s` when it has none. */
  function FirstLine(s: string): string {
    match IndexOfFrom(s, "\n", 0)
    case Some(i) => s[..i]
    case None => s
  }

  /** `s` is non-empty and made of line feeds alone. */
  predicate OnlyLineFeeds(s: string) {
    |s| > 0 && forall i :: 0 <= i < |s| ==> s[i] == '\n'
  }

  /** The first element of `s.split("\n")`, when there is one, is the first line. */
  lemma {:induction false} FirstPieceIsFirstLine(s: string)
    requires |SplitLines(s)| > 0
    ensures SplitLines(s)[0] == FirstLine(s)
  {
    var n := |SplitLines(s)[0]|;
    IndexOfChar(s, '\n', n);
  }

  /**
   * `getFirstLineOrDefault`: the first line, trimmed; the sentinel only when
   * `split` returns no element at all, i.e. when `s` is nothing but line feeds.
   */
  function GetFirstLineOrDefault(s: string): (r: string)
    ensures OnlyLineFeeds(s) ==> r == SummaryNotFound
    ensures !OnlyLineFeeds(s) ==> r == Trim(FirstLine(s))
  {
    var lines := SplitLines(s);
    if |lines| > 0 then
      FirstPieceIsFirstLine(s);
      Trim(lines[0])
    else SummaryNotFound
  }

  /**
   * `extractSummary`: the text between a summary keyword and a feedback
   * keyword, else the first line. An empty text gives an empty summary.
   */
  function ExtractSummary(s: string): (r: string)
    ensures ContainsNone(s, SummaryKeywords) && OnlyLineFeeds(s) ==> r == SummaryNotFound
    ensures ContainsNone(s, SummaryKeywords) && !OnlyLineFeeds(s) ==> r == Trim(FirstLine(s))
    ensures s == "" ==> r == ""
  {
    match FindContentBetweenKeywords(s, SummaryKeywords, FeedbackKeywords)
    case Some(content) => content
    case None => GetFirstLineOrDefault(s)
  }

  // ---------------------------------------------------------------------------
  // Feedback: the line scan
  // ---------------------------------------------------------------------------

  /** `shouldStartFeedbackSection`. */
  predicate ShouldStartFeedbackSection(line: string, alreadyInSection: bool) {
    var lower := ToLowerCase(line);
    alreadyInSection || Contains(lower, "feedback") || Contains(lower, "grammar") || Contains(lower, "proficiency")
  }

  /** A line that mentions feedback, grammar or proficiency, in any case, starts the section. */
  lemma {:induction false} MentionStartsSection(before: string, word: string, after: string)
    requires ToLowerCase(word) in ["feedback", "grammar", "proficiency"]
    ensures ShouldStartFeedbackSection(before + word + after, false)
  {
    ToLowerCaseAppend(before + word, after);
    ToLowerCaseAppend(before, word);
    ContainsMiddle(ToLowerCase(before), ToLowerCase(word), ToLowerCase(after));
  }

  /** Once the section has started, every line continues it. */
  lemma {:induction false} SectionStaysOpen(line: string)
    ensures ShouldStartFeedbackSection(line, true)
  {
  }

  /** `shouldIncludeLine`: a line that mentions a score or a percentage ends the section. */
  function ShouldIncludeLine(line: string): (keep: bool)
    ensures keep ==> '%' !in line
  {
    var lower := ToLowerCase(line);
    ContainsChar(lower, '%');
    !Contains(lower, "score") && !Contains(lower, "%")
  }

  /** The index of the first line from `from` on that opens the feedback section, or `|lines|`. */
  function FirstTriggerLine(lines: seq<string>, from: nat): (t: nat)
    requires from <= |lines|
    ensures from <= t <= |lines|
    ensures forall k {:trigger ShouldStartFeedbackSection(lines[k], false)} :: from <= k < t ==> !ShouldStartFeedbackSection(lines[k], false)
    ensures t < |lines| ==> ShouldStartFeedbackSection(lines[t], false)
    decreases |lines| - from
  {
    if from == |lines| || ShouldStartFeedbackSection(lines[from], false) then from
    else FirstTriggerLine(lines, from + 1)
  }

  /** The index of the first line from `from` on that ends the feedback section, or `|lines|`. */
  function FirstExcludedLine(lines: seq<string>, from: nat): (e: nat)
    requires from <= |lines|
    ensures from <= e <= |lines|
    ensures forall k {:trigger ShouldIncludeLine(lines[k])} :: from <= k < e ==> ShouldIncludeLine(lines[k])
    ensures e < |lines| ==> !ShouldIncludeLine(lines[e])
    decreases |lines| - from
  {
    if from == |lines| || !ShouldIncludeLine(lines[from]) then from
    else FirstExcludedLine(lines, from + 1)
  }

  /**
   * What the `StringBuilder` holds after appending lines `from` up to (not
   * including) `stop`, each followed by a line feed.
   */
  function AppendRange(lines: seq<string>, from: nat, stop: nat): (r: string)
    requires from <= stop <= |lines|
    ensures r == "" <==> from == stop
    ensures from < stop ==> r[|r| - 1] == '\n'
    decreases stop
  {
    if stop == from then "" else AppendRange(lines, from, stop - 1) + lines[stop - 1] + "\n"
  }

  /**
   * The section the loop collects: the lines from the first one that mentions
   * feedback, grammar or proficiency up to (not including) the first one from
   * there on that mentions a score or a percentage, each followed by a line
   * feed.
   */
  function FeedbackSection(lines: seq<string>): (r: string)
    ensures r == "" <==> FirstTriggerLine(lines, 0) == FirstExcludedLine(lines, FirstTriggerLine(lines, 0))
  {
    var t := FirstTriggerLine(lines, 0);
    AppendRange(lines, t, FirstExcludedLine(lines, t))
  }

  /**
   * What the line scan returns: the sentinel for two lines or fewer, or when
   * the section is empty; the section trimmed otherwise. It never holds a
   * percent sign: a line holding one ends the section.
   */
  function LineScanFeedback(s: string): (r: string)
    ensures '%' !in r
  {
    ScanLines(SplitLines(s))
  }

  /** The line scan over the lines already split. */
  function ScanLines(lines: seq<string>): (r: string)
    ensures '%' !in r
  {
    SentinelHasNoPercent();
    if |lines| <= 2 then FeedbackNotFound
    else
      var section := FeedbackSection(lines);
      SectionHasNoPercent(lines);
      if |section| == 0 then FeedbackNotFound else Trim(section)
  }

  lemma {:induction false} SentinelHasNoPercent()
    ensures '%' !in FeedbackNotFound
  {
  }

  /** The `for` loop of `extractFeedbackFromLines`, with its flag, its buffer and its `break`. */
  method CollectFeedbackSection(lines: seq<string>) returns (feedback: string)
    ensures feedback == FeedbackSection(lines)
  {
    ghost var t := FirstTriggerLine(lines, 0);
    ghost var e := FirstExcludedLine(lines, t);
    feedback := "";
    var inFeedbackSection := false;
    var k := 0;
    while k < |lines|
      invariant k <= |lines|
      invariant !inFeedbackSection ==> feedback == "" && t >= k
      invariant inFeedbackSection ==> t < k <= e && feedback == AppendRange(lines, t, k)
    {
      var line := lines[k];
      if ShouldStartFeedbackSection(line, inFeedbackSection) {
        if !inFeedbackSection {
          assert t == k;
        }
        assert t <= k <= e;
        inFeedbackSection := true;
        if ShouldIncludeLine(line) {
          assert k != e;
          feedback := feedback + line + "\n";
        } else {
          assert e == k;
          break;
        }
      } else {
        assert !inFeedbackSection && k != t;
      }
      k := k + 1;
    }
  }

  /** A line that mentions a score, in any case, is not included. */
  lemma {:induction false} ScoreWordExcludesLine(before: string, word: string, after: string)
    requires ToLowerCase(word) == "score"
    ensures !ShouldIncludeLine(before + word + after)
  {
    ToLowerCaseAppend(before + word, after);
    ToLowerCaseAppend(before, word);
    ContainsMiddle(ToLowerCase(before), ToLowerCase(word), ToLowerCase(after));
  }

  /** `extractFeedbackFromLines`. */
  method ExtractFeedbackFromLines(analysis: string) returns (result: string)
    ensures result == LineScanFeedback(analysis)
  {
    var lines := SplitLines(analysis);
    if |lines| <= 2 {
      return FeedbackNotFound;
    }
    var feedback := CollectFeedbackSection(lines);
    result := if |feedback| == 0 then FeedbackNotFound else Trim(feedback);
  }

  /**
   * A run of lines that all pass `shouldIncludeLine` holds no percent sign
   * once appended: neither the lines nor the line feeds bring one.
   */
  lemma {:induction false} IncludedRunHasNoPercent(lines: seq<string>, t: nat, e: nat)
    requires t <= e <= |lines|
    requires forall k {:trigger ShouldIncludeLine(lines[k])} :: t <= k < e ==> ShouldIncludeLine(lines[k])
    ensures '%' !in AppendRange(lines, t, e)
    decreases e
  {
    if e > t {
      assert ShouldIncludeLine(lines[e - 1]);
      IncludedRunHasNoPercent(lines, t, e - 1);
    }
  }

  /** The collected section holds no percent sign, trimmed or not. */
  lemma {:induction false} SectionHasNoPercent(lines: seq<string>)
    ensures '%' !in FeedbackSection(lines) && '%' !in Trim(FeedbackSection(lines))
  {
    var t := FirstTriggerLine(lines, 0);
    var section := FeedbackSection(lines);
    IncludedRunHasNoPercent(lines, t, FirstExcludedLine(lines, t));
    TrimIsInfix(section);
    CharInInfix(Trim(section), section, '%');
  }

  /**
   * `extractFeedback`: the text between a feedback keyword and a score
   * keyword, else the line scan.
   */
  function ExtractFeedback(s: string): (r: string)
    ensures ContainsNone(s, FeedbackKeywords) ==> r == LineScanFeedback(s) && '%' !in r
  {
    match FindContentBetweenKeywords(s, FeedbackKeywords, ScoreKeywords)
    case Some(content) => content
    case None => LineScanFeedback(s)
  }

  /**
   * The end keywords the feedback segment needs with the response layout the
   * prompt of `analyzeFileContent` asks for: the full label of the score line first,
   * so that the segment does not stop at the "Score:" inside it.
   */
  const FeedbackEndKeywords: seq<string> := ["English Proficiency Score:"] + ScoreKeywords

  /** `extractFeedback` with the corrected end keywords. */
  function ExtractFeedbackCorrected(s: string): (r: string)
    ensures ContainsNone(s, FeedbackKeywords) ==> r == LineScanFeedback(s) && '%' !in r
  {
    match FindContentBetweenKeywords(s, FeedbackKeywords, FeedbackEndKeywords)
    case Some(content) => content
    case None => LineScanFeedback(s)
  }

  // ---------------------------------------------------------------------------
  // Score
  // ---------------------------------------------------------------------------

  function Min(a: real, b: real): real {
    if a <= b then a else b
  }

  lemma {:induction false} HasDigitAppend(a: string, b: string)
    ensures HasDigit(a + b) <==> HasDigit(a) || HasDigit(b)
  {
    if HasDigit(a + b) {
      var i :| 0 <= i < |a + b| && IsDigit((a + b)[i]);
      if i >= |a| { assert b[i - |a|] == (a + b)[i]; }
    }
    if HasDigit(b) {
      var i :| 0 <= i < |b| && IsDigit(b[i]);
      assert (a + b)[|a| + i] == b[i];
    }
    if HasDigit(a) {
      var i :| 0 <= i < |a| && IsDigit(a[i]);
      assert (a + b)[i] == a[i];
    }
  }

  /** `text.replaceAll("[^0-9.]", "")`: the digits and points of `text`, in order. */
  function KeepNumeric(text: string): (r: string)
    ensures |r| <= |text| && AllNumeric(r)
    ensures PointCount(r) == PointCount(text)
    ensures HasDigit(r) <==> HasDigit(text)
  {
    if |text| == 0 then ""
    else
      var head := if IsNumeric(text[0]) then [text[0]] else "";
      var rest := KeepNumeric(text[1..]);
      assert text == [text[0]] + text[1..];
      assert multiset(text) == multiset([text[0]]) + multiset(text[1..]);
      assert multiset(head + rest) == multiset(head) + multiset(rest);
      HasDigitAppend(head, rest);
      HasDigitAppend([text[0]], text[1..]);
      assert HasDigit([text[0]]) <==> IsDigit(text[0]);
      head + rest
  }

  /** Removing the other characters leaves a string of digits and points unchanged. */
  lemma {:induction false} KeepNumericOfNumeric(text: string)
    requires AllNumeric(text)
    ensures KeepNumeric(text) == text
  {
    if |text| > 0 {
      KeepNumericOfNumeric(text[1..]);
      assert text == [text[0]] + text[1..];
    }
  }

  /** Applying the filter twice is applying it once. */
  lemma {:induction false} KeepNumericIdempotent(text: string)
    ensures KeepNumeric(KeepNumeric(text)) == KeepNumeric(text)
  {
    KeepNumericOfNumeric(KeepNumeric(text));
  }

  /** The filter works character by character, so it distributes over concatenation. */
  lemma {:induction false} KeepNumericAppend(a: string, b: string)
    ensures KeepNumeric(a + b) == KeepNumeric(a) + KeepNumeric(b)
  {
    if |a| == 0 {
      assert a + b == b;
    } else {
      var head := if IsNumeric(a[0]) then [a[0]] else "";
      assert (a + b)[0] == a[0] && (a + b)[1..] == a[1..] + b;
      assert KeepNumeric(a + b) == head + KeepNumeric(a[1..] + b);
      KeepNumericAppend(a[1..], b);
      assert KeepNumeric(a) == head + KeepNumeric(a[1..]);
      AppendAssociates(head, KeepNumeric(a[1..]), KeepNumeric(b));
    }
  }

  /**
   * `parseScoreFromText`: the number spelled by the digits and points of
   * `text`, every other character (a minus sign included) ignored, capped at
   * 100; `None` when there is no digit or more than one point.
   */
  function ParseScoreFromText(text: string): (r: Option<real>)
    ensures r.None? <==> !HasDigit(text) || PointCount(text) > 1
    ensures r.Some? ==> 0.0 <= r.value <= MaxScore
    ensures r.Some? ==> var v := DecimalValue(KeepNumeric(text)).value;
                        r.value == if v <= MaxScore then v else MaxScore
  {
    var numberStr := KeepNumeric(text);
    if |numberStr| == 0 then None
    else
      ParseDoubleCorrect(numberStr);
      match ParseDouble(numberStr)
      case None => None
      case Some(score) =>
        DecimalValueNonNegative(numberStr);
        Some(Min(score, MaxScore))
  }

  /**
   * When what the filter keeps is a run of digits, the score is those digits
   * read as a whole number, capped at 100.
   */
  lemma {:induction false} WholeNumberScore(text: string, digits: string)
    requires |digits| > 0 && forall i :: 0 <= i < |digits| ==> IsDigit(digits[i])
    requires KeepNumeric(text) == digits
    ensures ParseScoreFromText(text) == Some(Min(Mantissa(digits) as real, MaxScore))
  {
    DigitsOnlyValue(digits);
    assert HasDigit(digits) by { assert IsDigit(digits[0]); }
    var r := ParseScoreFromText(text);
    assert r.Some?;
    assert r.value == Min(Mantissa(digits) as real, MaxScore);
  }

  /** The score depends on nothing but the digits and points the filter keeps. */
  lemma {:induction false} ScoreOnlySeesKept(a: string, b: string)
    requires KeepNumeric(a) == KeepNumeric(b)
    ensures ParseScoreFromText(a) == ParseScoreFromText(b)
  {
  }

  /** A minus sign in front changes nothing: no score is ever negative. */
  lemma {:induction false} MinusSignIgnored(text: string)
    ensures ParseScoreFromText("-" + text) == ParseScoreFromText(text)
  {
    assert ("-" + text)[1..] == text;
    ScoreOnlySeesKept("-" + text, text);
  }

  /** Any whole number of 100 or more scores exactly 100. */
  lemma {:induction false} LargeScoreCapped(text: string, digits: string)
    requires |digits| > 0 && forall i :: 0 <= i < |digits| ==> IsDigit(digits[i])
    requires KeepNumeric(text) == digits && Mantissa(digits) >= 100
    ensures ParseScoreFromText(text) == Some(MaxScore)
  {
    WholeNumberScore(text, digits);
  }

  /**
   * One round of the loop of `extractScoreFromKeywords`: the score on the
   * first line of the trimmed text after the first occurrence of `k`.
   */
  function KeywordScore(s: string, k: string): (r: Option<real>)
    ensures r.Some? ==> Contains(s, k) && 0.0 <= r.value <= MaxScore
  {
    if !Contains(s, k) then None
    else
      var scoreSection := Trim(s[KeywordEnd(s, k)..]);
      var lines := SplitLines(scoreSection);
      assert |lines| > 0 by {
        if |scoreSection| > 0 { assert !IsTrimmable(scoreSection[0]); }
      }
      ParseScoreFromText(Trim(lines[0]))
  }

  /**
   * A keyword's score is the parse of the first line of the trimmed text
   * after its first occurrence, that line trimmed in turn; whatever follows
   * the first line is never read.
   */
  lemma {:induction false} KeywordScoreFirstLine(s: string, k: string)
    requires Contains(s, k)
    ensures KeywordScore(s, k) == ParseScoreFromText(Trim(FirstLine(Trim(s[KeywordEnd(s, k)..]))))
  {
    var scoreSection := Trim(s[KeywordEnd(s, k)..]);
    if |scoreSection| > 0 {
      assert !IsTrimmable(scoreSection[0]);
    }
    FirstPieceIsFirstLine(scoreSection);
  }

  /**
   * The loop shared by `extractScoreFromKeywords` and
   * `extractScoreFromPercentageWords`: try the candidates in order and return
   * the first score one of them yields.
   */
  function FirstScore<T>(candidates: seq<T>, score: T -> Option<real>): (r: Option<real>)
    ensures r.None? <==> forall q :: 0 <= q < |candidates| ==> score(candidates[q]).None?
    ensures r.Some? ==> exists q :: 0 <= q < |candidates| && score(candidates[q]) == r
  {
    if |candidates| == 0 then None
    else if score(candidates[0]).Some? then score(candidates[0])
    else
      var r := FirstScore(candidates[1..], score);
      assert forall q :: 1 <= q < |candidates| ==> candidates[q] == candidates[1..][q - 1];
      r
  }

  /**
   * A candidate that yields no score is passed over for the next one; the
   * first that yields one decides, whatever the later ones would yield.
   */
  lemma {:induction false} FirstScoreFirstSuccess<T>(candidates: seq<T>, score: T -> Option<real>, q: nat)
    requires q < |candidates| && score(candidates[q]).Some?
    requires forall p :: 0 <= p < q ==> score(candidates[p]).None?
    ensures FirstScore(candidates, score) == score(candidates[q])
  {
    if q > 0 {
      var rest := candidates[1..];
      assert rest[q - 1] == candidates[q];
      forall p | 0 <= p < q - 1 ensures score(rest[p]).None? {
        assert rest[p] == candidates[p + 1];
      }
      FirstScoreFirstSuccess(rest, score, q - 1);
    }
  }

  /** The body of the loop of `extractScoreFromKeywords` for text `s`, as a function of the keyword. */
  function KeywordScorer(s: string): string -> Option<real> {
    k => KeywordScore(s, k)
  }

  /** `extractScoreFromKeywords`: the first keyword, in list order, whose line yields a score. */
  function ExtractScoreFromKeywords(s: string, keys: seq<string>): (r: Option<real>)
    ensures r.None? <==> forall q :: 0 <= q < |keys| ==> KeywordScore(s, keys[q]).None?
    ensures r.Some? ==> 0.0 <= r.value <= MaxScore
  {
    FirstScore(keys, KeywordScorer(s))
  }

  /** One round of the loop of `extractScoreFromPercentageWords`: a word yields a score only when it holds a percent sign. */
  function WordScore(word: string): (r: Option<real>)
    ensures r.Some? ==> Contains(word, "%") && 0.0 <= r.value <= MaxScore
  {
    if Contains(word, "%") then ParseScoreFromText(word) else None
  }

  /** `extractScoreFromPercentageWords`: the first word, in text order, that yields a score. */
  function ExtractScoreFromPercentageWords(s: string): (r: Option<real>)
    ensures r.None? <==> forall q :: 0 <= q < |SplitWhitespace(s)| ==> WordScore(SplitWhitespace(s)[q]).None?
    ensures r.Some? ==> 0.0 <= r.value <= MaxScore
  {
    FirstScore(SplitWhitespace(s), WordScore)
  }

  /**
   * `extractScore`: the keyword path, else the percentage words, else 75;
   * always within [0, 100].
   */
  function ExtractScore(s: string): (r: real)
    ensures 0.0 <= r <= MaxScore
    ensures ExtractScoreFromKeywords(s, ScoreKeywords).None? && ExtractScoreFromPercentageWords(s).None?
            ==> r == DefaultScore
  {
    match ExtractScoreFromKeywords(s, ScoreKeywords)
    case Some(score) => score
    case None =>
      match ExtractScoreFromPercentageWords(s)
      case Some(score) => score
      case None => DefaultScore
  }

  // ---------------------------------------------------------------------------
  // The record
  // ---------------------------------------------------------------------------

  datatype Analysis = Analysis(summary: string, feedback: string, score: real)

  /**
   * The three fields `processFile` extracts from one analysis text, each
   * independently: the summary, the feedback as written and the score.
   */
  function Analyze(s: string): (a: Analysis)
    ensures 0.0 <= a.score <= MaxScore
    ensures ContainsNone(s, FeedbackKeywords) ==> '%' !in a.feedback
  {
    Analysis(ExtractSummary(s), ExtractFeedback(s), ExtractScore(s))
  }

  /** The same record with the corrected feedback extraction. */
  function AnalyzeCorrected(s: string): (a: Analysis)
    ensures 0.0 <= a.score <= MaxScore
    ensures a.summary == Analyze(s).summary && a.score == Analyze(s).score
    ensures ContainsNone(s, FeedbackKeywords) ==> a == Analyze(s)
  {
    Analysis(ExtractSummary(s), ExtractFeedbackCorrected(s), ExtractScore(s))
  }
}
