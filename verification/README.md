# Analysis-text extractor and CORS decisions of simple_ai_project

`AiService` sends an uploaded text to a language model and asks it to answer in
the fixed layout

    Summary: X

    Feedback: Y

    English Proficiency Score: Z%

The model may not follow that layout. The service therefore recovers the three
fields from the raw answer with a tolerant extractor:

- keyword-anchored segments;
- a fallback that stops at the first blank line or after 200 characters;
- a line scan that collects a feedback block;
- a digits-and-points score parser that caps the score at 100.

This project models that extractor on strings and proves what each part returns.
It also models the two decisions of `CorsFilter`: which origin is echoed in
`Access-Control-Allow-Origin`, and whether a request is a preflight answered at
once.

Modules:

- `Wrappers`: `Option`. Java's `null` and the index `-1` become `None`.
- `JavaText`: the Java string operations the extractor relies on, with Java's
  semantics:
  - `indexOf` and `contains`;
  - `trim`, which removes characters up to U+0020 from both ends;
  - `split("\n")` and `split("\\s+")`, which drop trailing empty strings, keep a
    leading empty string, and return `[s]` when there is no separator;
  - `toLowerCase` and `equalsIgnoreCase`.
- `JavaDouble`: `Double.parseDouble` on strings of digits and points. It
  succeeds exactly when there is a digit and at most one point. The value is
  exact (`real`).
- `AiService`: the extractor. `extractFeedbackFromLines` is a method whose loop
  keeps the flag, the buffer and the `break` of the Java `for` loop. It is
  proved equal to a specification function. The other operations are functions
  with named results, plus lemmas.
- `PromptLayout`: what the extractor returns on an answer in the exact layout
  the prompt requests.
- `EmptyResponse`: what it returns on the empty answer.
- `CorsFilter`: the origin allow-list and the preflight test.

Where the intuitive reading and the code differ, the model follows the code:

- The end keyword is chosen by list order, not by earliest offset. The first
  keyword in the array that occurs after the start wins, even when another one
  occurs earlier.
- A minus sign is removed by the character filter, so "-10" scores 10.
- The empty answer gives the summary "", not "Summary not found".
  `"".split("\n")` is `[""]`, so the first line exists and is empty.

## Model

| member | source | states |
|---|---|---|
| `JavaText.IndexOfFrom` | src/main/java/com/example/simple_ai_project/service/AiService.java:151 | `indexOf(k, from)` returns an offset at or after `from` where `k` matches, with no match between `from` and it; `None` means no match at or after `from` |
| `JavaText.IndexOfFromEarlier` | src/main/java/com/example/simple_ai_project/service/AiService.java:151 | a search from an earlier offset finds the same match when nothing matches in between |
| `JavaText.Contains` | src/main/java/com/example/simple_ai_project/service/AiService.java:212-213 | `contains` is a search from offset 0 that finds something; what it finds is stated by `IndexOfFrom`, and `ContainsMiddle` states that a text holds every piece of it |
| `JavaText.ContainsMiddle` | src/main/java/com/example/simple_ai_project/service/AiService.java:212-213 | a text holds every piece of it, wherever the piece sits |
| `JavaText.Trim` | src/main/java/com/example/simple_ai_project/service/AiService.java:140 | `trim` is no longer than its argument, and neither of its end characters is at most U+0020 |
| `JavaText.TrimIsInfix` | src/main/java/com/example/simple_ai_project/service/AiService.java:164 | what `trim` keeps is a contiguous part of its argument |
| `JavaText.TrimWindow` | src/main/java/com/example/simple_ai_project/service/AiService.java:140 | `trim` keeps exactly the window between the characters it removes, and everything it removes is at most U+0020 |
| `JavaText.TrimPadded` | src/main/java/com/example/simple_ai_project/service/AiService.java:238 | `trim` ignores padding of characters at most U+0020 on either side |
| `JavaText.TrimOfTrimmed` | src/main/java/com/example/simple_ai_project/service/AiService.java:239 | a string whose first and last characters are above U+0020 is its own `trim` |
| `JavaText.SplitOn` | src/main/java/com/example/simple_ai_project/service/AiService.java:171 | splitting gives at least one piece; no piece holds a separator; the first piece is the text up to the first separator |
| `JavaText.SplitOnRoundTrip` | src/main/java/com/example/simple_ai_project/service/AiService.java:171 | joining the pieces of a split on one character with that character gives back the text |
| `JavaText.SplitOnAllEmpty` | src/main/java/com/example/simple_ai_project/service/AiService.java:171 | every piece is empty exactly when the text is made of separators only |
| `JavaText.DropTrailingEmpty` | src/main/java/com/example/simple_ai_project/service/AiService.java:171 | only trailing empty strings are dropped, and the last one kept is not empty |
| `JavaText.SplitLines` | src/main/java/com/example/simple_ai_project/service/AiService.java:171 | `split("\n")` is empty exactly for a non-empty text made of line feeds only; otherwise its first element is the text up to the first line feed |
| `JavaText.SplitWhitespace` | src/main/java/com/example/simple_ai_project/service/AiService.java:250 | no word of `split("\\s+")` holds a white-space character |
| `JavaText.ToLowerCase` | src/main/java/com/example/simple_ai_project/service/AiService.java:217 | lower-casing keeps a percent sign exactly when there is one |
| `JavaText.ToLowerCaseAppend` | src/main/java/com/example/simple_ai_project/service/AiService.java:211 | lower-casing a concatenation lower-cases each part |
| `JavaText.EqualsIgnoreCase` | src/main/java/com/example/simple_ai_project/config/CorsFilter.java:31 | `equalsIgnoreCase`: same length, and each pair of characters equal, equal in upper case, or equal in the lower case of their upper case; `SpellingsOfLetter` and `PreflightSpellings` state what it accepts |
| `JavaDouble.ParseDoubleCorrect` | src/main/java/com/example/simple_ai_project/service/AiService.java:266 | the left-to-right reader returns the decimal the digits-and-points string denotes, and `None` (the `NumberFormatException`) when there is no digit or more than one point |
| `JavaDouble.ParseDouble` | src/main/java/com/example/simple_ai_project/service/AiService.java:266 | `Double.parseDouble` on digits and points; `ParseDoubleCorrect` states its value and when it fails |
| `JavaDouble.ReadFromCorrect` | src/main/java/com/example/simple_ai_project/service/AiService.java:266 | from any state that describes the prefix read so far, the reader ends with the denoted value |
| `JavaDouble.DecimalValueNonNegative` | src/main/java/com/example/simple_ai_project/service/AiService.java:266 | a parsed value is never negative |
| `JavaDouble.DigitsOnlyValue` | src/main/java/com/example/simple_ai_project/service/AiService.java:266 | a run of digits denotes its digits read as a whole number |
| `AiService.FindNextKeywordIndex` | src/main/java/com/example/simple_ai_project/service/AiService.java:149-157 | `None` exactly when no keyword occurs at or after `startFrom`; otherwise an offset between `startFrom` and the text's length where some keyword matches |
| `AiService.NextKeywordIsFirstListed` | src/main/java/com/example/simple_ai_project/service/AiService.java:150-155 | the keyword that decides is the first in list order that occurs from `startFrom`, and the result is that keyword's first offset, whatever offsets later keywords have |
| `AiService.NextEndIsFirstListed` | src/main/java/com/example/simple_ai_project/service/AiService.java:150-153 | when the first end keyword occurs, its offset is the end, even if another keyword occurs earlier |
| `AiService.FirstPresentKeyword` | src/main/java/com/example/simple_ai_project/service/AiService.java:133-135 | the first start keyword in list order that occurs anywhere; `None` exactly when none occurs |
| `AiService.FirstPresentKeywordIs` | src/main/java/com/example/simple_ai_project/service/AiService.java:133-135 | a keyword that occurs, with none listed before it occurring, is the one found |
| `AiService.FindContentBetweenKeywords` | src/main/java/com/example/simple_ai_project/service/AiService.java:132-147 | `null` exactly when no start keyword occurs anywhere in the text |
| `AiService.ContentAnchorsOnFirstListed` | src/main/java/com/example/simple_ai_project/service/AiService.java:133-144 | the content is the segment after the first start keyword in list order that occurs, taken after its first occurrence |
| `AiService.KeywordEnd` | src/main/java/com/example/simple_ai_project/service/AiService.java:136 | the content starts within the text |
| `AiService.KeywordEndAt` | src/main/java/com/example/simple_ai_project/service/AiService.java:134-136 | the content starts right after the keyword's first occurrence |
| `AiService.ContentAfter` | src/main/java/com/example/simple_ai_project/service/AiService.java:135-143 | the body of the loop once a start keyword is found: the segment from just after its first occurrence; `ContentAfterEnds` states what it is when an end keyword follows |
| `AiService.SegmentFrom` | src/main/java/com/example/simple_ai_project/service/AiService.java:137-143 | the segment from the content start: up to the next end keyword, trimmed, or the remaining content when none follows; `SegmentToEnd` states the first case and `RemainingContentShape` the second |
| `AiService.SegmentToEnd` | src/main/java/com/example/simple_ai_project/service/AiService.java:137-140 | with the first listed end keyword found first at `e`, the segment is the trimmed text from the content start to `e` |
| `AiService.ContentAfterEnds` | src/main/java/com/example/simple_ai_project/service/AiService.java:134-140 | the segment after a start keyword is the trimmed text between its first occurrence and the next occurrence of the first end keyword |
| `AiService.ContentBetweenFirstKeywords` | src/main/java/com/example/simple_ai_project/service/AiService.java:132-140 | when the first start keyword and then the first end keyword occur, the result is the trimmed text between them |
| `AiService.NoMatchBeforeFirst` | src/main/java/com/example/simple_ai_project/service/AiService.java:161-164 | the text before the first blank line holds no blank line |
| `AiService.ExtractRemainingContent` | src/main/java/com/example/simple_ai_project/service/AiService.java:159-168 | the remainder up to the first blank line, or up to 200 characters and "..."; its shape is stated by `RemainingContentShape` |
| `AiService.RemainingContentShape` | src/main/java/com/example/simple_ai_project/service/AiService.java:159-168 | with a blank line, the result is exactly the text before the first one, trimmed, so it holds no blank line; without one, it is the whole remainder trimmed when that is at most 200 characters long, else exactly its first 200 characters trimmed and followed by "...", and never longer than 203 characters |
| `AiService.FirstPieceIsFirstLine` | src/main/java/com/example/simple_ai_project/service/AiService.java:171-172 | the first element of `split("\n")` is the text up to the first line feed |
| `AiService.GetFirstLineOrDefault` | src/main/java/com/example/simple_ai_project/service/AiService.java:170-173 | "Summary not found" exactly when the text is non-empty and made of line feeds only; otherwise the first line, trimmed |
| `AiService.ExtractSummary` | src/main/java/com/example/simple_ai_project/service/AiService.java:120-130 | without a summary keyword, the first line trimmed, or "Summary not found" for a text of line feeds only; the empty text gives "" |
| `AiService.ShouldIncludeLine` | src/main/java/com/example/simple_ai_project/service/AiService.java:216-219 | a line that holds a percent sign is never included |
| `AiService.ScoreWordExcludesLine` | src/main/java/com/example/simple_ai_project/service/AiService.java:216-219 | a line that mentions "score" in any case is never included |
| `AiService.ShouldStartFeedbackSection` | src/main/java/com/example/simple_ai_project/service/AiService.java:210-214 | a section stays open once started, and opens on a line that mentions feedback, grammar or proficiency; stated by `SectionStaysOpen` and `MentionStartsSection` |
| `AiService.MentionStartsSection` | src/main/java/com/example/simple_ai_project/service/AiService.java:210-214 | a line that holds "feedback", "grammar" or "proficiency" in any case, anywhere in it, starts the feedback section |
| `AiService.SectionStaysOpen` | src/main/java/com/example/simple_ai_project/service/AiService.java:212 | once the section has started, every line continues it |
| `AiService.FirstTriggerLine` | src/main/java/com/example/simple_ai_project/service/AiService.java:196-198 | the first line from `from` that mentions feedback, grammar or proficiency in lower case, or the end of the lines |
| `AiService.FirstExcludedLine` | src/main/java/com/example/simple_ai_project/service/AiService.java:199-203 | every line before it is included, and it is the first excluded line (a score or a percent sign) or the end of the lines |
| `AiService.FeedbackSection` | src/main/java/com/example/simple_ai_project/service/AiService.java:193-205 | the collected section is empty exactly when the first excluded line is the trigger line itself (or the lines run out first) |
| `AiService.AppendRange` | src/main/java/com/example/simple_ai_project/service/AiService.java:200 | the collected lines give nothing exactly when the range is empty; a non-empty range ends with a line feed |
| `AiService.CollectFeedbackSection` | src/main/java/com/example/simple_ai_project/service/AiService.java:193-205 | the loop, with its flag, its buffer and its `break`, collects exactly the lines from the first trigger line up to the first excluded line, each followed by a line feed |
| `AiService.ExtractFeedbackFromLines` | src/main/java/com/example/simple_ai_project/service/AiService.java:187-208 | returns what the line scan specifies: "Feedback not found" for two lines or fewer and for an empty section, else the section trimmed |
| `AiService.ScanLines` | src/main/java/com/example/simple_ai_project/service/AiService.java:189-207 | the line scan never returns a percent sign |
| `AiService.LineScanFeedback` | src/main/java/com/example/simple_ai_project/service/AiService.java:187-208 | the feedback found by lines never holds a percent sign |
| `AiService.IncludedRunHasNoPercent` | src/main/java/com/example/simple_ai_project/service/AiService.java:199-200 | a run of included lines holds no percent sign |
| `AiService.SectionHasNoPercent` | src/main/java/com/example/simple_ai_project/service/AiService.java:193-207 | neither the section nor its trim holds a percent sign |
| `AiService.SentinelHasNoPercent` | src/main/java/com/example/simple_ai_project/service/AiService.java:190 | the sentinel "Feedback not found" holds no percent sign |
| `AiService.ExtractFeedback` | src/main/java/com/example/simple_ai_project/service/AiService.java:175-185 | without a feedback keyword, the result is the line scan's, and it holds no percent sign |
| `AiService.ExtractFeedbackCorrected` | src/main/java/com/example/simple_ai_project/service/AiService.java:175-185 | the same fallback as `extractFeedback`, with the full score label first among the end keywords |
| `AiService.HasDigitAppend` | src/main/java/com/example/simple_ai_project/service/AiService.java:263-264 | a concatenation holds a digit exactly when one of its parts does |
| `AiService.KeepNumeric` | src/main/java/com/example/simple_ai_project/service/AiService.java:263 | `replaceAll("[^0-9.]", "")` keeps only digits and points, keeps every point, keeps a digit exactly when there is one, and is no longer than its input |
| `AiService.KeepNumericOfNumeric` | src/main/java/com/example/simple_ai_project/service/AiService.java:263 | the filter leaves a string of digits and points unchanged |
| `AiService.KeepNumericIdempotent` | src/main/java/com/example/simple_ai_project/service/AiService.java:263 | applying the filter twice is applying it once |
| `AiService.KeepNumericAppend` | src/main/java/com/example/simple_ai_project/service/AiService.java:263 | the filter distributes over concatenation |
| `AiService.ParseScoreFromText` | src/main/java/com/example/simple_ai_project/service/AiService.java:262-273 | `null` exactly when the kept characters have no digit or more than one point; otherwise the value they denote capped at 100, so it is in [0, 100] |
| `AiService.ScoreOnlySeesKept` | src/main/java/com/example/simple_ai_project/service/AiService.java:263 | two texts with the same digits and points in the same order score the same |
| `AiService.MinusSignIgnored` | src/main/java/com/example/simple_ai_project/service/AiService.java:263 | a leading minus sign changes nothing ("-10" scores 10) |
| `AiService.WholeNumberScore` | src/main/java/com/example/simple_ai_project/service/AiService.java:263-267 | when the kept characters are digits only, the score is that whole number capped at 100 |
| `AiService.LargeScoreCapped` | src/main/java/com/example/simple_ai_project/service/AiService.java:267 | a whole number of 100 or more scores exactly 100 |
| `AiService.KeywordScore` | src/main/java/com/example/simple_ai_project/service/AiService.java:236-240 | a keyword yields a score only if it occurs, and that score is in [0, 100] |
| `AiService.KeywordScoreFirstLine` | src/main/java/com/example/simple_ai_project/service/AiService.java:236-240 | a keyword's score is the parse of the first line of the trimmed text after its first occurrence, that line trimmed; nothing after the first line is read |
| `AiService.FirstScore` | src/main/java/com/example/simple_ai_project/service/AiService.java:235-246 | `None` exactly when no candidate yields a score; otherwise the score of some candidate |
| `AiService.FirstScoreFirstSuccess` | src/main/java/com/example/simple_ai_project/service/AiService.java:241-243 | the first candidate that yields a score decides; the ones before it yield none |
| `AiService.ExtractScoreFromKeywords` | src/main/java/com/example/simple_ai_project/service/AiService.java:234-247 | `null` exactly when no keyword's first line parses; the score is in [0, 100] |
| `AiService.WordScore` | src/main/java/com/example/simple_ai_project/service/AiService.java:252-256 | a word yields a score only if it holds a percent sign, and that score is in [0, 100] |
| `AiService.ExtractScoreFromPercentageWords` | src/main/java/com/example/simple_ai_project/service/AiService.java:249-260 | `null` exactly when no white-space-separated word yields a score; the score is in [0, 100] |
| `AiService.ExtractScore` | src/main/java/com/example/simple_ai_project/service/AiService.java:221-232 | always in [0, 100]; exactly 75 when both the keyword path and the percentage words fail |
| `AiService.Analyze` | src/main/java/com/example/simple_ai_project/service/AiService.java:52-54 | the record `processFile` builds from the answer, with `extractFeedback` as written: the score is in [0, 100], and without a feedback keyword the feedback holds no percent sign |
| `AiService.AnalyzeCorrected` | src/main/java/com/example/simple_ai_project/service/AiService.java:52-54 | the same record with the corrected feedback extraction: the same summary and score, and the very same record whenever no feedback keyword occurs |
| `PromptLayout.LayoutShaped` | src/main/java/com/example/simple_ai_project/service/AiService.java:112-115 | a response in the requested layout has its labels at the offsets the placeholders' lengths give them |
| `PromptLayout.ShapedSummary` | src/main/java/com/example/simple_ai_project/service/AiService.java:120-130 | on the layout, with no "Feedback:" in the summary text, the summary is that text, trimmed |
| `PromptLayout.ShapedFeedbackStart` | src/main/java/com/example/simple_ai_project/service/AiService.java:134 | on the layout, with no "Feedback:" in the summary text, "Feedback:" is first found in the feedback label |
| `PromptLayout.ShapedScoreLabel` | src/main/java/com/example/simple_ai_project/service/AiService.java:137 | on the layout, with no full score label in the feedback text, that label is first found right after the feedback text |
| `PromptLayout.ShapedFeedbackContent` | src/main/java/com/example/simple_ai_project/service/AiService.java:132-147 | with the full score label as the first end keyword, and neither "Feedback:" in the summary nor the full label in the feedback text, the feedback segment is the feedback text, trimmed |
| `PromptLayout.ShapedFeedback` | src/main/java/com/example/simple_ai_project/service/AiService.java:175-185 | under the same conditions, the corrected extractor returns the feedback text, trimmed |
| `PromptLayout.ShapedResidueEnd` | src/main/java/com/example/simple_ai_project/service/AiService.java:137 | with no "Score:" in the feedback text, "Score:" is first found after the feedback label inside "English Proficiency Score:" |
| `PromptLayout.ShapedFeedbackContentAsWritten` | src/main/java/com/example/simple_ai_project/service/AiService.java:177-179 | with the end keywords as written, the feedback segment ends at that inner "Score:" |
| `PromptLayout.ShapedFeedbackAsWritten` | src/main/java/com/example/simple_ai_project/service/AiService.java:175-185 | as written, the feedback is the feedback text, a blank line and "English Proficiency", trimmed |
| `PromptLayout.ShapedScoreKeyword` | src/main/java/com/example/simple_ai_project/service/AiService.java:236 | on the layout, with no "Score:" in the summary or feedback text, the first "Score:" of the text is the one in the score label |
| `PromptLayout.DigitsThenPercent` | src/main/java/com/example/simple_ai_project/service/AiService.java:262-273 | "Z%" with `Z` a number (at least one digit and at most one point) scores the value of `Z` capped at 100 |
| `PromptLayout.WholeScoreThenPercent` | src/main/java/com/example/simple_ai_project/service/AiService.java:262-273 | "Z%" with `Z` digits only scores `Z` read as a whole number, capped at 100 |
| `PromptLayout.ScoreLine` | src/main/java/com/example/simple_ai_project/service/AiService.java:238-239 | the score and its percent sign form one line that trimming leaves alone |
| `PromptLayout.KeywordScoreOn` | src/main/java/com/example/simple_ai_project/service/AiService.java:236-240 | when the trimmed text after a keyword is a single line that is its own trim, the keyword's score is the parse of that line |
| `PromptLayout.DigitsScore` | src/main/java/com/example/simple_ai_project/service/AiService.java:236-240 | a keyword followed by a number and a percent sign scores that number, capped at 100 |
| `PromptLayout.ShapedKeywordScore` | src/main/java/com/example/simple_ai_project/service/AiService.java:234-247 | on the layout, with no "Feedback:" or "Score:" in the summary and no "Score:" in the feedback, the first score keyword yields the number in the score label |
| `PromptLayout.ShapedScore` | src/main/java/com/example/simple_ai_project/service/AiService.java:221-232 | under the same conditions, the score is the number in the score label, capped at 100 |
| `PromptLayout.LayoutRoundTrip` | src/main/java/com/example/simple_ai_project/service/AiService.java:112-115 | the corrected record of a response in the requested layout gives back the summary and the feedback trimmed and the score capped at 100, for any summary without "Feedback:" or "Score:", any feedback without "Score:" and any number with at most one decimal point |
| `PromptLayout.LayoutRecordAsWritten` | src/main/java/com/example/simple_ai_project/service/AiService.java:52-54 | the record the program builds from that response has the same summary and score, and the feedback text followed by a blank line and "English Proficiency", trimmed |
| `PromptLayout.NoScoreNoLabel` | src/main/java/com/example/simple_ai_project/service/AiService.java:176-179 | the full score label ends in "Score:", so a text without "Score:" has no full label either |
| `PromptLayout.LayoutFeedbackAsWritten` | src/main/java/com/example/simple_ai_project/service/AiService.java:175-185 | as written, `extractFeedback` on that response returns the feedback text, a blank line and "English Proficiency", trimmed |
| `PromptLayout.AsWrittenKeepsLabelWords` | src/main/java/com/example/simple_ai_project/service/AiService.java:175-185 | as written, the feedback is always longer than the intended one by at least the length of "English Proficiency", so the two never agree |
| `PromptLayout.TrimKeepsTail` | src/main/java/com/example/simple_ai_project/service/AiService.java:140 | trimming text that ends in a blank gap and then a word keeps the whole word |
| `EmptyResponse.NothingInEmpty` | src/main/java/com/example/simple_ai_project/service/AiService.java:134 | no non-empty keyword occurs in the empty text |
| `EmptyResponse.EmptyFeedback` | src/main/java/com/example/simple_ai_project/service/AiService.java:187-191 | the empty text has one line, so its feedback is "Feedback not found" |
| `EmptyResponse.EmptyScore` | src/main/java/com/example/simple_ai_project/service/AiService.java:221-232 | the empty text scores the default 75 |
| `EmptyResponse.EmptyAnalysis` | src/main/java/com/example/simple_ai_project/service/AiService.java:120-232 | the empty text gives the summary "", "Feedback not found" and 75 |
| `CorsFilter.MatchOrigin` | src/main/java/com/example/simple_ai_project/config/CorsFilter.java:49-53 | an origin is matched exactly when it is in the list, and the match is the origin itself |
| `CorsFilter.GetAllowedOrigin` | src/main/java/com/example/simple_ai_project/config/CorsFilter.java:39-57 | always a listed origin; the request's origin when it is listed; "http://localhost:8081" when the origin is absent or not listed |
| `CorsFilter.ListedEndInDigit` | src/main/java/com/example/simple_ai_project/config/CorsFilter.java:42-46 | every listed origin ends in the port's last digit |
| `CorsFilter.TrailingSlashFallsBack` | src/main/java/com/example/simple_ai_project/config/CorsFilter.java:50 | a listed origin with a trailing slash is not matched |
| `CorsFilter.UpperCaseFallsBack` | src/main/java/com/example/simple_ai_project/config/CorsFilter.java:50 | "HTTP://LOCALHOST:8081" falls back to the first listed origin; `GetAllowedOrigin`'s exact-membership ensures gives the general case |
| `CorsFilter.SpellingsOfLetter` | src/main/java/com/example/simple_ai_project/config/CorsFilter.java:31 | `equalsIgnoreCase` accepts in place of an upper-case letter exactly its spellings |
| `CorsFilter.IsPreflight` | src/main/java/com/example/simple_ai_project/config/CorsFilter.java:31 | `"OPTIONS".equalsIgnoreCase(method)`; `PreflightSpellings` states which methods it accepts |
| `CorsFilter.PreflightSpellings` | src/main/java/com/example/simple_ai_project/config/CorsFilter.java:31 | a method is a preflight exactly when it spells "OPTIONS" letter by letter in any case |
| `CorsFilter.DoFilter` | src/main/java/com/example/simple_ai_project/config/CorsFilter.java:22-36 | the allowed origin is a listed one; the request is answered at once exactly when its method spells "OPTIONS" in any case, and passed down the chain otherwise |
| `CorsFilter.PreflightVariants` | src/main/java/com/example/simple_ai_project/config/CorsFilter.java:31-36 | "options" and "OPTION" with a long s are answered at once; "OPTION" is passed down |

## Left out

- The I/O of `processFile` (reading the upload, the call to the language
  model, the PDF and the database writes) is left out. Its three extraction
  calls (lines 52-54) are `AiService.Analyze`.
- `getUserChats`, `deleteChatHistory` and `analyzeFileContent` are left out.
  They are calls to the language model and the database. Only the prompt's
  layout is used, as the input of `PromptLayout`.
- A `null` analysis string is not modelled. The answer is a string, so the
  `NullPointerException` the extractor would throw at its first `indexOf`
  (line 134) has no counterpart.
- `doFilter`'s header writes, the status write and the chain call are left out.
  `DoFilter` returns the decisions they act on.
- A `null` request method is not modelled. The method is a string.
- The other classes (users, tokens, PDF rendering, configuration) are outside
  this model.
- The score is an exact decimal. IEEE-754 rounding of `Double.parseDouble` and
  overflow to infinity are not modelled. Overflow would be capped at 100 anyway.
- Characters are code points, not UTF-16 code units. Surrogate pairs are not
  modelled.
- The case mappings are limited. They cover ASCII letters and the four
  non-ASCII characters whose case mapping lands on an ASCII letter. The
  extractor only looks for ASCII words, so other characters matter only in
  that they are not those words. `toLowerCase` is modelled for a
  non-Turkish locale.
- JavaText.Trim: its ensures gives the shape of the result only. What it keeps
  and removes is stated by `TrimWindow`, `TrimPadded` and `TrimOfTrimmed`.
- JavaText.SplitWhitespace: its ensures says only that no word holds white
  space. The words themselves are given by its definition.
- AiService.ExtractFeedback: its ensures covers only the path without a
  feedback keyword. The keyword path is `FindContentBetweenKeywords` and its
  lemmas, and the layout lemmas state the result on the requested layout.

## Findings

| source | as written | input that shows it | evidently intended | confidence | as-written member | corrected member |
|---|---|---|---|---|---|---|
| src/main/java/com/example/simple_ai_project/service/AiService.java:175-185 | `extractFeedback` ends the feedback at the first end keyword in list order. That is "Score:", which also occurs inside "English Proficiency Score:", the label the prompt asks for (lines 112-115). So on an answer in the requested layout, the feedback keeps the label's first words. | "Summary: S\n\nFeedback: F\n\nEnglish Proficiency Score: 80%" gives the feedback "F\n\nEnglish Proficiency" instead of "F" | the feedback text alone, trimmed: the segment should end at the full score label | not executed | `PromptLayout.LayoutFeedbackAsWritten` | `AiService.ExtractFeedbackCorrected` |

`PromptLayout.AsWrittenKeepsLabelWords` proves that, on every answer in the
layout, the as-written feedback is longer than the intended one.
`AiService.ExtractFeedbackCorrected` puts "English Proficiency Score:" ahead of
the seven score keywords. `AiService.AnalyzeCorrected` is the record built
with it, and `PromptLayout.LayoutRoundTrip` proves that this record returns
exactly the feedback text, trimmed. `AiService.Analyze` stays the record
`processFile` builds, and `PromptLayout.LayoutRecordAsWritten` states what it
holds on the same answer.
