# Answer highlighter: a Dafny model of the detector core

The repository is a browser extension. Its content script (`AnswerHighlighter` in
`content.js`) scans a page for quiz questions and picks one answer choice per
question to mark as correct. It puts a CSS class on that choice's element and keeps
a list of the questions it found. The popup (`popup.js`) asks the script for that
list and shows two counts plus one line per question.

This project models the part of that behaviour that does not depend on the browser:

- `js_text.dfy`, module `JsText`. Text is a sequence of UTF-16 code units, so
  `length`, `substring(0, 100)` and the `< 200` bound count exactly what JavaScript
  counts. Also here: `String.prototype.trim` over the ECMAScript whitespace and
  line-terminator set, and literal and ASCII case-insensitive substring search.
  Each search has a recursive definition and a lemma relating it to a quantified one.
- `classify.dfy`, module `Classify`. The three classifiers `isQuestion`,
  `isLikelyAnswerChoice` and `isLikelyCorrectAnswer`. Some of their patterns are
  plain string facts, and those are spelled out: a trailing `?`, the length bound,
  `[x]` in either case, the check mark, and `checked` or `selected` in any case.
  The other patterns are the uninterpreted function fields of a `Patterns` value.
  For the answer-choice shapes, the model adds one fact that all four shapes imply:
  the text starts with A–D or a–d, a digit, a bullet or a hyphen.
- `selection.dfy`, module `Selection`. This is `identifyCorrectAnswer` and
  `guessCorrectAnswer`. The first choice marked correct wins. If none is marked, a
  left fold keeps the running choice unless a later one is strictly longer. The
  rule is also stated on its own (`IsSelection`), and lemmas show the computation
  returns the unique position that rule names.
- `detector.dfy`, module `Detector`. The script's state is a record of four parts:
  - the question list;
  - the question-element-to-answer map;
  - the set of highlighted elements;
  - the number of elements that carry the dynamic-style id.

  `analyzeElement`, `highlightCorrectAnswer`, `addHighlightStyles`, the initial scan
  and the mutation callback are pure transitions of that record, and `getResults`
  is a projection of it. `Valid` is the invariant preserved by `analyzeElement`
  (which runs `highlightCorrectAnswer` right after the push), the initial scan, the
  mutation callback and `addHighlightStyles`. `highlightCorrectAnswer` on its own
  does not preserve it: it can add a map key for an element with no listed
  question.
- `popup.dfy`, module `Popup`. The pure part of `displayResults`: label truncation,
  the highlight count, and the choice between placeholder and list.
- `scenarios.dfy`, module `Scenarios`. Worked examples on concrete page fragments.

Behaviour of the code worth spelling out:

- The choice text `"[x] Paris"` does not start with any answer-choice shape, so
  `isLikelyAnswerChoice` rejects it. A question "Question 1: select the correct
  option" whose only candidate is that element has no choices and is not retained,
  although `"[x] Paris"` carries the `[x]` marker
  (`Scenarios.BracketedChoiceIsNotAChoice`).
- When the popup gets an empty report, it shows the placeholder but does not clear
  the list element. Items from an earlier non-empty report stay in the page
  (`Popup.EmptyReportKeepsOldItems`).
- The style block is inserted only if the document has no element with its id. A
  page that already has such an element gets no style block
  (`Detector.AddHighlightStyles`).
- An element that matches several question selectors is analysed once per match,
  and a `.question` element always matches two of them. The question list is not
  de-duplicated, while the answer map keeps one entry per element. Between the two
  analyses the answer has gained the `correct-answer-highlight` class. The
  `[class*="answer"]` choice selector matches that class, so the second record can
  list the answer once more. When the element's own answer is the only element
  under it that gained the class in between, the selected answer stays the same
  (`Detector.RepeatedElementIsListedTwice`). When a question nested inside it had
  its answer highlighted in between, that answer is an extra candidate too, and it
  can change the selection and the element's map entry
  (`Selection.InsertingOtherCanChangeSelection`).
- A container's text content includes the text of its choices. So a question
  written as "What is 2+2?" followed by its choices has a text that does not end
  in `?`, and it is retained only through the other question indicators
  (`Scenarios.EqualLengthChoicesEndToEnd`).

## Model

| member | source | states |
|---|---|---|
| JsText.TrimStartShape | content.js:40 | the leading-whitespace pass of `trim` removes only whitespace and stops at the first non-whitespace code unit |
| JsText.TrimEndShape | content.js:40 | the trailing-whitespace pass of `trim` removes only whitespace and stops at the last non-whitespace code unit |
| JsText.TrimShape | content.js:40 | `trim` returns a slice of its input with no whitespace at either end, and cuts only whitespace on both sides |
| JsText.TrimInverse | content.js:99 | any whitespace around a trimmed text is exactly what `trim` removes, which gives an independent characterisation of `trim` |
| JsText.TrimKeepsTrimmed | content.js:40 | a text with no whitespace at either end comes back from `trim` unchanged |
| JsText.TrimIdempotent | content.js:99 | trimming an already trimmed text changes nothing |
| JsText.TrimKeepsLast | content.js:40 | a last non-whitespace code unit followed only by whitespace is the last code unit of the trimmed text, whatever precedes it |
| JsText.Trim | content.js:40 | `trim` as the leading pass followed by the trailing pass; its meaning is stated by TrimShape and TrimInverse |
| JsText.ContainsMeans | content.js:129 | the left-to-right literal search finds a pattern iff it occurs at some position |
| JsText.ContainsIgnoringCaseMeans | content.js:130-131 | the case-insensitive search finds a pattern iff it occurs at some position up to ASCII case |
| Classify.IsQuestion | content.js:52-61 | a text is a question iff it ends in `?` or one of the other three indicators matches; QuestionMarkSuffices, QuestionWithoutMark and Detector.RawQuestionMark state it |
| Classify.IsLikelyAnswerChoice | content.js:113-124 | a text is an answer choice iff it has a choice shape, which forces its lead code unit, and is shorter than 200 code units; LongTextIsNeverChoice, UnknownIsNeverChoice and Detector.LongCandidateNeverChoice state it |
| Classify.IsLikelyCorrectAnswer | content.js:126-136 | a text is marked correct iff one of the five indicators matches; BracketedXMarksCorrect states the `[x]` case |
| Classify.QuestionMarkSuffices | content.js:52-61 | every text ending in `?` is a question |
| Classify.QuestionWithoutMark | content.js:53-60 | without a trailing `?`, a text is a question iff one of the other indicators matches |
| Classify.LongTextIsNeverChoice | content.js:122-123 | no text of 200 or more code units is an answer choice, whatever pattern it matches |
| Classify.UnknownIsNeverChoice | content.js:115-123 | the sentinel text "Unknown" matches no answer-choice shape |
| Classify.BracketedXMarksCorrect | content.js:130 | a text containing `[x]` or `[X]` is marked correct |
| Selection.FirstFlagged | content.js:140 | the search returns nothing iff no choice is flagged, and otherwise the first flagged position |
| Selection.LongerOf | content.js:150-151 | the `reduce` callback keeps the running choice unless the current one is strictly longer; ReduceLongest states what the fold of it returns |
| Selection.ReduceLongest | content.js:150-152 | the fold returns its start value or a later choice that is strictly longer than the start value, longer than or equal to every choice, and strictly longer than every earlier choice |
| Selection.GuessCorrectAnswer | content.js:148-153 | undefined only on an empty list; otherwise the choice at the earliest position of maximal text length |
| Selection.IdentifyCorrectAnswer | content.js:138-146 | undefined only on an empty list; otherwise an element of the list at the position the selection rule names, and flagged iff some choice is flagged |
| Selection.SelectionUnique | content.js:138-153 | the rule (first flagged, else earliest longest) names at most one position, even with repeated choices |
| Selection.SelectionExists | content.js:138-153 | every non-empty list has a selected position |
| Selection.IdentifyFollowsRule | content.js:138-153 | the selected answer is exactly the choice at the rule's position |
| Selection.OnlyFlaggedChoiceWins | content.js:140-141 | when exactly one choice is flagged, it is selected |
| Selection.UnflaggedPicksEarliestLongest | content.js:145-153 | with nothing flagged, the answer is at least as long as every choice, and no earlier choice is as long as it |
| Selection.InsertingSelectedKeepsSelection | content.js:138-153 | another copy of the selected choice, inserted at any position, leaves the selected answer unchanged |
| Selection.InsertingOtherCanChangeSelection | content.js:138-153 | for two unmarked choices of equal length, `o, i, o` selects `o` while `i, o, i, o` selects `i`: an extra copy of a choice that is not the selected one can change the selection |
| Selection.EqualLengthsPickFirst | content.js:150-152 | among "A. 3", "B. 4" and "C. 5", all unflagged and equally long, the first wins |
| Detector.AnyQualifiesMeans | content.js:99-100 | a node has a choice iff some selected element's trimmed text is non-empty and looks like an answer choice |
| Detector.FindAnswerChoices | content.js:96-110 | at most one choice per selected element; empty iff no element qualifies; every choice is non-empty, an answer choice, and flagged iff its text carries a correctness marker |
| Detector.FindAnswerChoicesSound | content.js:98-106 | every choice is built from a qualifying element, with that element's trimmed text |
| Detector.FindAnswerChoicesComplete | content.js:98-106 | every qualifying element contributes its choice, including elements that repeat |
| Detector.FindAnswerChoicesAppend | content.js:96-108 | running the selectors one after another concatenates their choices in order |
| Detector.ChoiceTextIsTrimmed | content.js:99-100 | choice texts are non-empty, trimmed and shorter than 200 code units |
| Detector.ExtractQuestionData | content.js:63-76 | null exactly when no choice is found; otherwise the question for that element and text, with the found choices, whose answer is the choice at the position the selection rule names |
| Detector.SelectedAnswer | content.js:71 | the answer of a well-formed question is what `identifyCorrectAnswer` returns for its choices |
| Detector.HighlightCorrectAnswer | content.js:155-168 | adds the answer's element to the highlighted set and overwrites the map entry for the question's element, leaving the other entries unchanged |
| Detector.HighlightIdempotent | content.js:158-161 | highlighting the same question twice leaves the same class set and map |
| Detector.RawQuestionMark | content.js:40-54 | a node whose text content ends in `?` followed only by whitespace is a question |
| Detector.LongCandidateNeverChoice | content.js:99-123 | an element whose text content is a text of 200 or more code units, with no whitespace at its ends, between any whitespace yields no choice |
| Detector.AnalyzeElement | content.js:39-50 | appends at most one question, exactly when the trimmed text is a question and a choice exists; earlier questions are unchanged; otherwise the state is untouched. A retained question carries the node's element, trimmed text and found choices, and its rule-selected answer's element joins the highlighted set, and the map entry for the node's element becomes that answer |
| Detector.AddHighlightStyles | content.js:170-188 | afterwards at least one element has the style id; if there was at most one before, there is exactly one; nothing else changes |
| Detector.AddHighlightStylesIdempotent | content.js:172 | adding the styles twice equals adding them once |
| Detector.AddHighlightStylesValid | content.js:170-188 | adding the style block preserves the invariant |
| Detector.AnalyzeAll | content.js:30-32 | analysing a node list only appends, at most one question per node |
| Detector.DetectQuestions | content.js:14-37 | the scan over the question selectors' outcomes; DetectQuestionsSkipsThrown and DetectQuestionsValid state what it does |
| Detector.AnalyzeAllAppend | content.js:27-36 | analysing two lists in sequence equals analysing their concatenation |
| Detector.DetectQuestionsSkipsThrown | content.js:27-36 | a selector that throws contributes nothing; the scan analyses the other selectors' matches in order |
| Detector.OnMutations | content.js:192-203 | the mutation callback over the records of one call; OnMutationsIsAnalysis and OnMutationsValid state what it does |
| Detector.OnMutationsIsAnalysis | content.js:192-203 | the mutation callback analyses each added element and then its descendants, in insertion order and with repeats, and skips non-element nodes |
| Detector.Valid | content.js:39-50 | the invariant: every listed question has choices and its rule-selected answer among them, that answer is highlighted, and the map holds for each element the answer of the last question listed for it |
| Detector.EmptyValid | content.js:2-4 | the freshly constructed detector satisfies the invariant |
| Detector.AnalyzeElementValid | content.js:39-50 | analysis preserves the invariant: questions well formed and highlighted, and the map holds the answer of the last question for each element |
| Detector.AnalyzeAllValid | content.js:30-32 | analysing any node list preserves the invariant |
| Detector.DetectQuestionsValid | content.js:14-37 | the initial scan preserves the invariant |
| Detector.OnMutationsValid | content.js:190-209 | one callback over any number of mutation records preserves the invariant |
| Detector.ExtraAnswerCandidate | content.js:96-108 | an extra candidate yielding the selected answer, at any position, adds one choice and leaves the answer unchanged |
| Detector.RepeatedElementIsListedTwice | content.js:39-50 | a question element analysed twice (both selectors of lines 18 and 22 match `.question`), the second time with its highlighted answer among the candidates again (line 91 matches the class added at line 158), is listed twice with the same element, text and answer, the second record having one more choice; the map keeps one entry, and only the answer's element is highlighted |
| Detector.Construct | content.js:2-12 | the constructed detector satisfies the invariant, exactly one style block exists if there was at most one before, and it retains at most one question per matched node |
| Detector.AnswerText | content.js:216 | the chosen choice's text, or "Unknown" without an answer; GetResults states it per entry |
| Detector.GetResults | content.js:211-219 | the total equals the number of entries and of questions; entries follow the questions in order with their texts, and each answer is the chosen choice's text, or "Unknown" when there is none |
| Detector.ResultsNeverUnknown | content.js:211-218 | in a valid state each reported answer is the text of one of that question's choices, and the "Unknown" sentinel never appears |
| Detector.ResultsOnlyGrow | content.js:46 | later analysis only appends entries to the report |
| Detector.RespondToGetResults | content.js:234-239 | the reply has a consistent total, and it is empty when no highlighter exists yet |
| Popup.TruncateLabel | popup.js:30 | a label of at most 100 code units is unchanged; a longer one becomes its first 100 code units plus "...", 103 in all; the label always begins with the first min(100, length) code units |
| Popup.LabelsCollide | popup.js:30 | two questions get the same label iff they are equal, or both are longer than 100 and share their first 100 code units |
| Popup.HighlightCount | popup.js:20 | at most the number of entries; equal to it iff no answer is "Unknown"; zero iff every answer is "Unknown" |
| Popup.HighlightCountAppend | popup.js:20 | the count of a concatenation is the sum of the counts |
| Popup.RenderItems | popup.js:26-34 | one item per entry, in order, numbered from 1, with the truncated label and the answer |
| Popup.DisplayResults | popup.js:18-38 | both counts set; placeholder shown iff the list is empty; a non-empty list replaces the items; an empty one leaves them |
| Popup.Refresh | popup.js:10-14 | an absent response leaves the popup unchanged |
| Popup.EmptyReportKeepsOldItems | popup.js:22-37 | an empty report after a non-empty one shows the placeholder while the old items remain |
| Popup.DisplayDetectorResults | popup.js:18-38 | fed by a valid detector, the popup shows the question count as the highlight count, and one item per question with its label and chosen answer |
| Popup.NoDetectorShowsPlaceholder | popup.js:18-38 | the empty reply of a missing highlighter shows the placeholder with both counts at zero |
| Scenarios.EqualLengthChoicesEndToEnd | content.js:39-57 | a container with text content "What is 2+2?A. 3B. 4C. 5" over the candidates "A. 3", "B. 4", "C. 5" with no marker, given that the interrogative pattern matches that text, is retained with "A. 3" as its answer |
| Scenarios.BracketedChoiceIsNotAChoice | content.js:113-124 | "[x] Paris" is not an answer choice, so a container with text content "Question 1: select the correct option[x] Paris" whose only candidate it is gets no question record |

## Left out

- Selector evaluation with `document.querySelectorAll` (content.js:16-36, 82-97)
  depends on the host's CSS support. The elements each selector returns are inputs:
  `SelectorOutcome` for the question selectors, and `Node.candidates` for the
  choice selectors, in selector order and with repeats. `*:contains("?")` is not
  valid CSS, so it is the `Threw` case.
- The `MutationObserver` subscription (content.js:190-209) is driven by the event
  loop. `OnMutations` is the callback applied to given batches of added nodes. The
  `nodeType === 1` test is the `ElementNode`/`OtherNode` split. The result of
  `querySelectorAll('*')` is an input list of descendants.
- The regular expressions other than the facts listed above are uninterpreted
  fields of `Patterns`: the interrogative-word, "question N" and "select … correct"
  question indicators, the four answer-choice shapes, the whole-word
  correct/right/true/yes marker, and "answer key". Whole-word boundaries and `\s`
  inside those patterns are therefore not modelled.
- Cross-context messaging (`chrome.runtime.onMessage`, `chrome.tabs.query` and
  `sendMessage`) is a foreign browser API. So are the listener's `return true` and
  the `DOMContentLoaded` timing of the highlighter's creation. `RespondToGetResults`
  models only the reply value, and `Refresh` only the `if (response)` guard.
- DOM rendering is left out: `innerHTML`, element creation, `style.display`
  strings, the `✓ ` answer prefix, and the decimal rendering of item numbers.
  Question and answer texts are interpolated into `innerHTML` without escaping.
  The model keeps them as text and does not model how the HTML parser reads them.
- Choice lists depend on earlier highlights: the `[class*="answer"]` selector
  (content.js:91) also matches the `correct-answer-highlight` class added at
  content.js:158. The model takes each node's candidates as given, so which elements
  carry that class when a node is analysed is an input, not something the state
  tracks. `Detector.RepeatedElementIsListedTwice` covers the case of a question
  element analysed again after its own answer was highlighted.
- `console.log` calls and the CSS text of the injected style block are left out.
- Element references are opaque `Element` identities. Only their equality is used,
  by the highlighted set and the answer map.
