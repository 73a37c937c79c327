/** The `AnswerHighlighter` content script as a state machine: the questions it
    has retained, the question-to-answer map, and the two marks it leaves on the
    page (the highlight class and the dynamic style block). Every DOM query is an
    input: a node arrives with its text content and with the elements that the
    answer-choice selectors returned under it, in selector order and with
    repetitions. */
module Detector {

  import opened Wrappers
  import opened JsText
  import opened Classify
  import opened Selection

  /** An element returned by one of the answer-choice selectors. */
  datatype Candidate = Candidate(element: Element, textContent: Text)

  /** An element handed to `analyzeElement`: its untrimmed text content and the
      concatenated results of the answer-choice selectors run under it. */
  datatype Node = Node(element: Element, textContent: Text, candidates: seq<Candidate>)

  /** A retained question. `correctAnswer` is `None` where the source would hold
      `undefined`. */
  datatype Question = Question(element: Element, text: Text, choices: seq<Choice>, correctAnswer: Option<Choice>)

  /** The detector and the page marks it is responsible for.
      `highlighted`: elements carrying the highlight class.
      `styleBlocks`: elements of the document whose id is the dynamic-style id. */
  datatype State = State(
    questions: seq<Question>,
    correctAnswers: map<Element, Choice>,
    highlighted: set<Element>,
    styleBlocks: nat
  )

  /** What one question selector did during the initial scan: it matched a list of
      elements, or evaluating it threw (the scan logs that and moves on). */
  datatype SelectorOutcome = Matched(nodes: seq<Node>) | Threw

  /** A node of a mutation record's `addedNodes`: an element with all of its
      descendants in document order, or some other kind of node. */
  datatype AddedNode = ElementNode(node: Node, descendants: seq<Node>) | OtherNode

  /** The report sent to the popup. */
  datatype Entry = Entry(question: Text, correctAnswer: Text)
  datatype Results = Results(totalQuestions: nat, questions: seq<Entry>)

  // ---------------------------------------------------------------------------
  // Answer choices and question data
  // ---------------------------------------------------------------------------

  /** A candidate is kept as a choice when its trimmed text is non-empty and looks
      like an answer choice. */
  predicate Qualifies(p: Patterns, c: Candidate) {
    var text := Trim(c.textContent);
    |text| > 0 && IsLikelyAnswerChoice(p, text)
  }

  /** The choice record built from a candidate. */
  function ChoiceFor(p: Patterns, c: Candidate): Choice {
    var text := Trim(c.textContent);
    Choice(c.element, text, IsLikelyCorrectAnswer(p, text))
  }

  /** What every extracted choice satisfies. */
  predicate IsChoice(p: Patterns, c: Choice) {
    && |c.text| > 0
    && IsLikelyAnswerChoice(p, c.text)
    && c.isCorrect == IsLikelyCorrectAnswer(p, c.text)
  }

  /** Some candidate qualifies. */
  predicate AnyQualifies(p: Patterns, candidates: seq<Candidate>) {
    |candidates| > 0 && (Qualifies(p, candidates[0]) || AnyQualifies(p, candidates[1..]))
  }

  lemma {:induction false} AnyQualifiesMeans(p: Patterns, candidates: seq<Candidate>)
    ensures AnyQualifies(p, candidates) <==> exists k :: 0 <= k < |candidates| && Qualifies(p, candidates[k])
  {
    if |candidates| > 0 {
      AnyQualifiesMeans(p, candidates[1..]);
      if !Qualifies(p, candidates[0]) && exists k :: 0 <= k < |candidates| && Qualifies(p, candidates[k]) {
        var k :| 0 <= k < |candidates| && Qualifies(p, candidates[k]);
        assert candidates[1..][k - 1] == candidates[k];
      }
    }
  }

  /** `findAnswerChoices` after the selectors have run: keep the qualifying
      candidates, in order, with repetitions. */
  function FindAnswerChoices(p: Patterns, candidates: seq<Candidate>): (r: seq<Choice>)
    ensures |r| <= |candidates|
    ensures |r| == 0 <==> !AnyQualifies(p, candidates)
    ensures forall c :: c in r ==> IsChoice(p, c)
  {
    if |candidates| == 0 then []
    else
      var rest := FindAnswerChoices(p, candidates[1..]);
      if Qualifies(p, candidates[0]) then [ChoiceFor(p, candidates[0])] + rest else rest
  }

  /** Every extracted choice is built from a qualifying candidate. */
  lemma {:induction false} FindAnswerChoicesSound(p: Patterns, candidates: seq<Candidate>, c: Choice)
    requires c in FindAnswerChoices(p, candidates)
    ensures exists k :: 0 <= k < |candidates| && Qualifies(p, candidates[k]) && c == ChoiceFor(p, candidates[k])
  {
    if Qualifies(p, candidates[0]) && c == ChoiceFor(p, candidates[0]) {
    } else {
      FindAnswerChoicesSound(p, candidates[1..], c);
      var k :| 0 <= k < |candidates[1..]| && Qualifies(p, candidates[1..][k]) && c == ChoiceFor(p, candidates[1..][k]);
      assert candidates[1..][k] == candidates[k + 1];
    }
  }

  /** Every qualifying candidate yields a choice. */
  lemma {:induction false} FindAnswerChoicesComplete(p: Patterns, candidates: seq<Candidate>, k: int)
    requires 0 <= k < |candidates| && Qualifies(p, candidates[k])
    ensures ChoiceFor(p, candidates[k]) in FindAnswerChoices(p, candidates)
  {
    if k > 0 {
      assert candidates[1..][k - 1] == candidates[k];
      FindAnswerChoicesComplete(p, candidates[1..], k - 1);
    }
  }

  /** Running the selectors one after the other concatenates their choices. */
  lemma {:induction false} FindAnswerChoicesAppend(p: Patterns, a: seq<Candidate>, b: seq<Candidate>)
    ensures FindAnswerChoices(p, a + b) == FindAnswerChoices(p, a) + FindAnswerChoices(p, b)
  {
    if |a| > 0 {
      assert (a + b)[0] == a[0];
      assert (a + b)[1..] == a[1..] + b;
      FindAnswerChoicesAppend(p, a[1..], b);
    } else {
      assert a + b == b;
    }
  }

  /** Extracted choice texts are what `trim` returns: non-empty, no whitespace at
      either end, shorter than 200 code units. */
  lemma ChoiceTextIsTrimmed(p: Patterns, candidates: seq<Candidate>, c: Choice)
    requires c in FindAnswerChoices(p, candidates)
    ensures IsTrimmed(c.text) && 0 < |c.text| < CHOICE_LENGTH_LIMIT
  {
    FindAnswerChoicesSound(p, candidates, c);
    var k :| 0 <= k < |candidates| && Qualifies(p, candidates[k]) && c == ChoiceFor(p, candidates[k]);
    TrimShape(candidates[k].textContent);
  }

  /** A question is well formed: it has choices, every one a genuine choice, and
      its correct answer is one of them, the one the selection rule names. */
  predicate WellFormed(p: Patterns, q: Question) {
    && |q.choices| > 0
    && (forall c :: c in q.choices ==> IsChoice(p, c))
    && q.correctAnswer.Some?
    && q.correctAnswer.value in q.choices
    && exists k :: 0 <= k < |q.choices| && IsSelection(q.choices, k) && q.correctAnswer == Some(q.choices[k])
  }

  /** `extractQuestionData`: `null` when no choice was found, otherwise the question
      with its choices and selected answer. */
  function ExtractQuestionData(p: Patterns, node: Node, text: Text): (r: Option<Question>)
    ensures r.None? <==> !AnyQualifies(p, node.candidates)
    ensures r.Some? ==> && r.value.element == node.element
                        && r.value.text == text
                        && r.value.choices == FindAnswerChoices(p, node.candidates)
                        && WellFormed(p, r.value)
  {
    var choices := FindAnswerChoices(p, node.candidates);
    if |choices| > 0 then
      Some(Question(node.element, text, choices, IdentifyCorrectAnswer(choices)))
    else
      None
  }

  // ---------------------------------------------------------------------------
  // State updates
  // ---------------------------------------------------------------------------

  /** `highlightCorrectAnswer`: put the highlight class on the chosen element and
      record the answer under the question's element, replacing an earlier one. */
  function HighlightCorrectAnswer(s: State, q: Question): (r: State)
    ensures r.questions == s.questions && r.styleBlocks == s.styleBlocks
    ensures q.correctAnswer.None? ==> r == s
    ensures q.correctAnswer.Some? ==>
      && r.highlighted == s.highlighted + {q.correctAnswer.value.element}
      && r.correctAnswers.Keys == s.correctAnswers.Keys + {q.element}
      && r.correctAnswers[q.element] == q.correctAnswer.value
      && forall e :: e in s.correctAnswers && e != q.element ==> r.correctAnswers[e] == s.correctAnswers[e]
  {
    match q.correctAnswer
    case None => s
    case Some(c) =>
      s.(highlighted := s.highlighted + {c.element},
         correctAnswers := s.correctAnswers[q.element := c])
  }

  /** Highlighting the same question twice changes nothing the second time. */
  lemma HighlightIdempotent(s: State, q: Question)
    ensures HighlightCorrectAnswer(HighlightCorrectAnswer(s, q), q) == HighlightCorrectAnswer(s, q)
  {
  }

  /** The text `analyzeElement` classifies. */
  function NodeText(node: Node): Text {
    Trim(node.textContent)
  }

  /** True when `analyzeElement` retains a question for `node`. */
  predicate Retains(p: Patterns, node: Node) {
    && IsQuestion(p, NodeText(node))
    && AnyQualifies(p, node.candidates)
  }

  /** A node whose text content ends in a question mark, followed by nothing but
      whitespace, is a question: the `/\?$/` test runs on the trimmed text. */
  lemma RawQuestionMark(p: Patterns, node: Node, t: Text, w: Text)
    requires node.textContent == t + w
    requires EndsWith(t, QUESTION_MARK) && AllWhitespace(w)
    ensures IsQuestion(p, NodeText(node))
  {
    TrimKeepsLast(t, w);
  }

  /** A candidate whose text content is a text of 200 or more code units, without
      whitespace at its ends, between any whitespace never yields a choice. */
  lemma LongCandidateNeverChoice(p: Patterns, c: Candidate, a: Text, t: Text, b: Text)
    requires c.textContent == a + t + b
    requires AllWhitespace(a) && AllWhitespace(b) && IsTrimmed(t) && |t| >= CHOICE_LENGTH_LIMIT
    ensures !Qualifies(p, c)
    ensures FindAnswerChoices(p, [c]) == []
  {
    TrimInverse(a, t, b);
    assert [c][1..] == [];
  }

  /** `analyzeElement`: classify the trimmed text and, for a question with at least
      one choice, append it and highlight its answer. */
  function AnalyzeElement(p: Patterns, s: State, node: Node): (r: State)
    ensures r.styleBlocks == s.styleBlocks
    ensures s.highlighted <= r.highlighted
    ensures |s.questions| <= |r.questions| <= |s.questions| + 1
    ensures r.questions[..|s.questions|] == s.questions
    ensures |r.questions| == |s.questions| + 1 <==> Retains(p, node)
    ensures !Retains(p, node) ==> r == s
    ensures Retains(p, node) ==>
      var q := r.questions[|s.questions|];
      && r.questions == s.questions + [q]
      && q.element == node.element && q.text == NodeText(node)
      && q.choices == FindAnswerChoices(p, node.candidates)
      && WellFormed(p, q)
      && r.highlighted == s.highlighted + {q.correctAnswer.value.element}
      && r.correctAnswers == s.correctAnswers[node.element := q.correctAnswer.value]
  {
    var text := NodeText(node);
    if IsQuestion(p, text) then
      match ExtractQuestionData(p, node, text)
      case None => s
      case Some(q) =>
        assert (s.questions + [q])[..|s.questions|] == s.questions;
        HighlightCorrectAnswer(s.(questions := s.questions + [q]), q)
    else
      s
  }

  /** `addHighlightStyles`: insert the style block unless an element with its id
      is already in the document. */
  function AddHighlightStyles(s: State): (r: State)
    ensures r.styleBlocks >= 1
    ensures s.styleBlocks <= 1 ==> r.styleBlocks == 1
    ensures s.styleBlocks >= 1 ==> r == s
    ensures r.(styleBlocks := s.styleBlocks) == s
  {
    if s.styleBlocks == 0 then s.(styleBlocks := 1) else s
  }

  /** Adding the styles twice is the same as adding them once. */
  lemma AddHighlightStylesIdempotent(s: State)
    ensures AddHighlightStyles(AddHighlightStyles(s)) == AddHighlightStyles(s)
  {
  }

  /** `nodes.forEach(analyzeElement)`. */
  function AnalyzeAll(p: Patterns, s: State, nodes: seq<Node>): (r: State)
    decreases |nodes|
    ensures r.styleBlocks == s.styleBlocks
    ensures s.highlighted <= r.highlighted
    ensures |s.questions| <= |r.questions| <= |s.questions| + |nodes|
    ensures r.questions[..|s.questions|] == s.questions
  {
    if |nodes| == 0 then s else AnalyzeAll(p, AnalyzeElement(p, s, nodes[0]), nodes[1..])
  }

  lemma {:induction false} AnalyzeAllAppend(p: Patterns, s: State, a: seq<Node>, b: seq<Node>)
    ensures AnalyzeAll(p, s, a + b) == AnalyzeAll(p, AnalyzeAll(p, s, a), b)
    decreases |a|
  {
    if |a| > 0 {
      assert (a + b)[1..] == a[1..] + b;
      AnalyzeAllAppend(p, AnalyzeElement(p, s, a[0]), a[1..], b);
    } else {
      assert a + b == b;
    }
  }

  /** `detectQuestions`: analyse what every question selector matched, skipping the
      selectors that threw. */
  function DetectQuestions(p: Patterns, s: State, outcomes: seq<SelectorOutcome>): State
    decreases |outcomes|
  {
    if |outcomes| == 0 then s
    else
      var s' := match outcomes[0]
        case Matched(nodes) => AnalyzeAll(p, s, nodes)
        case Threw => s;
      DetectQuestions(p, s', outcomes[1..])
  }

  /** The nodes the selectors that did not throw matched, in order. */
  function MatchedNodes(outcomes: seq<SelectorOutcome>): seq<Node> {
    if |outcomes| == 0 then []
    else
      (match outcomes[0] case Matched(nodes) => nodes case Threw => []) + MatchedNodes(outcomes[1..])
  }

  /** A selector that throws contributes nothing: the scan is the analysis of the
      other selectors' matches, in order. */
  lemma {:induction false} DetectQuestionsSkipsThrown(p: Patterns, s: State, outcomes: seq<SelectorOutcome>)
    ensures DetectQuestions(p, s, outcomes) == AnalyzeAll(p, s, MatchedNodes(outcomes))
    decreases |outcomes|
  {
    if |outcomes| > 0 {
      match outcomes[0]
      case Matched(nodes) =>
        DetectQuestionsSkipsThrown(p, AnalyzeAll(p, s, nodes), outcomes[1..]);
        AnalyzeAllAppend(p, s, nodes, MatchedNodes(outcomes[1..]));
      case Threw =>
        DetectQuestionsSkipsThrown(p, s, outcomes[1..]);
        assert MatchedNodes(outcomes) == MatchedNodes(outcomes[1..]);
    }
  }

  /** The elements the mutation callback analyses: each added element node, then
      every one of its descendants. */
  function InsertedElements(added: seq<AddedNode>): seq<Node> {
    if |added| == 0 then []
    else
      (match added[0] case ElementNode(n, ds) => [n] + ds case OtherNode => []) + InsertedElements(added[1..])
  }

  /** The mutation callback over a batch of records: for each added element node,
      analyse it and then its descendants; skip other node kinds. */
  function OnMutations(p: Patterns, s: State, mutations: seq<seq<AddedNode>>): State
    decreases |mutations|
  {
    if |mutations| == 0 then s
    else OnMutations(p, AnalyzeAll(p, s, InsertedElements(mutations[0])), mutations[1..])
  }

  /** The elements of all records of a batch, in order. */
  function AllInserted(mutations: seq<seq<AddedNode>>): seq<Node> {
    if |mutations| == 0 then [] else InsertedElements(mutations[0]) + AllInserted(mutations[1..])
  }

  /** One callback over any number of records is the analysis of the inserted
      elements in order, with repeats: an element that is a descendant of one
      added node and itself an added node of a later record is analysed each
      time. Nothing is re-scanned from the document. */
  lemma {:induction false} OnMutationsIsAnalysis(p: Patterns, s: State, mutations: seq<seq<AddedNode>>)
    ensures OnMutations(p, s, mutations) == AnalyzeAll(p, s, AllInserted(mutations))
    decreases |mutations|
  {
    if |mutations| > 0 {
      OnMutationsIsAnalysis(p, AnalyzeAll(p, s, InsertedElements(mutations[0])), mutations[1..]);
      AnalyzeAllAppend(p, s, InsertedElements(mutations[0]), AllInserted(mutations[1..]));
    }
  }

  // ---------------------------------------------------------------------------
  // The state invariant
  // ---------------------------------------------------------------------------

  /** Question `i` is the last one recorded for element `e`. */
  ghost predicate IsLastFor(qs: seq<Question>, e: Element, i: int) {
    && 0 <= i < |qs|
    && qs[i].element == e
    && forall j :: i < j < |qs| ==> qs[j].element != e
  }

  /** What the detector maintains: every retained question is well formed and has
      its answer highlighted; the answer map has one key per question element, and
      holds the answer of the last question for that element. */
  ghost predicate Valid(p: Patterns, s: State) {
    && (forall i :: 0 <= i < |s.questions| ==> WellFormed(p, s.questions[i]))
    && (forall i :: 0 <= i < |s.questions| ==> s.questions[i].element in s.correctAnswers)
    && (forall i :: 0 <= i < |s.questions| && s.questions[i].correctAnswer.Some? ==>
          s.questions[i].correctAnswer.value.element in s.highlighted)
    && (forall e :: e in s.correctAnswers ==>
          exists i :: IsLastFor(s.questions, e, i) && s.questions[i].correctAnswer == Some(s.correctAnswers[e]))
  }

  /** A detector with no questions and an empty map, on a page with any marks. */
  lemma EmptyValid(p: Patterns, highlighted: set<Element>, styleBlocks: nat)
    ensures Valid(p, State([], map[], highlighted, styleBlocks))
  {
  }

  lemma AnalyzeElementValid(p: Patterns, s: State, node: Node)
    requires Valid(p, s)
    ensures Valid(p, AnalyzeElement(p, s, node))
  {
    var r := AnalyzeElement(p, s, node);
    if Retains(p, node) {
      var n := |s.questions|;
      var q := r.questions[n];
      assert r.questions == s.questions + [q];
      var c := q.correctAnswer.value;
      assert r.highlighted == s.highlighted + {c.element};
      forall e | e in r.correctAnswers
        ensures exists i :: IsLastFor(r.questions, e, i) && r.questions[i].correctAnswer == Some(r.correctAnswers[e])
      {
        if e == q.element {
          assert IsLastFor(r.questions, e, n);
        } else {
          var i :| IsLastFor(s.questions, e, i) && s.questions[i].correctAnswer == Some(s.correctAnswers[e]);
          assert IsLastFor(r.questions, e, i);
        }
      }
    }
  }

  lemma {:induction false} AnalyzeAllValid(p: Patterns, s: State, nodes: seq<Node>)
    requires Valid(p, s)
    ensures Valid(p, AnalyzeAll(p, s, nodes))
    decreases |nodes|
  {
    if |nodes| > 0 {
      AnalyzeElementValid(p, s, nodes[0]);
      AnalyzeAllValid(p, AnalyzeElement(p, s, nodes[0]), nodes[1..]);
    }
  }

  lemma {:induction false} DetectQuestionsValid(p: Patterns, s: State, outcomes: seq<SelectorOutcome>)
    requires Valid(p, s)
    ensures Valid(p, DetectQuestions(p, s, outcomes))
  {
    DetectQuestionsSkipsThrown(p, s, outcomes);
    AnalyzeAllValid(p, s, MatchedNodes(outcomes));
  }

  lemma {:induction false} OnMutationsValid(p: Patterns, s: State, mutations: seq<seq<AddedNode>>)
    requires Valid(p, s)
    ensures Valid(p, OnMutations(p, s, mutations))
  {
    OnMutationsIsAnalysis(p, s, mutations);
    AnalyzeAllValid(p, s, AllInserted(mutations));
  }

  /** Adding the styles touches neither the questions, the map nor the highlights,
      so it keeps the invariant. */
  lemma AddHighlightStylesValid(p: Patterns, s: State)
    requires Valid(p, s)
    ensures Valid(p, AddHighlightStyles(s))
  {
  }

  /** The answer of a well-formed question is what `identifyCorrectAnswer` returns
      for its choices. */
  lemma SelectedAnswer(p: Patterns, q: Question)
    requires WellFormed(p, q)
    ensures q.correctAnswer == IdentifyCorrectAnswer(q.choices)
  {
    var k :| 0 <= k < |q.choices| && IsSelection(q.choices, k) && q.correctAnswer == Some(q.choices[k]);
    IdentifyFollowsRule(q.choices, k);
  }

  lemma AnalyzeTwo(p: Patterns, s: State, n1: Node, n2: Node)
    ensures AnalyzeAll(p, s, [n1, n2]) == AnalyzeElement(p, AnalyzeElement(p, s, n1), n2)
  {
    var s1 := AnalyzeElement(p, s, n1);
    assert [n1, n2][1..] == [n2];
    assert [n2][1..] == [];
    assert AnalyzeAll(p, s1, [n2]) == AnalyzeAll(p, AnalyzeElement(p, s1, n2), []);
  }

  /** A candidate that yields the selected answer, added among the candidates at
      any position, adds one choice and leaves the selected answer unchanged. */
  lemma ExtraAnswerCandidate(p: Patterns, cands: seq<Candidate>, i: int, extra: Candidate)
    requires 0 <= i <= |cands|
    requires Some(ChoiceFor(p, extra)) == IdentifyCorrectAnswer(FindAnswerChoices(p, cands))
    ensures var more := FindAnswerChoices(p, cands[..i] + [extra] + cands[i..]);
      && |more| == |FindAnswerChoices(p, cands)| + 1
      && IdentifyCorrectAnswer(more) == Some(ChoiceFor(p, extra))
  {
    var pre, post := cands[..i], cands[i..];
    var choices := FindAnswerChoices(p, cands);
    var a := ChoiceFor(p, extra);
    assert IsChoice(p, a);
    assert [extra][1..] == [];
    assert FindAnswerChoices(p, [extra]) == [a];
    assert pre + post == cands;
    FindAnswerChoicesAppend(p, pre, post);
    FindAnswerChoicesAppend(p, pre + [extra], post);
    FindAnswerChoicesAppend(p, pre, [extra]);
    var j := |FindAnswerChoices(p, pre)|;
    assert choices[..j] == FindAnswerChoices(p, pre);
    assert choices[j..] == FindAnswerChoices(p, post);
    InsertingSelectedKeepsSelection(choices, j, a);
    assert FindAnswerChoices(p, pre + [extra] + post) == choices[..j] + [a] + choices[j..];
  }

  /** An element matched by two question selectors is analysed twice. By the
      second time its answer carries the highlight class, which the
      `[class*="answer"]` choice selector matches, so the second analysis may see
      the answer's element once more, anywhere among the candidates. Both
      questions are listed, with the same element, text and answer, the second
      with one more choice; the answer map keeps a single entry for the element. */
  lemma RepeatedElementIsListedTwice(p: Patterns, s: State, node: Node, i: int, extra: Candidate)
    requires Retains(p, node)
    requires 0 <= i <= |node.candidates|
    requires Some(ChoiceFor(p, extra)) == IdentifyCorrectAnswer(FindAnswerChoices(p, node.candidates))
    ensures var node2 := node.(candidates := node.candidates[..i] + [extra] + node.candidates[i..]);
      var r := AnalyzeAll(p, s, [node, node2]);
      var n := |s.questions|;
      && |r.questions| == n + 2
      && r.questions[n].element == r.questions[n + 1].element == node.element
      && r.questions[n].text == r.questions[n + 1].text
      && r.questions[n].correctAnswer == r.questions[n + 1].correctAnswer == Some(ChoiceFor(p, extra))
      && |r.questions[n + 1].choices| == |r.questions[n].choices| + 1
      && r.correctAnswers == s.correctAnswers[node.element := ChoiceFor(p, extra)]
      && r.highlighted == s.highlighted + {extra.element}
  {
    var node2 := node.(candidates := node.candidates[..i] + [extra] + node.candidates[i..]);
    ExtraAnswerCandidate(p, node.candidates, i, extra);
    AnalyzeTwo(p, s, node, node2);
    var s1 := AnalyzeElement(p, s, node);
    var q1 := s1.questions[|s.questions|];
    SelectedAnswer(p, q1);
    assert Retains(p, node2);
    var s2 := AnalyzeElement(p, s1, node2);
    var q2 := s2.questions[|s1.questions|];
    SelectedAnswer(p, q2);
  }

  /** The constructor with `init`: start empty, scan, then add the styles. */
  function Construct(p: Patterns, outcomes: seq<SelectorOutcome>, highlighted: set<Element>, styleBlocks: nat): (r: State)
    ensures Valid(p, r)
    ensures r.styleBlocks >= 1 && (styleBlocks <= 1 ==> r.styleBlocks == 1)
    ensures highlighted <= r.highlighted
    ensures |r.questions| <= |MatchedNodes(outcomes)|
  {
    var s := State([], map[], highlighted, styleBlocks);
    EmptyValid(p, highlighted, styleBlocks);
    DetectQuestionsValid(p, s, outcomes);
    DetectQuestionsSkipsThrown(p, s, outcomes);
    AddHighlightStyles(DetectQuestions(p, s, outcomes))
  }

  // ---------------------------------------------------------------------------
  // Results
  // ---------------------------------------------------------------------------

  /** The reported answer text: the chosen choice's text, or the sentinel. */
  function AnswerText(q: Question): Text {
    match q.correctAnswer
    case Some(c) => c.text
    case None => UNKNOWN
  }

  /** `getResults`: one entry per retained question, in order. */
  function GetResults(s: State): (r: Results)
    ensures r.totalQuestions == |r.questions| == |s.questions|
    ensures forall i :: 0 <= i < |s.questions| ==> r.questions[i].question == s.questions[i].text
    ensures forall i :: 0 <= i < |s.questions| ==>
      r.questions[i].correctAnswer == (if s.questions[i].correctAnswer.Some? then s.questions[i].correctAnswer.value.text else UNKNOWN)
  {
    Results(|s.questions|, seq(|s.questions|, i requires 0 <= i < |s.questions| => Entry(s.questions[i].text, AnswerText(s.questions[i]))))
  }

  /** In a valid state every reported answer is the text of one of its question's
      own choices, so the "Unknown" sentinel never appears. */
  lemma ResultsNeverUnknown(p: Patterns, s: State)
    requires Valid(p, s)
    ensures forall i :: 0 <= i < |s.questions| ==>
      && GetResults(s).questions[i].correctAnswer == s.questions[i].correctAnswer.value.text
      && (exists c :: c in s.questions[i].choices && c.text == GetResults(s).questions[i].correctAnswer)
      && GetResults(s).questions[i].correctAnswer != UNKNOWN
  {
    forall i | 0 <= i < |s.questions|
      ensures GetResults(s).questions[i].correctAnswer != UNKNOWN
    {
      var c := s.questions[i].correctAnswer.value;
      assert IsChoice(p, c);
      UnknownIsNeverChoice(p);
    }
  }

  /** Later analysis only appends to the report: earlier entries are unchanged. */
  lemma ResultsOnlyGrow(p: Patterns, s: State, nodes: seq<Node>)
    ensures var before := GetResults(s).questions;
            var after := GetResults(AnalyzeAll(p, s, nodes)).questions;
            |before| <= |after| && after[..|before|] == before
  {
    var r := AnalyzeAll(p, s, nodes);
    assert forall i :: 0 <= i < |s.questions| ==> r.questions[i] == s.questions[i];
  }

  /** The message listener: the highlighter's results, or an empty report when the
      highlighter has not been created yet. */
  function RespondToGetResults(highlighter: Option<State>): (r: Results)
    ensures r.totalQuestions == |r.questions|
    ensures highlighter.None? ==> r.questions == []
    ensures highlighter.Some? ==> |r.questions| == |highlighter.value.questions|
  {
    match highlighter
    case Some(s) => GetResults(s)
    case None => Results(0, [])
  }

}
