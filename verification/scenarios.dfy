/** Worked examples of the detector on concrete page fragments. */
module Scenarios {

  import opened Wrappers
  import opened JsText
  import opened Classify
  import opened Selection
  import opened Detector

  const WHAT_IS: Text := Ascii("What is 2+2?")
  const CHOICE_A: Text := Ascii("A. 3")
  const CHOICE_B: Text := Ascii("B. 4")
  const CHOICE_C: Text := Ascii("C. 5")
  /** The text content of a container holding the question and its three
      choices: "What is 2+2?A. 3B. 4C. 5". */
  const PAGE_TEXT: Text := WHAT_IS + CHOICE_A + CHOICE_B + CHOICE_C
  const BRACKETED: Text := Ascii("[x] Paris")
  /** "Question 1: select the correct option[x] Paris" */
  const BRACKETED_PAGE_TEXT: Text := Ascii("Question 1: select the correct option") + BRACKETED

  lemma PageTextTrimmed()
    ensures IsTrimmed(PAGE_TEXT) && !EndsWith(PAGE_TEXT, QUESTION_MARK)
  {
    assert PAGE_TEXT[0] == WHAT_IS[0];
    assert PAGE_TEXT[|PAGE_TEXT| - 1] == CHOICE_C[3];
  }

  /** A short ASCII text without '[', 'c', 's' or a check mark carries no
      correctness marker unless one of the uninterpreted patterns says so. */
  lemma PlainTextNotMarked(p: Patterns, t: Text)
    requires |t| < 7
    requires forall k :: 0 <= k < |t| ==> t[k] < 0x80 && AsciiLower(t[k]) != 0x5B
    requires !p.correctWord(t) && !p.answerKey(t)
    ensures !IsLikelyCorrectAnswer(p, t)
  {
    NotContained(t, CHECK_MARK);
    NotContainedIgnoringCase(t, Ascii("[x]"));
    NotContainedIgnoringCase(t, Ascii("checked"));
    NotContainedIgnoringCase(t, Ascii("selected"));
  }

  /** A short trimmed ASCII text of choice shape without '['. */
  predicate PlainChoiceText(t: Text) {
    && IsTrimmed(t) && HasChoiceLead(t) && |t| < 7
    && forall k :: 0 <= k < |t| ==> t[k] < 0x80 && AsciiLower(t[k]) != 0x5B
  }

  lemma ExampleTextsPlain()
    ensures PlainChoiceText(CHOICE_A) && PlainChoiceText(CHOICE_B) && PlainChoiceText(CHOICE_C)
  {
  }

  /** A candidate with a short, trimmed, unmarked text of choice shape becomes an
      unmarked choice with the same text. */
  lemma UnmarkedChoice(p: Patterns, el: Element, t: Text)
    requires PlainChoiceText(t)
    requires p.choiceShape(t) && !p.correctWord(t) && !p.answerKey(t)
    ensures FindAnswerChoices(p, [Candidate(el, t)]) == [Choice(el, t, false)]
  {
    TrimKeepsTrimmed(t);
    PlainTextNotMarked(p, t);
    assert [Candidate(el, t)][1..] == [];
  }

  /** The three equal-length candidates "A. 3", "B. 4", "C. 5" all become
      unmarked choices, in order. */
  lemma ExampleChoices(p: Patterns, a: Element, b: Element, c: Element)
    requires forall t :: t in [CHOICE_A, CHOICE_B, CHOICE_C] ==>
      p.choiceShape(t) && !p.correctWord(t) && !p.answerKey(t)
    ensures FindAnswerChoices(p, [Candidate(a, CHOICE_A), Candidate(b, CHOICE_B), Candidate(c, CHOICE_C)])
         == [Choice(a, CHOICE_A, false), Choice(b, CHOICE_B, false), Choice(c, CHOICE_C, false)]
  {
    var ta, tb, tc := CHOICE_A, CHOICE_B, CHOICE_C;
    assert ta in [ta, tb, tc] && tb in [ta, tb, tc] && tc in [ta, tb, tc];
    ExampleTextsPlain();
    UnmarkedChoice(p, a, ta);
    UnmarkedChoice(p, b, tb);
    UnmarkedChoice(p, c, tc);
    var ca, cb, cc := [Candidate(a, ta)], [Candidate(b, tb)], [Candidate(c, tc)];
    FindAnswerChoicesAppend(p, cb, cc);
    FindAnswerChoicesAppend(p, ca, cb + cc);
    assert ca + (cb + cc) == [Candidate(a, ta), Candidate(b, tb), Candidate(c, tc)];
  }

  /** "What is 2+2?" over the choices "A. 3", "B. 4", "C. 5", none marked. The
      container's text content runs the four texts together and ends in "5", so
      it is a question only through the interrogative pattern; given that, the
      question is retained and the first of the equally long choices is chosen. */
  lemma EqualLengthChoicesEndToEnd(p: Patterns, s: State, e: Element, a: Element, b: Element, c: Element)
    requires forall t :: t in [CHOICE_A, CHOICE_B, CHOICE_C] ==>
      p.choiceShape(t) && !p.correctWord(t) && !p.answerKey(t)
    requires p.interrogative(PAGE_TEXT)
    ensures var node := Node(e, PAGE_TEXT, [Candidate(a, CHOICE_A), Candidate(b, CHOICE_B), Candidate(c, CHOICE_C)]);
      var r := AnalyzeElement(p, s, node);
      && |r.questions| == |s.questions| + 1
      && r.questions[|s.questions|].text == PAGE_TEXT
      && r.questions[|s.questions|].correctAnswer == Some(Choice(a, CHOICE_A, false))
  {
    ExampleChoices(p, a, b, c);
    PageTextTrimmed();
    TrimKeepsTrimmed(PAGE_TEXT);
    EqualLengthsPickFirst(a, b, c);
  }

  /** "Question 1: select the correct option" with the single child "[x] Paris",
      as one text content: the child carries the "[x]" marker but matches none of
      the answer-choice shapes, so no choice is found and the question is not
      retained, whatever the question patterns say. */
  lemma BracketedChoiceIsNotAChoice(p: Patterns, s: State, e: Element, x: Element)
    ensures var node := Node(e, BRACKETED_PAGE_TEXT, [Candidate(x, BRACKETED)]);
      AnalyzeElement(p, s, node) == s
  {
    var t := BRACKETED;
    TrimKeepsTrimmed(t);
    var cands := [Candidate(x, t)];
    assert !Qualifies(p, cands[0]);
    assert !AnyQualifies(p, cands[1..]);
  }

}
