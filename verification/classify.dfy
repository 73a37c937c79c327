/** The text classifiers of the detector: is a text a question, an answer choice,
    a choice marked correct. Each classifier in the source is a disjunction of
    regular expressions. The parts that are plain string facts are spelled out;
    the others are left as the uninterpreted predicates of a `Patterns` value. */
module Classify {

  import opened JsText

  /** Truth values of the regular expressions the model does not spell out, each
      applied to a trimmed text. */
  datatype Patterns = Patterns(
    /** begins with what/who/when/where/why/how/which and has a later question mark,
        case-insensitively */
    interrogative: Text -> bool,
    /** the word "question" followed, after optional whitespace, by a digit */
    questionNumber: Text -> bool,
    /** "select ... correct" or "choose ... right" */
    selectCorrect: Text -> bool,
    /** one of the four answer-choice shapes matches ("A. x", "B) x", "1. x",
        "- x", "answer B", ...) */
    choiceShape: Text -> bool,
    /** one of the whole words correct/right/true/yes, case-insensitively */
    correctWord: Text -> bool,
    /** "answer", optional whitespace, "key", case-insensitively */
    answerKey: Text -> bool
  )

  /** The largest text length (exclusive) accepted as an answer choice. */
  const CHOICE_LENGTH_LIMIT := 200

  /** True when `text` is likely a question: it ends in a question mark, or one of
      the other question indicators matches. */
  predicate IsQuestion(p: Patterns, text: Text) {
    || EndsWith(text, QUESTION_MARK)
    || p.interrogative(text)
    || p.questionNumber(text)
    || p.selectCorrect(text)
  }

  /** Every answer-choice shape is anchored at the start of the text and begins
      with a letter A-D (either case; "answer" begins with one too), a decimal
      digit, a bullet or a hyphen. */
  predicate HasChoiceLead(text: Text) {
    && |text| > 0
    && var u := text[0];
       || (0x41 <= u <= 0x44) || (0x61 <= u <= 0x64)
       || (0x30 <= u <= 0x39)
       || u == BULLET || u == HYPHEN
  }

  /** True when `text` is likely an answer choice: one of the shapes matches and
      the text is shorter than 200 code units. */
  predicate IsLikelyAnswerChoice(p: Patterns, text: Text) {
    HasChoiceLead(text) && p.choiceShape(text) && |text| < CHOICE_LENGTH_LIMIT
  }

  /** True when `text` carries a marker of the correct choice. */
  predicate IsLikelyCorrectAnswer(p: Patterns, text: Text) {
    || p.correctWord(text)
    || Contains(text, [CHECK_MARK])
    || ContainsIgnoringCase(text, Ascii("[x]"))
    || ContainsIgnoringCase(text, Ascii("checked"))
    || ContainsIgnoringCase(text, Ascii("selected"))
    || p.answerKey(text)
  }

  /** Any text that ends in a question mark is a question, whatever the other
      indicators say. */
  lemma QuestionMarkSuffices(p: Patterns, text: Text)
    requires EndsWith(text, QUESTION_MARK)
    ensures IsQuestion(p, text)
  {
  }

  /** A text without a final question mark is a question exactly when one of the
      other indicators holds. */
  lemma QuestionWithoutMark(p: Patterns, text: Text)
    requires !EndsWith(text, QUESTION_MARK)
    ensures IsQuestion(p, text) <==> p.interrogative(text) || p.questionNumber(text) || p.selectCorrect(text)
  {
  }

  /** No text of 200 or more code units is an answer choice, whatever shape it has. */
  lemma LongTextIsNeverChoice(p: Patterns, text: Text)
    requires |text| >= CHOICE_LENGTH_LIMIT
    ensures !IsLikelyAnswerChoice(p, text)
  {
  }

  /** The "Unknown" sentinel cannot be an answer choice: it starts with 'U'. */
  lemma UnknownIsNeverChoice(p: Patterns)
    ensures !IsLikelyAnswerChoice(p, UNKNOWN)
  {
  }

  /** "[x]" in either case marks a choice as correct. */
  lemma BracketedXMarksCorrect(p: Patterns, text: Text, i: int)
    requires OccursAtIgnoringCase(text, i, Ascii("[x]"))
    ensures IsLikelyCorrectAnswer(p, text)
  {
    ContainsIgnoringCaseMeans(text, Ascii("[x]"));
  }

}
