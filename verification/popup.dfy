/** The pure part of the popup's `displayResults`: the counts it shows, the
    placeholder-or-list decision and the text of each rendered item. */
module Popup {

  import opened Wrappers
  import opened JsText
  import opened Classify
  import opened Detector

  /** Question labels show at most this many code units. */
  const LABEL_LIMIT: nat := 100

  /** One rendered list item: its 1-based number, the question label and the
      answer text. */
  datatype Item = Item(number: nat, text: Text, answer: Text)

  /** The popup's visible state. `placeholderShown` is the display of the
      "no questions" element; `items` is the content of the question list. */
  datatype View = View(questionCount: nat, highlightCount: nat, placeholderShown: bool, items: seq<Item>)

  function Min(a: nat, b: nat): nat {
    if a <= b then a else b
  }

  /** The label of a question: `q.substring(0, 100)` followed by "..." when `q`
      is longer than 100 code units. */
  function TruncateLabel(q: Text): (caption: Text)
    ensures |q| <= LABEL_LIMIT ==> caption == q
    ensures |q| > LABEL_LIMIT ==> caption == q[..LABEL_LIMIT] + ELLIPSIS && |caption| == LABEL_LIMIT + |ELLIPSIS|
    ensures caption[..Min(LABEL_LIMIT, |q|)] == q[..Min(LABEL_LIMIT, |q|)]
    ensures |caption| <= LABEL_LIMIT + |ELLIPSIS|
  {
    q[..Min(LABEL_LIMIT, |q|)] + (if |q| > LABEL_LIMIT then ELLIPSIS else [])
  }

  /** Two questions get the same label exactly when they are equal, or both are
      truncated and agree on their first 100 code units. */
  lemma LabelsCollide(q1: Text, q2: Text)
    ensures TruncateLabel(q1) == TruncateLabel(q2) <==>
      || q1 == q2
      || (|q1| > LABEL_LIMIT && |q2| > LABEL_LIMIT && q1[..LABEL_LIMIT] == q2[..LABEL_LIMIT])
  {
    var l1, l2 := TruncateLabel(q1), TruncateLabel(q2);
    if l1 == l2 && |q1| > LABEL_LIMIT && |q2| > LABEL_LIMIT {
      assert l1[..LABEL_LIMIT] == q1[..LABEL_LIMIT];
      assert l2[..LABEL_LIMIT] == q2[..LABEL_LIMIT];
    }
  }

  /** The number of entries whose answer is not the "Unknown" sentinel. */
  function HighlightCount(entries: seq<Entry>): (n: nat)
    ensures n <= |entries|
    ensures n == |entries| <==> forall i :: 0 <= i < |entries| ==> entries[i].correctAnswer != UNKNOWN
    ensures n == 0 <==> forall i :: 0 <= i < |entries| ==> entries[i].correctAnswer == UNKNOWN
  {
    if |entries| == 0 then 0
    else
      var rest := HighlightCount(entries[1..]);
      assert forall i :: 1 <= i < |entries| ==> entries[i] == entries[1..][i - 1];
      (if entries[0].correctAnswer != UNKNOWN then 1 else 0) + rest
  }

  /** Counting a concatenation adds the counts. */
  lemma {:induction false} HighlightCountAppend(a: seq<Entry>, b: seq<Entry>)
    ensures HighlightCount(a + b) == HighlightCount(a) + HighlightCount(b)
  {
    if |a| > 0 {
      assert (a + b)[0] == a[0];
      assert (a + b)[1..] == a[1..] + b;
      HighlightCountAppend(a[1..], b);
    } else {
      assert a + b == b;
    }
  }

  /** The items rendered for a list of entries, numbered from 1. */
  function RenderItems(entries: seq<Entry>): (items: seq<Item>)
    ensures |items| == |entries|
    ensures forall i :: 0 <= i < |entries| ==>
      items[i].number == i + 1 && items[i].answer == entries[i].correctAnswer
      && items[i].text == TruncateLabel(entries[i].question)
  {
    seq(|entries|, i requires 0 <= i < |entries| =>
      Item(i + 1, TruncateLabel(entries[i].question), entries[i].correctAnswer))
  }

  /** `displayResults`: set both counts; for a non-empty list hide the placeholder
      and replace the list; for an empty one show the placeholder and leave the
      list element as it was. */
  function DisplayResults(v: View, results: Results): (r: View)
    ensures r.questionCount == results.totalQuestions
    ensures r.highlightCount == HighlightCount(results.questions) <= |results.questions|
    ensures r.placeholderShown <==> |results.questions| == 0
    ensures |results.questions| > 0 ==> r.items == RenderItems(results.questions)
    ensures |results.questions| == 0 ==> r.items == v.items
  {
    var count := HighlightCount(results.questions);
    if |results.questions| > 0 then
      View(results.totalQuestions, count, false, RenderItems(results.questions))
    else
      v.(questionCount := results.totalQuestions, highlightCount := count, placeholderShown := true)
  }

  /** `updateResults` once the response arrived: an absent response leaves the
      popup as it was. */
  function Refresh(v: View, response: Option<Results>): (r: View)
    ensures response.None? ==> r == v
    ensures response.Some? ==> (r.placeholderShown <==> |response.value.questions| == 0)
  {
    match response
    case None => v
    case Some(results) => DisplayResults(v, results)
  }

  /** An empty report after a non-empty one shows the placeholder while the old
      items stay in the list element: the list is only cleared when refilled. */
  lemma EmptyReportKeepsOldItems(v: View, first: Results, second: Results)
    requires |first.questions| > 0 && |second.questions| == 0
    ensures var shown := DisplayResults(DisplayResults(v, first), second);
      shown.placeholderShown && |shown.items| == |first.questions| > 0
  {
  }

  /** The popup fed by a valid detector: the question count is the number of
      retained questions, every one of them counts as highlighted, and the items
      follow the questions in order. */
  lemma DisplayDetectorResults(p: Patterns, s: State, v: View)
    requires Valid(p, s)
    ensures var shown := DisplayResults(v, GetResults(s));
      && shown.questionCount == |s.questions|
      && shown.highlightCount == |s.questions|
      && (shown.placeholderShown <==> |s.questions| == 0)
      && (|s.questions| > 0 ==> forall i :: 0 <= i < |s.questions| ==>
            shown.items[i].number == i + 1
            && shown.items[i].text == TruncateLabel(s.questions[i].text)
            && shown.items[i].answer == s.questions[i].correctAnswer.value.text)
  {
    ResultsNeverUnknown(p, s);
  }

  /** Before the detector exists the listener answers with an empty report, and
      the popup shows its placeholder with both counts at zero. */
  lemma NoDetectorShowsPlaceholder(v: View)
    ensures var shown := DisplayResults(v, RespondToGetResults(None));
      shown.placeholderShown && shown.questionCount == 0 && shown.highlightCount == 0
  {
  }

}
