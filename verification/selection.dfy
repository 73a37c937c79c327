/** Choosing the answer to highlight among a question's answer choices: the first
    choice marked correct, otherwise the longest one, the earliest on a tie. */
module Selection {

  import opened Wrappers
  import opened JsText

  /** Identity of a DOM element; the model never looks inside one. */
  datatype Element = Element(id: nat)

  /** An answer choice: its element, its trimmed text, and whether that text
      carries a marker of the correct answer. The same element may yield several
      equal choices, one per selector that matched it. */
  datatype Choice = Choice(element: Element, text: Text, isCorrect: bool)

  predicate AnyFlagged(choices: seq<Choice>) {
    exists j :: 0 <= j < |choices| && choices[j].isCorrect
  }

  /** `k` is the first position holding a choice marked correct. */
  predicate IsFirstFlagged(choices: seq<Choice>, k: int) {
    && 0 <= k < |choices|
    && choices[k].isCorrect
    && forall j :: 0 <= j < k ==> !choices[j].isCorrect
  }

  /** `k` holds a choice of maximal text length, and no earlier choice is as long. */
  predicate IsEarliestLongest(choices: seq<Choice>, k: int) {
    && 0 <= k < |choices|
    && (forall j :: 0 <= j < |choices| ==> |choices[j].text| <= |choices[k].text|)
    && (forall j :: 0 <= j < k ==> |choices[j].text| < |choices[k].text|)
  }

  /** The selection rule, stated independently of how it is computed. */
  predicate IsSelection(choices: seq<Choice>, k: int) {
    if AnyFlagged(choices) then IsFirstFlagged(choices, k) else IsEarliestLongest(choices, k)
  }

  /** `choices.find(c => c.isCorrect)`, as the position where the search stops. */
  function FirstFlagged(choices: seq<Choice>): (r: Option<nat>)
    ensures r.None? <==> !AnyFlagged(choices)
    ensures r.Some? ==> IsFirstFlagged(choices, r.value)
  {
    if |choices| == 0 then None
    else if choices[0].isCorrect then Some(0)
    else match FirstFlagged(choices[1..])
      case None => None
      case Some(k) => Some(k + 1)
  }

  /** The callback of the `reduce` in the length heuristic: the current choice
      replaces the running one only when its text is strictly longer. */
  function LongerOf(longest: Choice, current: Choice): Choice {
    if |current.text| > |longest.text| then current else longest
  }

  /** `rest.reduce(LongerOf, longest)`, a left fold. */
  function ReduceLongest(rest: seq<Choice>, longest: Choice): (r: Choice)
    ensures |longest.text| <= |r.text|
    ensures forall j :: 0 <= j < |rest| ==> |rest[j].text| <= |r.text|
    ensures r == longest || exists k :: && 0 <= k < |rest| && r == rest[k]
                                        && |longest.text| < |r.text|
                                        && forall j :: 0 <= j < k ==> |rest[j].text| < |r.text|
  {
    if |rest| == 0 then longest
    else
      var r := ReduceLongest(rest[1..], LongerOf(longest, rest[0]));
      assert r != longest && r == rest[0] ==> |longest.text| < |r.text|;
      assert r != LongerOf(longest, rest[0]) ==>
        (exists k :: 1 <= k < |rest| && r == rest[k]
           && |longest.text| < |r.text| && forall j :: 0 <= j < k ==> |rest[j].text| < |r.text|) by {
        if r != LongerOf(longest, rest[0]) {
          var k' :| && 0 <= k' < |rest[1..]| && r == rest[1..][k']
                    && |LongerOf(longest, rest[0]).text| < |r.text|
                    && forall j :: 0 <= j < k' ==> |rest[1..][j].text| < |r.text|;
          assert r == rest[k' + 1];
        }
      }
      r
  }

  /** `guessCorrectAnswer`: `choices.reduce(LongerOf, choices[0])`. On an empty
      list the initial value `choices[0]` is `undefined`, which is `None` here. */
  function GuessCorrectAnswer(choices: seq<Choice>): (r: Option<Choice>)
    ensures r.None? <==> |choices| == 0
    ensures r.Some? ==> exists k :: IsEarliestLongest(choices, k) && r.value == choices[k]
  {
    if |choices| == 0 then None
    else
      var r := ReduceLongest(choices, choices[0]);
      assert r == choices[0] ==> IsEarliestLongest(choices, 0);
      Some(r)
  }

  /** `identifyCorrectAnswer`: the first choice marked correct if there is one,
      otherwise the length heuristic. */
  function IdentifyCorrectAnswer(choices: seq<Choice>): (r: Option<Choice>)
    ensures r.None? <==> |choices| == 0
    ensures r.Some? ==> r.value in choices
    ensures r.Some? ==> exists k :: IsSelection(choices, k) && r.value == choices[k]
    ensures r.Some? ==> (r.value.isCorrect <==> AnyFlagged(choices))
  {
    match FirstFlagged(choices)
    case Some(k) => Some(choices[k])
    case None => GuessCorrectAnswer(choices)
  }

  /** The selection rule names at most one position. */
  lemma SelectionUnique(choices: seq<Choice>, k1: int, k2: int)
    requires IsSelection(choices, k1) && IsSelection(choices, k2)
    ensures k1 == k2
  {
    if AnyFlagged(choices) {
      assert choices[k1].isCorrect && choices[k2].isCorrect;
    } else {
      assert |choices[k1].text| == |choices[k2].text|;
    }
  }

  /** Every non-empty list of choices has a position the rule selects. */
  lemma SelectionExists(choices: seq<Choice>)
    requires |choices| > 0
    ensures exists k :: IsSelection(choices, k)
  {
    var r := IdentifyCorrectAnswer(choices);
  }

  /** The selected answer is exactly the choice at the position the rule names. */
  lemma IdentifyFollowsRule(choices: seq<Choice>, k: int)
    requires IsSelection(choices, k)
    ensures IdentifyCorrectAnswer(choices) == Some(choices[k])
  {
    var r := IdentifyCorrectAnswer(choices);
    var k' :| IsSelection(choices, k') && r.value == choices[k'];
    SelectionUnique(choices, k, k');
  }

  /** When exactly one choice is marked correct, that choice is selected. */
  lemma OnlyFlaggedChoiceWins(choices: seq<Choice>, k: int)
    requires 0 <= k < |choices| && choices[k].isCorrect
    requires forall j :: 0 <= j < |choices| && j != k ==> !choices[j].isCorrect
    ensures IdentifyCorrectAnswer(choices) == Some(choices[k])
  {
    assert IsSelection(choices, k);
    IdentifyFollowsRule(choices, k);
  }

  /** With no choice marked, the selected answer is at least as long as every
      choice, and strictly longer than every choice before its first occurrence. */
  lemma UnflaggedPicksEarliestLongest(choices: seq<Choice>)
    requires |choices| > 0 && !AnyFlagged(choices)
    ensures var c := IdentifyCorrectAnswer(choices).value;
      && (forall j :: 0 <= j < |choices| ==> |choices[j].text| <= |c.text|)
      && exists k :: 0 <= k < |choices| && choices[k] == c
                     && forall j :: 0 <= j < k ==> |choices[j].text| < |c.text|
  {
    var r := IdentifyCorrectAnswer(choices);
    var k :| IsSelection(choices, k) && r.value == choices[k];
    assert IsEarliestLongest(choices, k);
  }

  /** A second copy of the selected choice, inserted anywhere in the list, leaves
      the selection unchanged: a marked answer stays the first marked one, and an
      unmarked one stays the earliest longest. */
  lemma InsertingSelectedKeepsSelection(choices: seq<Choice>, i: int, a: Choice)
    requires 0 <= i <= |choices|
    requires IdentifyCorrectAnswer(choices) == Some(a)
    ensures IdentifyCorrectAnswer(choices[..i] + [a] + choices[i..]) == Some(a)
  {
    var ys := choices[..i] + [a] + choices[i..];
    var k :| IsSelection(choices, k) && a == choices[k];
    assert forall j :: 0 <= j < i ==> ys[j] == choices[j];
    assert ys[i] == a;
    assert forall j :: i < j < |ys| ==> ys[j] == choices[j - 1];
    var m := if i <= k then i else k;
    assert ys[m] == a;
    if AnyFlagged(choices) {
      assert IsFirstFlagged(ys, m);
    } else {
      assert !AnyFlagged(ys) by {
        forall j | 0 <= j < |ys|
          ensures !ys[j].isCorrect
        {
          if j > i {
            assert ys[j] == choices[j - 1];
          }
        }
      }
      assert IsEarliestLongest(ys, m) by {
        forall j | 0 <= j < |ys|
          ensures |ys[j].text| <= |a.text|
        {
          if j > i {
            assert ys[j] == choices[j - 1];
          }
        }
      }
    }
    IdentifyFollowsRule(ys, m);
  }

  /** A copy of a choice other than the selected one can change the selection.
      Two unmarked choices of equal length: the list `o, i, o` selects `o`, while
      `i, o, i, o`, the same list with another copy of `i` inserted at the front,
      selects `i`. */
  lemma InsertingOtherCanChangeSelection(o: Choice, i: Choice)
    requires !o.isCorrect && !i.isCorrect && |o.text| == |i.text|
    ensures IdentifyCorrectAnswer([o, i, o]) == Some(o)
    ensures IdentifyCorrectAnswer([i, o, i, o]) == Some(i)
  {
    var before, after := [o, i, o], [i, o, i, o];
    assert IsSelection(before, 0);
    IdentifyFollowsRule(before, 0);
    assert IsSelection(after, 0);
    IdentifyFollowsRule(after, 0);
  }

  /** The worked example of equal-length choices "A. 3", "B. 4", "C. 5", none
      marked: the first one wins. */
  lemma EqualLengthsPickFirst(a: Element, b: Element, c: Element)
    ensures IdentifyCorrectAnswer([Choice(a, Ascii("A. 3"), false),
                                   Choice(b, Ascii("B. 4"), false),
                                   Choice(c, Ascii("C. 5"), false)])
         == Some(Choice(a, Ascii("A. 3"), false))
  {
    var cs := [Choice(a, Ascii("A. 3"), false), Choice(b, Ascii("B. 4"), false), Choice(c, Ascii("C. 5"), false)];
    assert IsSelection(cs, 0);
    IdentifyFollowsRule(cs, 0);
  }

}
