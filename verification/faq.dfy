/** The FAQ accordion (`setupFAQAccordion` and the Escape branch of the document
    keydown handler). Question `i` and answer `i` are index-aligned: the DOM pairs
    them as siblings, the model as positions in two arrays. */
module Faq {
  import opened Common

  /** Which answers are displayed after a click on question `i`: every answer is
      closed, then answer `i` is opened if it had been closed. */
  function AfterClick(open: seq<bool>, i: nat): (r: seq<bool>)
    requires i < |open|
    ensures |r| == |open|
    ensures r[i] == !open[i]
    ensures forall j :: 0 <= j < |r| && j != i ==> !r[j]
  {
    seq(|open|, j => j == i && !open[i])
  }

  /** Every answer closed: what Escape leaves, and the state before any click. */
  function AllClosed(n: nat): seq<bool> {
    seq(n, j => false)
  }

  /** A click leaves at most one answer open, whatever was open before. */
  lemma ClickLeavesAtMostOneOpen(open: seq<bool>, i: nat)
    requires i < |open|
    ensures CountTrue(AfterClick(open, i)) <= 1
  {
    var r := AfterClick(open, i);
    assert AtMostOne(r);
    CountTrueAtMostOne(r);
  }

  /** Clicking the same question twice, starting from a closed answer, closes every answer. */
  lemma ClickTwiceClosesAll(open: seq<bool>, i: nat)
    requires i < |open| && !open[i]
    ensures AfterClick(AfterClick(open, i), i) == AllClosed(|open|)
  {
  }

  /** The events the accordion reacts to. */
  datatype FaqEvent =
    | Click(question: nat)
    | QuestionKey(question: nat, key: string)
    | Escape

  /** The answers' state after one event; an event naming no question changes nothing. */
  function Step(open: seq<bool>, e: FaqEvent): seq<bool> {
    match e
    case Click(i) => if i < |open| then AfterClick(open, i) else open
    case QuestionKey(i, key) => if i < |open| && IsActivationKey(key) then AfterClick(open, i) else open
    case Escape => AllClosed(|open|)
  }

  function Run(open: seq<bool>, events: seq<FaqEvent>): seq<bool>
    decreases |events|
  {
    if events == [] then open else Run(Step(open, events[0]), events[1..])
  }

  /** The accordion invariant: from a state with at most one answer open (such as
      the initial all-closed page), any sequence of clicks, keys and Escapes keeps
      at most one answer open, and the number of answers never changes. */
  lemma {:induction false} RunKeepsAtMostOneOpen(open: seq<bool>, events: seq<FaqEvent>)
    requires AtMostOne(open)
    ensures |Run(open, events)| == |open|
    ensures AtMostOne(Run(open, events))
    decreases |events|
  {
    if events != [] {
      var next := Step(open, events[0]);
      assert |next| == |open|;
      assert AtMostOne(next);
      RunKeepsAtMostOneOpen(next, events[1..]);
    }
  }

  /** The accordion on the page: `answerOpen[i]` is "answer i has display block",
      `questionActive[i]` is "question i has the class active". */
  class FaqAccordion {
    const answerOpen: array<bool>
    const questionActive: array<bool>

    ghost predicate Valid()
      reads this
    {
      answerOpen.Length == questionActive.Length && answerOpen != questionActive
    }

    /** `n` question/answer pairs, every answer hidden and no question active. */
    constructor (n: nat)
      ensures Valid() && answerOpen.Length == n
      ensures fresh(answerOpen) && fresh(questionActive)
      ensures answerOpen[..] == AllClosed(n) && questionActive[..] == AllClosed(n)
    {
      answerOpen := new bool[n](j => false);
      questionActive := new bool[n](j => false);
    }

    /** Hide every answer and clear every question's active mark: the loop at the
        start of a click, and the whole of the Escape handler. */
    method CloseAll()
      requires Valid()
      modifies answerOpen, questionActive
      ensures answerOpen[..] == AllClosed(answerOpen.Length)
      ensures questionActive[..] == answerOpen[..]
    {
      var j := 0;
      while j < answerOpen.Length
        invariant 0 <= j <= answerOpen.Length
        invariant forall k :: 0 <= k < j ==> !answerOpen[k] && !questionActive[k]
      {
        answerOpen[j] := false;
        questionActive[j] := false;
        j := j + 1;
      }
    }

    /** A click on question `i`. */
    method Click(i: nat)
      requires Valid() && i < answerOpen.Length
      modifies answerOpen, questionActive
      ensures answerOpen[..] == AfterClick(old(answerOpen[..]), i)
      ensures answerOpen[i] == !old(answerOpen[i])
      ensures questionActive[..] == answerOpen[..]
      ensures AtMostOne(answerOpen[..])
    {
      var wasOpen := answerOpen[i];
      CloseAll();
      if !wasOpen {
        answerOpen[i] := true;
        questionActive[i] := true;
      }
    }

    /** A key pressed on question `i`: Enter and Space click it, other keys do nothing here. */
    method QuestionKeyDown(i: nat, key: string)
      requires Valid() && i < answerOpen.Length
      modifies answerOpen, questionActive
      ensures answerOpen[..] == Step(old(answerOpen[..]), QuestionKey(i, key))
      ensures IsActivationKey(key) ==> questionActive[..] == answerOpen[..]
      ensures !IsActivationKey(key) ==> questionActive[..] == old(questionActive[..])
    {
      if IsActivationKey(key) {
        Click(i);
      }
    }
  }
}
