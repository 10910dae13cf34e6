/** The FAQ accordion (`initFAQ`): clicking an item's question closes every item,
    then reopens the clicked one only if it was closed before the click. */
module FaqAccordion {
  import opened Flags

  /** The `open` flags after a click on the question of item `k`. */
  function AfterClick(open: seq<bool>, k: nat): (r: seq<bool>)
    requires k < |open|
    ensures |r| == |open|
    ensures r[k] == !open[k]
    ensures forall i :: 0 <= i < |r| && i != k ==> !r[i]
  {
    seq(|open|, i requires 0 <= i < |open| => i == k && !open[k])
  }

  /** Whatever the page started with, after any click at most one item is open:
      the clicked one if it had been closed, none if it had been open. */
  lemma ClickLeavesAtMostOne(open: seq<bool>, k: nat)
    requires k < |open|
    ensures AtMostOne(AfterClick(open, k))
    ensures open[k] ==> NoneSet(AfterClick(open, k))
    ensures !open[k] ==> OnlyAt(AfterClick(open, k), k)
    ensures CountTrue(AfterClick(open, k)) == if open[k] then 0 else 1
  {
    var r := AfterClick(open, k);
    if !open[k] {
      CountOnlyAt(r, k);
    }
    AtMostOneIffCount(r);
  }

  /** Clicking the same question twice closes every other item and leaves the
      clicked one as it was before the first click. */
  lemma ClickTwice(open: seq<bool>, k: nat)
    requires k < |open|
    ensures open[k] ==> OnlyAt(AfterClick(AfterClick(open, k), k), k)
    ensures !open[k] ==> NoneSet(AfterClick(AfterClick(open, k), k))
    ensures CountTrue(AfterClick(AfterClick(open, k), k)) == if open[k] then 1 else 0
  {
    if open[k] {
      CountOnlyAt(AfterClick(AfterClick(open, k), k), k);
    }
  }

  /** Clicking question `j` and then another question `k` leaves only `k` open. */
  lemma SecondItemTakesOver(open: seq<bool>, j: nat, k: nat)
    requires j < |open| && k < |open| && j != k
    ensures OnlyAt(AfterClick(AfterClick(open, j), k), k)
    ensures CountTrue(AfterClick(AfterClick(open, j), k)) == 1
  {
    CountOnlyAt(AfterClick(AfterClick(open, j), k), k);
  }

  class Accordion {
    /** The `open` class of each `.faq-item`. */
    const open: array<bool>
    /** Whether the item has a `.faq-question` button (only those get a click handler). */
    const hasQuestion: seq<bool>

    ghost predicate Valid()
      reads this
    {
      |hasQuestion| == open.Length
    }

    constructor (initial: seq<bool>, questions: seq<bool>)
      requires |questions| == |initial|
      ensures Valid() && fresh(open)
      ensures open[..] == initial && hasQuestion == questions
    {
      open := new bool[|initial|](i requires 0 <= i < |initial| => initial[i]);
      hasQuestion := questions;
    }

    /** A click on the question of item `k`; items without a question have no handler. */
    method Click(k: nat)
      requires Valid()
      modifies open
      ensures Valid()
      ensures k < open.Length && hasQuestion[k] ==> open[..] == AfterClick(old(open[..]), k)
      ensures !(k < open.Length && hasQuestion[k]) ==> open[..] == old(open[..])
      ensures AtMostOne(open[..]) || open[..] == old(open[..])
    {
      if k < open.Length && hasQuestion[k] {
        var wasOpen := open[k];
        for i := 0 to open.Length
          invariant forall j :: 0 <= j < i ==> !open[j]
          invariant forall j :: i <= j < open.Length ==> open[j] == old(open[j])
        {
          open[i] := false;
        }
        if !wasOpen {
          open[k] := true;
        }
        assert open[..] == AfterClick(old(open[..]), k);
        ClickLeavesAtMostOne(old(open[..]), k);
      }
    }
  }
}
