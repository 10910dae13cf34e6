/** Scroll reveal (`initScrollReveal`): each `.reveal` element gets `visible` the
    first time the intersection observer reports it intersecting, and is then no
    longer observed; without an intersection observer every element is shown at once. */
module ScrollReveal {

  /** One intersection-observer entry: which element, and whether it intersects. */
  datatype Entry = Entry(target: nat, isIntersecting: bool)

  /** Some entry of the batch reports element `i` intersecting. */
  predicate Hit(entries: seq<Entry>, i: nat) {
    Entry(i, true) in entries
  }

  predicate TargetsIn(entries: seq<Entry>, n: nat) {
    forall e :: e in entries ==> e.target < n
  }

  /** The `visible` flags after the observer callback has handled `entries` one by
      one: an element is visible afterwards exactly when it was before or some
      entry reported it intersecting. */
  function Revealed(visible: seq<bool>, entries: seq<Entry>): (r: seq<bool>)
    requires TargetsIn(entries, |visible|)
    ensures |r| == |visible|
    ensures forall i :: 0 <= i < |r| ==> (r[i] <==> visible[i] || Hit(entries, i))
  {
    if entries == [] then visible
    else
      var e := entries[|entries| - 1];
      var before := Revealed(visible, entries[..|entries| - 1]);
      assert forall i :: Hit(entries, i) <==> Hit(entries[..|entries| - 1], i) || e == Entry(i, true) by {
        assert entries == entries[..|entries| - 1] + [e];
      }
      if e.isIntersecting then before[e.target := true] else before
  }

  /** The observed flags after the callback: every element reported intersecting is unobserved. */
  function Unobserved(observed: seq<bool>, entries: seq<Entry>): (r: seq<bool>)
    requires TargetsIn(entries, |observed|)
    ensures |r| == |observed|
    ensures forall i :: 0 <= i < |r| ==> (r[i] <==> observed[i] && !Hit(entries, i))
  {
    if entries == [] then observed
    else
      var e := entries[|entries| - 1];
      var before := Unobserved(observed, entries[..|entries| - 1]);
      assert forall i :: Hit(entries, i) <==> Hit(entries[..|entries| - 1], i) || e == Entry(i, true) by {
        assert entries == entries[..|entries| - 1] + [e];
      }
      if e.isIntersecting then before[e.target := false] else before
  }

  /** Entries that report no intersection change nothing. */
  lemma NonIntersectingNoop(visible: seq<bool>, entries: seq<Entry>)
    requires TargetsIn(entries, |visible|)
    requires forall e :: e in entries ==> !e.isIntersecting
    ensures Revealed(visible, entries) == visible
  {
  }

  /** `visible` is one-way: a later batch never hides an element, and a batch
      seen twice changes nothing the second time. */
  lemma RevealOneShot(visible: seq<bool>, first: seq<Entry>, later: seq<Entry>)
    requires TargetsIn(first, |visible|) && TargetsIn(later, |visible|)
    ensures forall i :: 0 <= i < |visible| && Revealed(visible, first)[i] ==>
              Revealed(Revealed(visible, first), later)[i]
    ensures Revealed(Revealed(visible, first), first) == Revealed(visible, first)
  {
  }

  class Reveal {
    /** The `visible` class of each `.reveal` element. */
    const visible: array<bool>
    /** Whether the observer still watches each element. */
    const observed: array<bool>
    /** An intersection observer was created (there were elements, and the runtime has one). */
    const observerCreated: bool

    ghost predicate Valid()
      reads this
    {
      visible.Length == observed.Length && visible != observed
    }

    /** `initScrollReveal` on elements whose `visible` flags start as `initial`. */
    constructor (initial: seq<bool>, hasIntersectionObserver: bool)
      ensures Valid() && fresh(visible) && fresh(observed)
      ensures observerCreated <==> |initial| > 0 && hasIntersectionObserver
      ensures visible[..] == if |initial| > 0 && !hasIntersectionObserver then seq(|initial|, _ => true) else initial
      ensures observed[..] == seq(|initial|, _ => observerCreated)
    {
      var n := |initial|;
      visible := new bool[n](i requires 0 <= i < n => initial[i]);
      observerCreated := n > 0 && hasIntersectionObserver;
      observed := new bool[n](_ => n > 0 && hasIntersectionObserver);
      new;
      if n > 0 && !hasIntersectionObserver {
        for i := 0 to n
          modifies visible
          invariant forall j :: 0 <= j < i ==> visible[j]
          invariant forall j :: i <= j < n ==> visible[j] == initial[j]
        {
          visible[i] := true;
        }
      }
    }

    /** The observer callback on a batch of entries, handled in order. The
        observer reports only elements it was given. */
    method Notify(entries: seq<Entry>)
      requires Valid() && observerCreated
      requires TargetsIn(entries, visible.Length)
      modifies visible, observed
      ensures Valid()
      ensures visible[..] == Revealed(old(visible[..]), entries)
      ensures observed[..] == Unobserved(old(observed[..]), entries)
    {
      for k := 0 to |entries|
        invariant visible[..] == Revealed(old(visible[..]), entries[..k])
        invariant observed[..] == Unobserved(old(observed[..]), entries[..k])
      {
        var e := entries[k];
        assert entries[..k + 1][..k] == entries[..k];
        if e.isIntersecting {
          visible[e.target] := true;
          observed[e.target] := false;
        }
      }
      assert entries[..|entries|] == entries;
    }
  }
}
