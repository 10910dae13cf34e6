/** Collapsible menu sections (`initMenuSections`): each section's header flips that
    section's `collapsed` flag, independently of every other section. */
module MenuSections {

  /** The `collapsed` flags after a click on the header of section `k`. */
  function Toggled(collapsed: seq<bool>, k: nat): (r: seq<bool>)
    requires k < |collapsed|
    ensures |r| == |collapsed|
    ensures r[k] == !collapsed[k]
    ensures forall i :: 0 <= i < |r| && i != k ==> r[i] == collapsed[i]
  {
    collapsed[k := !collapsed[k]]
  }

  /** Two clicks on the same header restore the page. */
  lemma ToggleTwice(collapsed: seq<bool>, k: nat)
    requires k < |collapsed|
    ensures Toggled(Toggled(collapsed, k), k) == collapsed
  {
  }

  /** Sections do not interact: clicks on two headers give the same page in either order. */
  lemma TogglesCommute(collapsed: seq<bool>, j: nat, k: nat)
    requires j < |collapsed| && k < |collapsed|
    ensures Toggled(Toggled(collapsed, j), k) == Toggled(Toggled(collapsed, k), j)
  {
  }

  class Sections {
    /** The `collapsed` class of each `.menu-section`. */
    const collapsed: array<bool>
    /** Whether the section has a `.menu-section-header` (only those get a click handler). */
    const hasHeader: seq<bool>

    ghost predicate Valid()
      reads this
    {
      |hasHeader| == collapsed.Length
    }

    constructor (initial: seq<bool>, headers: seq<bool>)
      requires |headers| == |initial|
      ensures Valid() && fresh(collapsed)
      ensures collapsed[..] == initial && hasHeader == headers
    {
      collapsed := new bool[|initial|](i requires 0 <= i < |initial| => initial[i]);
      hasHeader := headers;
    }

    /** A click on the header of section `k`. */
    method HeaderClick(k: nat)
      requires Valid()
      modifies collapsed
      ensures Valid()
      ensures k < collapsed.Length && hasHeader[k] ==> collapsed[..] == Toggled(old(collapsed[..]), k)
      ensures !(k < collapsed.Length && hasHeader[k]) ==> collapsed[..] == old(collapsed[..])
    {
      if k < collapsed.Length && hasHeader[k] {
        collapsed[k] := !collapsed[k];
      }
    }
  }
}
