/** Class flags over a list of page elements (carousel dots, FAQ items, nav links),
    seen as a sequence of booleans, one per element. */
module Flags {

  /** How many elements carry the flag. */
  function CountTrue(s: seq<bool>): (n: nat)
    ensures n <= |s|
    ensures n == 0 <==> forall i :: 0 <= i < |s| ==> !s[i]
    ensures n == |s| <==> forall i :: 0 <= i < |s| ==> s[i]
  {
    if s == [] then 0
    else
      assert forall i :: 1 <= i < |s| ==> s[i] == s[1..][i - 1];
      (if s[0] then 1 else 0) + CountTrue(s[1..])
  }

  /** No element carries the flag. */
  predicate NoneSet(s: seq<bool>) {
    forall i :: 0 <= i < |s| ==> !s[i]
  }

  /** The flag is set on the element at `k` and on no other element
      (on none at all when `k` is not an index of `s`). */
  predicate OnlyAt(s: seq<bool>, k: int) {
    forall i :: 0 <= i < |s| ==> s[i] == (i == k)
  }

  /** A one-hot list has exactly one flag set; a list flagged "only at" a
      position outside it has none. */
  lemma {:induction false} CountOnlyAt(s: seq<bool>, k: int)
    requires OnlyAt(s, k)
    ensures CountTrue(s) == if 0 <= k < |s| then 1 else 0
  {
    if s != [] {
      assert OnlyAt(s[1..], k - 1) by {
        forall i | 0 <= i < |s[1..]| ensures s[1..][i] == (i == k - 1) {
          assert s[1..][i] == s[i + 1];
        }
      }
      CountOnlyAt(s[1..], k - 1);
    }
  }

  /** At most one element carries the flag. */
  predicate AtMostOne(s: seq<bool>) {
    forall i, j :: 0 <= i < |s| && 0 <= j < |s| && s[i] && s[j] ==> i == j
  }

  /** "At most one flag set" read as a pairwise statement and read as a count agree. */
  lemma {:induction false} AtMostOneIffCount(s: seq<bool>)
    ensures AtMostOne(s) <==> CountTrue(s) <= 1
  {
    if s != [] {
      var t := s[1..];
      AtMostOneIffCount(t);
      assert forall i :: 1 <= i < |s| ==> s[i] == t[i - 1];
      if s[0] {
        if AtMostOne(s) {
          assert forall i :: 0 <= i < |t| ==> !t[i] by {
            forall i | 0 <= i < |t| ensures !t[i] {
              assert s[i + 1] == t[i];
              assert s[i + 1] ==> 0 == i + 1;
            }
          }
        }
      } else {
        if AtMostOne(t) {
          forall i, j | 0 <= i < |s| && 0 <= j < |s| && s[i] && s[j] ensures i == j {
            assert i > 0 && j > 0;
            assert t[i - 1] && t[j - 1];
          }
        }
        if AtMostOne(s) {
          forall i, j | 0 <= i < |t| && 0 <= j < |t| && t[i] && t[j] ensures i == j {
            assert s[i + 1] && s[j + 1];
          }
        }
      }
    }
  }
}
