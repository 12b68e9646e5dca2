/**
  Byte ranges inside the register page. A span is the half-open interval
  [start, start + len). Both the register table and the writer's store list
  are laid out as a sequence of spans; the lemma here turns "each span ends
  before the next one starts" into "every earlier span ends before every
  later one starts", which is what no-overlap and read-back arguments need.
 */
module Spans {

  datatype Span = Span(start: nat, len: nat) {

    function End(): nat {
      start + len
    }

    predicate Contains(k: int) {
      start <= k < End()
    }
  }

  /** `a` lies wholly before `b`. */
  predicate Precedes(a: Span, b: Span) {
    a.End() <= b.start
  }

  /** Neighbours do not overlap and appear in increasing address order. */
  predicate Ascending(s: seq<Span>) {
    forall i :: 0 <= i < |s| - 1 ==> Precedes(s[i], s[i + 1])
  }

  /** Every pair, not only neighbours, is ordered and disjoint. */
  predicate Sorted(s: seq<Span>) {
    forall i, j :: 0 <= i < j < |s| ==> Precedes(s[i], s[j])
  }

  lemma {:induction false} AscendingPair(s: seq<Span>, i: nat, j: nat)
    requires Ascending(s)
    requires i < j < |s|
    ensures Precedes(s[i], s[j])
    decreases j - i
  {
    if j > i + 1 {
      AscendingPair(s, i, j - 1);
      assert Precedes(s[j - 1], s[j]);
    }
  }

  /** Neighbour ordering is enough for pairwise disjointness. */
  lemma AscendingIsSorted(s: seq<Span>)
    requires Ascending(s)
    ensures Sorted(s)
  {
    forall i, j | 0 <= i < j < |s|
      ensures Precedes(s[i], s[j])
    {
      AscendingPair(s, i, j);
    }
  }
}
