/**
 * Option stands for the Java `null` that the lookup and search methods
 * return; FirstIndex is the first-match loop those methods share.
 */
module Wrappers {

  datatype Option<+T> = None | Some(value: T)

  /** The index of the first element, in sequence order, that satisfies `p`. */
  function FirstIndex<T>(xs: seq<T>, p: T -> bool): (r: Option<nat>)
    ensures r.Some? ==> r.value < |xs| && p(xs[r.value])
    ensures r.Some? ==> forall j :: 0 <= j < r.value ==> !p(xs[j])
    ensures r.None? <==> forall j :: 0 <= j < |xs| ==> !p(xs[j])
  {
    if |xs| == 0 then None
    else if p(xs[0]) then Some(0)
    else match FirstIndex(xs[1..], p)
      case None => None
      case Some(i) => Some(i + 1)
  }

  /** Where a search loop stops: the first index satisfying `p` is the one FirstIndex returns. */
  lemma {:induction false} FirstIndexAt<T>(xs: seq<T>, p: T -> bool, i: nat)
    requires i < |xs| && p(xs[i])
    requires forall j :: 0 <= j < i ==> !p(xs[j])
    ensures FirstIndex(xs, p) == Some(i)
  {
    if i > 0 {
      FirstIndexAt(xs[1..], p, i - 1);
    }
  }

  /** Appending an element changes the search only when no earlier element matched. */
  lemma FirstIndexAppend<T>(xs: seq<T>, x: T, p: T -> bool)
    ensures FirstIndex(xs + [x], p) == if FirstIndex(xs, p).Some? then FirstIndex(xs, p)
                                       else if p(x) then Some(|xs|) else None
  {
    var ys := xs + [x];
    assert forall j :: 0 <= j < |xs| ==> ys[j] == xs[j];
    match FirstIndex(xs, p)
    case Some(i) =>
      FirstIndexAt(ys, p, i);
    case None =>
      if p(x) {
        FirstIndexAt(ys, p, |xs|);
      }
  }
}
