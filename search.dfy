/** `Iterator::find` over a list: the first element satisfying a predicate. */
module Search {
  import opened Wrappers

  /** Position of the first element of `s` that satisfies `p`, or `None` when no element does. */
  function FindIndex<T>(s: seq<T>, p: T -> bool): (r: Option<nat>)
    ensures r.Some? ==> r.value < |s| && p(s[r.value])
    ensures r.Some? ==> forall j :: 0 <= j < r.value ==> !p(s[j])
    ensures r.None? <==> forall j :: 0 <= j < |s| ==> !p(s[j])
  {
    if s == [] then None
    else if p(s[0]) then Some(0)
    else match FindIndex(s[1..], p)
      case None => None
      case Some(k) => Some(k + 1)
  }

  /** The search depends only on the verdicts of the predicate on the elements. */
  lemma {:induction false} FindIndexAgrees<T>(s: seq<T>, p: T -> bool, q: T -> bool)
    requires forall k :: 0 <= k < |s| ==> p(s[k]) == q(s[k])
    ensures FindIndex(s, p) == FindIndex(s, q)
  {
    if s != [] && !p(s[0]) {
      FindIndexAgrees(s[1..], p, q);
    }
  }
}
