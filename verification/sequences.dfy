/** Order-preserving selections from a sequence: what `Array.prototype.filter`
    returns, up to which elements it keeps. */
module Sequences {

  /** `a` is `b` with some elements left out, in the same order. */
  predicate Subsequence<T(==)>(a: seq<T>, b: seq<T>) {
    if b == [] then a == []
    else (a != [] && a[0] == b[0] && Subsequence(a[1..], b[1..])) || Subsequence(a, b[1..])
  }

  /** An element of a subsequence is an element of the sequence. */
  lemma {:induction false} SubsequenceIn<T>(a: seq<T>, b: seq<T>, k: nat) returns (j: nat)
    requires Subsequence(a, b) && k < |a|
    ensures j < |b| && a[k] == b[j]
    decreases |b|
  {
    if a != [] && a[0] == b[0] && Subsequence(a[1..], b[1..]) {
      if k == 0 {
        j := 0;
      } else {
        var j' := SubsequenceIn(a[1..], b[1..], k - 1);
        j := j' + 1;
      }
    } else {
      var j' := SubsequenceIn(a, b[1..], k);
      j := j' + 1;
    }
  }

  /** One step of a filter by `keep`: when the rest of the list keeps each
      element `keep` accepts as often as it occurs, so does the whole list. */
  lemma FilterCountsCons<T>(keep: T -> bool, xs: seq<T>, rest: seq<T>, r: seq<T>)
    requires xs != []
    requires forall x :: multiset(rest)[x] == (if keep(x) then multiset(xs[1..])[x] else 0)
    requires r == if keep(xs[0]) then [xs[0]] + rest else rest
    ensures forall x :: multiset(r)[x] == (if keep(x) then multiset(xs)[x] else 0)
  {
    assert xs == [xs[0]] + xs[1..];
    assert multiset(xs) == multiset([xs[0]]) + multiset(xs[1..]);
    if keep(xs[0]) {
      assert multiset([xs[0]] + rest) == multiset([xs[0]]) + multiset(rest);
    }
  }
}
