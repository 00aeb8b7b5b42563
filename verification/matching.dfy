/** Case-insensitive literal search over normalised text: what the
    escaped, case-insensitive regular expressions of the widgets compute.
    `FindFrom` is one call of `exec` on a global expression whose
    `lastIndex` is `from`; `MatchesFrom` is the sequence of positions a loop
    of such calls visits. */
module Matching {
  import opened Outcomes
  import opened Unicode
  import opened RegexEscape

  /** The highlight `p` matches the text `n` at index `i`, ignoring case. */
  predicate MatchAt(n: string, p: string, i: nat) {
    i + |p| <= |n| && FoldEq(n[i..i + |p|], p)
  }

  /** A literal pattern of atoms matches `n` at `i` under the `i` flag. */
  predicate AtomsMatchAt(atoms: seq<Atom>, n: string, i: nat) {
    i + |atoms| <= |n| &&
    forall k :: 0 <= k < |atoms| ==> atoms[k].Lit? && Upper(n[i + k]) == Upper(atoms[k].c)
  }

  /** The regular expression compiled from the escaped highlight matches
      exactly where the highlight occurs literally, up to case. */
  lemma EscapedPatternMatches(n: string, p: string, i: nat)
    ensures AtomsMatchAt(Atoms(Escape(p)), n, i) <==> MatchAt(n, p, i)
  {
    EscapedIsLiteral(p);
    if i + |p| <= |n| {
      FoldEqPointwise(n[i..i + |p|], p);
    }
    if MatchAt(n, p, i) {
      forall k | 0 <= k < |p|
        ensures Upper(n[i + k]) == Upper(p[k])
      {
        assert n[i..i + |p|][k] == n[i + k];
      }
    }
    if AtomsMatchAt(Atoms(Escape(p)), n, i) {
      forall k | 0 <= k < |p|
        ensures Upper(n[i..i + |p|][k]) == Upper(p[k])
      {
        assert n[i..i + |p|][k] == n[i + k];
      }
    }
  }

  /** The leftmost match at or after `from`, or `None`. */
  function FindFrom(n: string, p: string, from: nat): (r: Option<nat>)
    ensures r.Some? ==> from <= r.value && MatchAt(n, p, r.value)
    ensures forall j: nat :: from <= j && (r.None? || j < r.value) ==> !MatchAt(n, p, j)
    decreases |n| - from
  {
    if from + |p| > |n| then None
    else if MatchAt(n, p, from) then Some(from)
    else FindFrom(n, p, from + 1)
  }

  /** Positions in increasing order, each at least `len` after the one
      before, the first at or after `from`, all ending within `bound`. */
  predicate Spaced(ms: seq<nat>, len: nat, from: nat, bound: nat) {
    && (forall k :: 0 <= k < |ms| ==> from <= ms[k] && ms[k] + len <= bound)
    && (forall a, b :: 0 <= a < b < |ms| ==> ms[a] + len <= ms[b])
  }

  /** All left-to-right, non-overlapping matches from `from` on: each search
      resumes where the previous match ended. Every position found is a
      match, and the matches are increasing and do not overlap. */
  function MatchesFrom(n: string, p: string, from: nat): (r: seq<nat>)
    requires p != []
    ensures forall k :: 0 <= k < |r| ==> MatchAt(n, p, r[k])
    ensures Spaced(r, |p|, from, |n|)
    decreases |n| - from
  {
    match FindFrom(n, p, from)
    case None => []
    case Some(i) =>
      var rest := MatchesFrom(n, p, i + |p|);
      assert forall k :: 0 < k < |[i] + rest| ==> ([i] + rest)[k] == rest[k - 1];
      assert forall b :: 0 < b < |[i] + rest| ==> i + |p| <= ([i] + rest)[b];
      [i] + rest
  }

  /** A scan that finds a match at `i` resumes at the end of it. */
  lemma MatchesFromCons(n: string, p: string, from: nat, i: nat)
    requires p != [] && FindFrom(n, p, from) == Some(i)
    ensures MatchesFrom(n, p, from) == [i] + MatchesFrom(n, p, i + |p|)
  {
  }

  /** No match is skipped: every position where the highlight matches lies
      inside one of the matches found, so the scan is the greedy leftmost
      one. */
  lemma {:induction false} MatchesCover(n: string, p: string, from: nat, j: nat) returns (k: nat)
    requires p != [] && from <= j && MatchAt(n, p, j)
    ensures k < |MatchesFrom(n, p, from)|
    ensures MatchesFrom(n, p, from)[k] <= j < MatchesFrom(n, p, from)[k] + |p|
    decreases |n| - from
  {
    var r := MatchesFrom(n, p, from);
    var i := FindFrom(n, p, from).value;
    var rest := MatchesFrom(n, p, i + |p|);
    assert r == [i] + rest;
    if j < i + |p| {
      k := 0;
    } else {
      var k' := MatchesCover(n, p, i + |p|, j);
      k := k' + 1;
      assert r[k] == rest[k'];
    }
  }

  /** All matches of a non-empty highlight in the whole text. */
  function Matches(n: string, p: string): (r: seq<nat>)
    requires p != []
    ensures Spaced(r, |p|, 0, |n|)
    ensures r == [] <==> FindFrom(n, p, 0).None?
  {
    MatchesFrom(n, p, 0)
  }
}
