/** The JavaScript string operations the widgets rely on, over `seq<char>`:
    `indexOf`, `includes`, `split` and `join` with a string separator,
    `replace` with a string pattern (first occurrence only), `substr`, and
    a global single-character `replace`. */
module Strings {
  import opened Outcomes

  /** `pat` occurs in `s` starting at index `k`. */
  predicate Occurs(s: string, pat: string, k: nat) {
    k + |pat| <= |s| && s[k..k + |pat|] == pat
  }

  /** `s.includes(pat)`. */
  predicate Contains(s: string, pat: string) {
    exists k: nat | k <= |s| :: Occurs(s, pat, k)
  }

  /** `s.indexOf(pat, from)`: the first occurrence at or after `from`. */
  function IndexFrom(s: string, pat: string, from: nat): (r: Option<nat>)
    ensures r.Some? ==> from <= r.value && Occurs(s, pat, r.value)
    ensures forall k: nat :: from <= k && (r.None? || k < r.value) ==> !Occurs(s, pat, k)
    decreases |s| - from
  {
    if from + |pat| > |s| then None
    else if Occurs(s, pat, from) then Some(from)
    else IndexFrom(s, pat, from + 1)
  }

  /** `s.indexOf(pat)`. */
  function IndexOf(s: string, pat: string): (r: Option<nat>)
    ensures r.Some? ==> Occurs(s, pat, r.value)
    ensures r.Some? ==> forall k: nat :: k < r.value ==> !Occurs(s, pat, k)
    ensures r.None? <==> !Contains(s, pat)
  {
    IndexFrom(s, pat, 0)
  }

  /** The first occurrence is the one with no occurrence before it. */
  lemma IndexOfAt(s: string, pat: string, k: nat)
    requires Occurs(s, pat, k)
    requires forall j: nat :: j < k ==> !Occurs(s, pat, j)
    ensures IndexOf(s, pat) == Some(k)
  {
  }

  /** `s.split(sep)` for a non-empty separator: the pieces between the
      left-to-right, non-overlapping occurrences of `sep`. */
  function Split(s: string, sep: string): (r: seq<string>)
    requires sep != []
    ensures |r| >= 1
    decreases |s|
  {
    match IndexOf(s, sep)
    case None => [s]
    case Some(k) => [s[..k]] + Split(s[k + |sep|..], sep)
  }

  /** `xs.join(sep)`; the empty list joins to the empty string. */
  function Join(xs: seq<string>, sep: string): string {
    if xs == [] then []
    else if |xs| == 1 then xs[0]
    else xs[0] + sep + Join(xs[1..], sep)
  }

  /** `s.replace(pat, rep)` with a string pattern: only the first occurrence
      is replaced; an empty pattern matches at index 0. */
  function Replace(s: string, pat: string, rep: string): (r: string)
    ensures !Contains(s, pat) ==> r == s
  {
    match IndexOf(s, pat)
    case None => s
    case Some(k) => s[..k] + rep + s[k + |pat|..]
  }

  /** `s.substr(start, len)` for a non-negative start: clipped to the end
      of `s`, empty when `start` is past it. */
  function Substr(s: string, start: nat, len: nat): (r: string)
    ensures start + len <= |s| ==> r == s[start..start + len]
    ensures |r| <= len
  {
    if start >= |s| then []
    else if start + len <= |s| then s[start..start + len]
    else s[start..]
  }

  /** `s.replace(/c/g, rep)`: every `c` becomes `rep`. */
  function ReplaceChar(s: string, c: char, rep: string): (r: string)
    ensures c !in rep ==> c !in r
    ensures c !in s ==> r == s
  {
    if s == [] then []
    else (if s[0] == c then rep else [s[0]]) + ReplaceChar(s[1..], c, rep)
  }

  /** A global character replacement works piece by piece. */
  lemma {:induction false} ReplaceCharConcat(a: string, b: string, c: char, rep: string)
    ensures ReplaceChar(a + b, c, rep) == ReplaceChar(a, c, rep) + ReplaceChar(b, c, rep)
  {
    if a == [] {
      assert a + b == b;
    } else {
      assert (a + b)[1..] == a[1..] + b;
      ReplaceCharConcat(a[1..], b, c, rep);
    }
  }

  /** Splitting and re-joining on the same separator gives back the string. */
  lemma {:induction false} JoinSplit(s: string, sep: string)
    requires sep != []
    ensures Join(Split(s, sep), sep) == s
    decreases |s|
  {
    match IndexOf(s, sep)
    case None =>
    case Some(k) =>
      var rest := s[k + |sep|..];
      var pieces := Split(rest, sep);
      assert Split(s, sep) == [s[..k]] + pieces;
      assert Join(pieces, sep) == rest by { JoinSplit(rest, sep); }
      JoinCons(s[..k], pieces, sep);
      assert s == s[..k] + sep + rest by { assert s[k..k + |sep|] == sep; }
  }

  lemma JoinCons(x: string, xs: seq<string>, sep: string)
    requires xs != []
    ensures Join([x] + xs, sep) == x + sep + Join(xs, sep)
  {
    assert ([x] + xs)[1..] == xs;
  }

  /** Joining one more element appends the separator and the element. */
  lemma {:induction false} JoinAppend(xs: seq<string>, d: string, sep: string)
    requires xs != []
    ensures Join(xs + [d], sep) == Join(xs, sep) + sep + d
  {
    if |xs| == 1 {
      assert xs + [d] == [xs[0], d];
      assert [xs[0], d][1..] == [d];
    } else {
      assert (xs + [d])[1..] == xs[1..] + [d];
      JoinAppend(xs[1..], d, sep);
    }
  }

  /** A string free of `sep` is not split. */
  lemma SplitWithout(s: string, sep: string)
    requires sep != [] && !Contains(s, sep)
    ensures Split(s, sep) == [s]
  {
  }

  /** No piece of a split contains the separator. */
  lemma {:induction false} SplitPiecesFree(s: string, sep: string)
    requires sep != []
    ensures forall i :: 0 <= i < |Split(s, sep)| ==> !Contains(Split(s, sep)[i], sep)
    decreases |s|
  {
    match IndexOf(s, sep)
    case None =>
    case Some(k) =>
      SplitPiecesFree(s[k + |sep|..], sep);
      if Contains(s[..k], sep) {
        var j: nat :| j <= k && Occurs(s[..k], sep, j);
        assert s[..k][j..j + |sep|] == s[j..j + |sep|];
        assert Occurs(s, sep, j);
        assert false;
      }
  }

  /** A character occurs in a string iff the one-character pattern does. */
  lemma ContainsChar(s: string, c: char)
    ensures Contains(s, [c]) <==> c in s
  {
    if c in s {
      var i :| 0 <= i < |s| && s[i] == c;
      assert Occurs(s, [c], i);
    }
    if Contains(s, [c]) {
      var k: nat :| k <= |s| && Occurs(s, [c], k);
      assert s[k] == c;
    }
  }

  /** Joining pieces free of a one-character separator and splitting the
      result again gives back the pieces. */
  lemma {:induction false} SplitJoin(xs: seq<string>, c: char)
    requires xs != []
    requires forall i :: 0 <= i < |xs| ==> c !in xs[i]
    ensures Split(Join(xs, [c]), [c]) == xs
    decreases |xs|
  {
    if |xs| == 1 {
      ContainsChar(xs[0], c);
    } else {
      var x, rest := xs[0], Join(xs[1..], [c]);
      var s := x + [c] + rest;
      assert Join(xs, [c]) == s;
      assert Occurs(s, [c], |x|);
      forall k: nat | k < |x|
        ensures !Occurs(s, [c], k)
      {
        assert s[k] == x[k];
      }
      assert IndexOf(s, [c]) == Some(|x|);
      assert s[..|x|] == x;
      assert s[|x| + 1..] == rest;
      SplitJoin(xs[1..], c);
      assert Split(s, [c]) == [x] + xs[1..];
    }
  }

}
