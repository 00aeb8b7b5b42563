/** The `casper-highlightable` element: it shows its text content with every
    accent- and case-insensitive occurrence of `highlight` wrapped in a
    highlight span.

    `Step`, `Run` and `Render` follow the element's render loop as written:
    each match of the normalised highlight in the normalised text selects
    the slice of the ORIGINAL text at the match index with the normalised
    highlight's length; that slice is replaced by a marker string in what is
    left of the text, and the result is split on the marker. `RenderFixed`
    cuts the text at the match positions directly. */
module Highlight {
  import opened Outcomes
  import opened Strings
  import opened Unicode
  import opened Matching

  /** The placeholder the render loop substitutes for a highlighted slice. */
  const Marker := "__CHIGHLIGHT__"

  /** The first twelve characters of the marker. A text free of them cannot
      make the marker appear anywhere but where the loop put it. */
  const MarkerHead := "__CHIGHLIGHT"

  /** A piece of rendered output: plain text, or text inside a highlight span. */
  datatype Piece = Plain(text: string) | Marked(text: string)

  /** What the element renders: its unchanged slot content; a sequence of
      pieces followed by the remaining text; or an exception. */
  datatype View = Slot | Shown(pieces: seq<Piece>, rest: string) | Failed(error: JsError)

  /** The text of all pieces, in order. */
  function Flatten(ps: seq<Piece>): string {
    if ps == [] then [] else ps[0].text + Flatten(ps[1..])
  }

  /** The texts of the highlighted pieces, in order. */
  function MarkedTexts(ps: seq<Piece>): seq<string> {
    if ps == [] then []
    else (if ps[0].Marked? then [ps[0].text] else []) + MarkedTexts(ps[1..])
  }

  lemma {:induction false} FlattenConcat(a: seq<Piece>, b: seq<Piece>)
    ensures Flatten(a + b) == Flatten(a) + Flatten(b)
  {
    if a == [] {
      assert a + b == b;
    } else {
      assert (a + b)[1..] == a[1..] + b;
      FlattenConcat(a[1..], b);
    }
  }

  lemma {:induction false} MarkedConcat(a: seq<Piece>, b: seq<Piece>)
    ensures MarkedTexts(a + b) == MarkedTexts(a) + MarkedTexts(b)
  {
    if a == [] {
      assert a + b == b;
    } else {
      assert (a + b)[1..] == a[1..] + b;
      MarkedConcat(a[1..], b);
    }
  }

  /** The slices of `t` of length `len` at the positions `ms`, as `substr`
      takes them. */
  function SlicesAt(t: string, ms: seq<nat>, len: nat): (r: seq<string>)
    ensures |r| == |ms|
  {
    if ms == [] then [] else [Substr(t, ms[0], len)] + SlicesAt(t, ms[1..], len)
  }

  /** Cuts `t[pos..]` at the positions `ms` into a plain piece before each
      position, a highlighted piece of length `len` at it, and the text after
      the last one. */
  function Cut(t: string, ms: seq<nat>, len: nat, pos: nat): (r: (seq<Piece>, string))
    requires pos <= |t| && Spaced(ms, len, pos, |t|)
    ensures Flatten(r.0) + r.1 == t[pos..]
    ensures MarkedTexts(r.0) == SlicesAt(t, ms, len)
    decreases |ms|
  {
    if ms == [] then ([], t[pos..])
    else
      var m := ms[0];
      SpacedTail(ms, len, pos, |t|);
      var tail := Cut(t, ms[1..], len, m + len);
      var head := [Plain(t[pos..m]), Marked(t[m..m + len])];
      CutHead(t, pos, m, len, head, tail.0, tail.1);
      SlicesAtCons(t, ms, len);
      (head + tail.0, tail.1)
  }

  /** Where the `k`-th plain piece of a cut starts: at `pos` for the first,
      and just after the previous highlighted piece for the others. With
      `k == |ms|` it is where the remaining text starts. */
  function Gap(ms: seq<nat>, len: nat, pos: nat, k: nat): nat
    requires k <= |ms|
  {
    if k == 0 then pos else ms[k - 1] + len
  }

  /** The `k`-th highlighted piece of `ps`, at index `2 * k + 1`, is the
      slice of `t` of length `len` at the `k`-th position. */
  predicate HighlightedAt(t: string, ms: seq<nat>, len: nat, ps: seq<Piece>, k: nat)
    requires |ps| == 2 * |ms| && k < |ms|
  {
    ms[k] + len <= |t| && ps[2 * k + 1] == Marked(t[ms[k]..ms[k] + len])
  }

  /** The plain piece before the `k`-th highlighted one, at index `2 * k`,
      is the text of `t` since the previous highlighted piece, or since
      `pos` for the first. */
  predicate PlainAt(t: string, ms: seq<nat>, len: nat, pos: nat, ps: seq<Piece>, k: nat)
    requires |ps| == 2 * |ms| && k < |ms|
  {
    Gap(ms, len, pos, k) <= ms[k] <= |t| && ps[2 * k] == Plain(t[Gap(ms, len, pos, k)..ms[k]])
  }

  /** Every highlighted piece of `ps` sits at its position. */
  predicate HighlightsAt(t: string, ms: seq<nat>, len: nat, ps: seq<Piece>)
    requires |ps| == 2 * |ms|
  {
    forall k :: 0 <= k < |ms| ==> HighlightedAt(t, ms, len, ps, k)
  }

  /** Every plain piece of `ps` covers the text before its highlighted one. */
  predicate PlainsAt(t: string, ms: seq<nat>, len: nat, pos: nat, ps: seq<Piece>)
    requires |ps| == 2 * |ms|
  {
    forall k :: 0 <= k < |ms| ==> PlainAt(t, ms, len, pos, ps, k)
  }

  /** `ps` and `rest` alternate plain and highlighted text of `t` at the
      positions `ms`, and `rest` is everything after the last one. */
  predicate Alternates(t: string, ms: seq<nat>, len: nat, pos: nat, ps: seq<Piece>, rest: string) {
    && |ps| == 2 * |ms|
    && HighlightsAt(t, ms, len, ps)
    && PlainsAt(t, ms, len, pos, ps)
    && Gap(ms, len, pos, |ms|) <= |t| && rest == t[Gap(ms, len, pos, |ms|)..]
  }

  /** A new first position with its highlighted piece in front keeps
      every highlighted piece at its position. */
  lemma HighlightsCons(t: string, m: nat, ms: seq<nat>, len: nat, a: string, ps: seq<Piece>)
    requires m + len <= |t| && |ps| == 2 * |ms| && HighlightsAt(t, ms, len, ps)
    ensures HighlightsAt(t, [m] + ms, len, [Plain(a), Marked(t[m..m + len])] + ps)
  {
    var ms', ps' := [m] + ms, [Plain(a), Marked(t[m..m + len])] + ps;
    forall k | 0 <= k < |ms'|
      ensures HighlightedAt(t, ms', len, ps', k)
    {
      if k > 0 {
        assert HighlightedAt(t, ms, len, ps, k - 1);
        assert ms'[k] == ms[k - 1] && ps'[2 * k + 1] == ps[2 * (k - 1) + 1];
      }
    }
  }

  /** Dropping the first position shifts where the plain pieces start. */
  lemma GapCons(m: nat, ms: seq<nat>, len: nat, pos: nat, k: nat)
    requires 1 <= k <= |ms| + 1
    ensures Gap([m] + ms, len, pos, k) == Gap(ms, len, m + len, k - 1)
  {
    if k > 1 { assert ([m] + ms)[k - 1] == ms[k - 2]; }
  }

  /** A new first position with its two pieces in front keeps every plain
      piece where it belongs; the old first one now starts after the new
      highlighted piece. */
  lemma PlainsCons(t: string, m: nat, ms: seq<nat>, len: nat, pos: nat, ps: seq<Piece>)
    requires pos <= m && m + len <= |t| && |ps| == 2 * |ms| && PlainsAt(t, ms, len, m + len, ps)
    ensures PlainsAt(t, [m] + ms, len, pos, [Plain(t[pos..m]), Marked(t[m..m + len])] + ps)
  {
    var ms', ps' := [m] + ms, [Plain(t[pos..m]), Marked(t[m..m + len])] + ps;
    forall k | 0 <= k < |ms'|
      ensures PlainAt(t, ms', len, pos, ps', k)
    {
      if k > 0 {
        assert PlainAt(t, ms, len, m + len, ps, k - 1);
        GapCons(m, ms, len, pos, k);
        assert ms'[k] == ms[k - 1] && ps'[2 * k] == ps[2 * (k - 1)];
      }
    }
  }

  /** Putting one plain and one highlighted piece in front extends the
      alternation by one position. */
  lemma AlternatesCons(t: string, m: nat, ms: seq<nat>, len: nat, pos: nat, ps: seq<Piece>, rest: string)
    requires pos <= m && m + len <= |t|
    requires Alternates(t, ms, len, m + len, ps, rest)
    ensures Alternates(t, [m] + ms, len, pos, [Plain(t[pos..m]), Marked(t[m..m + len])] + ps, rest)
  {
    HighlightsCons(t, m, ms, len, t[pos..m], ps);
    PlainsCons(t, m, ms, len, pos, ps);
    GapCons(m, ms, len, pos, |ms| + 1);
  }

  /** The cut alternates plain and highlighted pieces at the positions. */
  lemma {:induction false} CutPositions(t: string, ms: seq<nat>, len: nat, pos: nat)
    requires pos <= |t| && Spaced(ms, len, pos, |t|)
    ensures Alternates(t, ms, len, pos, Cut(t, ms, len, pos).0, Cut(t, ms, len, pos).1)
    decreases |ms|
  {
    if ms != [] {
      var m, ms' := ms[0], ms[1..];
      assert [m] + ms' == ms;
      SpacedTail(ms, len, pos, |t|);
      var tail := Cut(t, ms', len, m + len);
      assert Cut(t, ms, len, pos) == ([Plain(t[pos..m]), Marked(t[m..m + len])] + tail.0, tail.1);
      CutPositions(t, ms', len, m + len);
      AlternatesCons(t, m, ms', len, pos, tail.0, tail.1);
    }
  }

  /** Dropping the first of a set of spaced positions leaves positions
      spaced from the end of the first one. */
  lemma SpacedTail(ms: seq<nat>, len: nat, from: nat, bound: nat)
    requires ms != [] && Spaced(ms, len, from, bound)
    ensures from <= ms[0] && ms[0] + len <= bound
    ensures Spaced(ms[1..], len, ms[0] + len, bound)
  {
    assert forall k :: 0 <= k < |ms| - 1 ==> ms[1..][k] == ms[k + 1];
  }

  /** Putting a position in front of positions spaced from its end keeps
      them spaced. */
  lemma SpacedCons(m: nat, ms: seq<nat>, len: nat, from: nat, bound: nat)
    requires from <= m && m + len <= bound && Spaced(ms, len, m + len, bound)
    ensures Spaced([m] + ms, len, from, bound)
  {
    var ms' := [m] + ms;
    forall k | 0 <= k < |ms'|
      ensures from <= ms'[k] && ms'[k] + len <= bound
    {
      if k > 0 { assert ms'[k] == ms[k - 1]; }
    }
    forall a, b | 0 <= a < b < |ms'|
      ensures ms'[a] + len <= ms'[b]
    {
      assert ms'[b] == ms[b - 1];
      if a > 0 { assert ms'[a] == ms[a - 1]; }
    }
  }

  lemma SlicesAtCons(t: string, ms: seq<nat>, len: nat)
    requires ms != []
    ensures SlicesAt(t, ms, len) == [Substr(t, ms[0], len)] + SlicesAt(t, ms[1..], len)
  {
  }

  lemma SlicesAtPrepend(t: string, m: nat, ms: seq<nat>, len: nat)
    ensures SlicesAt(t, [m] + ms, len) == [Substr(t, m, len)] + SlicesAt(t, ms, len)
  {
    assert ([m] + ms)[1..] == ms;
  }

  /** The slices at the matches from `from`, split at the first match. */
  lemma SlicesNext(t: string, n: string, p: string, from: nat, i: nat, next: nat)
    requires p != [] && FindFrom(n, p, from) == Some(i) && next == i + |p|
    ensures SlicesAt(t, MatchesFrom(n, p, from), |p|) == [Substr(t, i, |p|)] + SlicesAt(t, MatchesFrom(n, p, next), |p|)
  {
    var rest := MatchesFrom(n, p, next);
    assert MatchesFrom(n, p, from) == [i] + rest by { MatchesFromCons(n, p, from, i); }
    SlicesAtPrepend(t, i, rest, |p|);
  }

  lemma CutHead(t: string, pos: nat, m: nat, len: nat, head: seq<Piece>, tail: seq<Piece>, rest: string)
    requires pos <= m && m + len <= |t|
    requires head == [Plain(t[pos..m]), Marked(t[m..m + len])]
    requires Flatten(tail) + rest == t[m + len..]
    ensures Flatten(head + tail) + rest == t[pos..]
    ensures MarkedTexts(head + tail) == [t[m..m + len]] + MarkedTexts(tail)
  {
    FlattenConcat(head, tail);
    MarkedConcat(head, tail);
    assert Flatten(head) == t[pos..m] + t[m..m + len];
    assert t[pos..] == t[pos..m] + t[m..m + len] + t[m + len..];
  }

  /** The state of the render loop: what is left of the text (`undefined`
      once a split found no marker), the pieces emitted so far, and the
      regular expression's `lastIndex`. */
  datatype Loop = Loop(text: Option<string>, pieces: seq<Piece>, last: nat)

  /** The outcome of one loop test and body. */
  datatype StepResult = Exit | Next(state: Loop) | Thrown(error: JsError)

  lemma MarkedPair(a: string, b: string)
    ensures MarkedTexts([Plain(a), Marked(b)]) == [b]
  {
    assert [Plain(a), Marked(b)][1..] == [Marked(b)];
    assert MarkedTexts([Marked(b)]) == [b] + MarkedTexts([]);
  }

  /** The state before the first iteration. */
  function Start(t: string): Loop {
    Loop(Some(t), [], 0)
  }

  /** One iteration of the render loop over the text `t` whose normal form
      is `n`: `exec` finds the next match of `p` in `n` at or after
      `lastIndex`; the slice of the original text at the match index, as long
      as the normalised highlight, becomes the highlighted piece; the first
      occurrence of that slice in the remaining text is replaced by the
      marker and the result split on it; the part before the marker is
      emitted as plain text and the part after becomes the remaining text. */
  function Step(t: string, n: string, p: string, s: Loop): (r: StepResult)
    ensures r.Exit? <==> FindFrom(n, p, s.last).None?
    ensures r.Thrown? <==> FindFrom(n, p, s.last).Some? && s.text.None?
    ensures r.Next? ==> r.state.last == FindFrom(n, p, s.last).value + |p| <= |n|
    ensures r.Next? && p != [] ==> s.last < r.state.last
  {
    match FindFrom(n, p, s.last)
    case None => Exit
    case Some(i) =>
      match s.text
      case None => Thrown(TypeError)
      case Some(text) =>
        var original := Substr(t, i, |p|);
        var parts := Split(Replace(text, original, Marker), Marker);
        var emitted := [Plain(parts[0]), Marked(original)];
        Next(Loop(if |parts| > 1 then Some(parts[1]) else None, s.pieces + emitted, i + |p|))
  }

  /** A step that continues emits one highlighted piece: the slice of the
      original text at the match, as long as the highlight. */
  lemma StepMarked(t: string, n: string, p: string, s: Loop)
    requires Step(t, n, p, s).Next?
    ensures MarkedTexts(Step(t, n, p, s).state.pieces) ==
      MarkedTexts(s.pieces) + [Substr(t, FindFrom(n, p, s.last).value, |p|)]
  {
    var i := FindFrom(n, p, s.last).value;
    var original := Substr(t, i, |p|);
    var parts := Split(Replace(s.text.value, original, Marker), Marker);
    var emitted := [Plain(parts[0]), Marked(original)];
    assert Step(t, n, p, s).state.pieces == s.pieces + emitted;
    MarkedConcat(s.pieces, emitted);
    MarkedPair(parts[0], original);
  }

  /** `n` is a character-by-character image of `t`: of the same length,
      with equal characters of `t` mapped to equal characters. The normal
      form of a text without combining marks is one. */
  ghost predicate Image(t: string, n: string) {
    |n| == |t| && forall a, b :: Agree(t, n, a, b)
  }

  /** Positions `a` and `b` holding equal characters of `t` hold equal
      characters of `n`. */
  predicate Agree(t: string, n: string, a: int, b: int) {
    0 <= a < |t| && 0 <= b < |t| && t[a] == t[b] && |n| == |t| ==> n[a] == n[b]
  }

  /** A text without combining marks is aligned with its normal form. */
  lemma NormalImage(t: string)
    requires NoMarks(t)
    ensures Image(t, Normalize(t))
  {
    NormalizeInPlace(t);
    forall a, b
      ensures Agree(t, Normalize(t), a, b)
    {
    }
  }

  /** The loop from state `s` until `exec` finds no further match. */
  function Run(t: string, n: string, p: string, s: Loop): (v: View)
    requires p != [] && s.last <= |n|
    ensures !v.Slot?
    decreases |n| - s.last
  {
    match Step(t, n, p, s)
    case Exit => Shown(s.pieces, s.text.GetOr([]))
    case Thrown(e) => Failed(e)
    case Next(s') => Run(t, n, p, s')
  }

  /** The loop's highlighted pieces are the slices of the text at the
      match positions of the normal form, whatever the text left over. */
  lemma {:induction false} RunMarked(t: string, n: string, p: string, s: Loop)
    requires p != [] && s.last <= |n|
    ensures Run(t, n, p, s).Shown? ==>
      MarkedTexts(Run(t, n, p, s).pieces) == MarkedTexts(s.pieces) + SlicesAt(t, MatchesFrom(n, p, s.last), |p|)
    decreases |n| - s.last
  {
    if Step(t, n, p, s).Next? {
      var s', a := MarkedNext(t, n, p, s);
      RunMarked(t, n, p, s');
      MarkedCombine(Run(t, n, p, s), Run(t, n, p, s'), MarkedTexts(s.pieces), MarkedTexts(s'.pieces), a,
        SlicesAt(t, MatchesFrom(n, p, s'.last), |p|), SlicesAt(t, MatchesFrom(n, p, s.last), |p|));
    } else if Step(t, n, p, s).Exit? {
      assert MatchesFrom(n, p, s.last) == [];
    }
  }

  /** A step that continues emits one highlighted piece, the slice at the
      first match, and the remaining matches start after it. */
  lemma MarkedNext(t: string, n: string, p: string, s: Loop) returns (s': Loop, a: string)
    requires p != [] && s.last <= |n| && Step(t, n, p, s).Next?
    ensures s' == Step(t, n, p, s).state && s.last < s'.last <= |n|
    ensures Run(t, n, p, s) == Run(t, n, p, s')
    ensures MarkedTexts(s'.pieces) == MarkedTexts(s.pieces) + [a]
    ensures SlicesAt(t, MatchesFrom(n, p, s.last), |p|) == [a] + SlicesAt(t, MatchesFrom(n, p, s'.last), |p|)
  {
    s' := Step(t, n, p, s).state;
    var i := FindFrom(n, p, s.last).value;
    a := Substr(t, i, |p|);
    assert Run(t, n, p, s) == Run(t, n, p, s') by {
      RunNext(t, n, p, s, s');
    }
    assert MarkedTexts(s'.pieces) == MarkedTexts(s.pieces) + [a] by {
      StepMarked(t, n, p, s);
    }
    assert SlicesAt(t, MatchesFrom(n, p, s.last), |p|) == [a] + SlicesAt(t, MatchesFrom(n, p, s'.last), |p|) by {
      SlicesNext(t, n, p, s.last, i, s'.last);
    }
  }

  lemma MarkedCombine(v: View, v': View, x: seq<string>, x': seq<string>, a: string, r: seq<string>, all: seq<string>)
    requires v == v' && (v'.Shown? ==> MarkedTexts(v'.pieces) == x' + r)
    requires x' == x + [a] && all == [a] + r
    ensures v.Shown? ==> MarkedTexts(v.pieces) == x + all
  {
    assert x + [a] + r == x + ([a] + r);
  }

  /** On a text without marks and free of the marker head, the loop cuts the
      rest of the text at the match positions, exactly as `Cut` does. */
  lemma {:induction false} RunFaithful(t: string, n: string, p: string, pieces: seq<Piece>, pos: nat)
    requires p != [] && Image(t, n) && !Contains(t, MarkerHead) && pos <= |t|
    ensures Run(t, n, p, Loop(Some(t[pos..]), pieces, pos)) ==
      Shown(pieces + Cut(t, MatchesFrom(n, p, pos), |p|, pos).0,
            Cut(t, MatchesFrom(n, p, pos), |p|, pos).1)
    decreases |t| - pos
  {
    if FindFrom(n, p, pos).None? {
      RunDone(t, n, p, pieces, pos);
    } else {
      var head, next := NextPieces(t, n, p, pieces, pos);
      RunFaithful(t, n, p, pieces + head, next);
      FaithfulCombine(Run(t, n, p, Loop(Some(t[pos..]), pieces, pos)),
        Run(t, n, p, Loop(Some(t[next..]), pieces + head, next)),
        pieces, head, Cut(t, MatchesFrom(n, p, next), |p|, next), Cut(t, MatchesFrom(n, p, pos), |p|, pos));
    }
  }

  lemma FaithfulCombine(v: View, v': View, pieces: seq<Piece>, head: seq<Piece>, c: (seq<Piece>, string), d: (seq<Piece>, string))
    requires v == v'
    requires v' == Shown(pieces + head + c.0, c.1)
    requires d == (head + c.0, c.1)
    ensures v == Shown(pieces + d.0, d.1)
  {
    PiecesAssoc(pieces, head, c.0);
  }

  /** With no further match the loop shows the pieces and the remaining text. */
  lemma RunDone(t: string, n: string, p: string, pieces: seq<Piece>, pos: nat)
    requires p != [] && |n| == |t| && pos <= |t| && FindFrom(n, p, pos).None?
    ensures Run(t, n, p, Loop(Some(t[pos..]), pieces, pos)) ==
      Shown(pieces + Cut(t, MatchesFrom(n, p, pos), |p|, pos).0,
            Cut(t, MatchesFrom(n, p, pos), |p|, pos).1)
  {
    assert MatchesFrom(n, p, pos) == [];
    assert pieces + [] == pieces;
  }

  /** At the next match, the loop and `Cut` emit the same two pieces and
      go on from the end of the match, `next`. */
  lemma NextPieces(t: string, n: string, p: string, pieces: seq<Piece>, pos: nat) returns (head: seq<Piece>, next: nat)
    requires p != [] && Image(t, n) && !Contains(t, MarkerHead) && pos <= |t|
    requires FindFrom(n, p, pos).Some?
    ensures pos < next <= |t|
    ensures Run(t, n, p, Loop(Some(t[pos..]), pieces, pos)) ==
      Run(t, n, p, Loop(Some(t[next..]), pieces + head, next))
    ensures Cut(t, MatchesFrom(n, p, pos), |p|, pos) ==
      (head + Cut(t, MatchesFrom(n, p, next), |p|, next).0,
       Cut(t, MatchesFrom(n, p, next), |p|, next).1)
  {
    var i := FindFrom(n, p, pos).value;
    next := i + |p|;
    head := [Plain(t[pos..i]), Marked(t[i..next])];
    StepNext(t, n, p, pieces, pos, i);
    RunNext(t, n, p, Loop(Some(t[pos..]), pieces, pos), Loop(Some(t[next..]), pieces + head, next));
    CutNext(t, n, p, pos, i);
  }

  lemma PiecesAssoc(a: seq<Piece>, b: seq<Piece>, c: seq<Piece>)
    ensures a + b + c == a + (b + c)
  {
  }

  /** Under the two preconditions, a step from a remaining text that is a
      suffix of the text leaves the suffix after the match. */
  lemma StepNext(t: string, n: string, p: string, pieces: seq<Piece>, pos: nat, i: nat)
    requires p != [] && Image(t, n) && !Contains(t, MarkerHead) && pos <= |t|
    requires FindFrom(n, p, pos) == Some(i)
    ensures i + |p| <= |t|
    ensures Step(t, n, p, Loop(Some(t[pos..]), pieces, pos)) ==
      Next(Loop(Some(t[i + |p|..]), pieces + [Plain(t[pos..i]), Marked(t[i..i + |p|])], i + |p|))
  {
    var parts := StepFaithful(t, n, p, Loop(Some(t[pos..]), pieces, pos), i);
  }

  /** A step that continues leaves the rest of the run unchanged. */
  lemma RunNext(t: string, n: string, p: string, s: Loop, s': Loop)
    requires p != [] && s.last <= |n| && Step(t, n, p, s) == Next(s')
    ensures s'.last <= |n| && Run(t, n, p, s) == Run(t, n, p, s')
  {
  }

  /** `Cut` at the scan's matches, unfolded at the first match. */
  lemma CutNext(t: string, n: string, p: string, pos: nat, i: nat)
    requires p != [] && |n| == |t| && pos <= |t| && FindFrom(n, p, pos) == Some(i)
    ensures i + |p| <= |t|
    ensures Cut(t, MatchesFrom(n, p, pos), |p|, pos) ==
      ([Plain(t[pos..i]), Marked(t[i..i + |p|])] + Cut(t, MatchesFrom(n, p, i + |p|), |p|, i + |p|).0,
       Cut(t, MatchesFrom(n, p, i + |p|), |p|, i + |p|).1)
  {
    var ms := MatchesFrom(n, p, pos);
    var rest := MatchesFrom(n, p, i + |p|);
    assert ms == [i] + rest by {
      MatchesFromCons(n, p, pos, i);
    }
    CutPrepend(t, i, rest, |p|, pos);
  }

  /** `Cut` unfolded once. */
  lemma CutPrepend(t: string, m: nat, ms: seq<nat>, len: nat, pos: nat)
    requires pos <= m && m + len <= |t| && Spaced(ms, len, m + len, |t|)
    ensures Spaced([m] + ms, len, pos, |t|)
    ensures Cut(t, [m] + ms, len, pos) ==
      ([Plain(t[pos..m]), Marked(t[m..m + len])] + Cut(t, ms, len, m + len).0, Cut(t, ms, len, m + len).1)
  {
    SpacedCons(m, ms, len, pos, |t|);
    assert ([m] + ms)[0] == m && ([m] + ms)[1..] == ms;
  }

  /** Under the two preconditions, one iteration does what the author
      meant: the marker lands exactly at the match, so the split yields the
      text between the previous match and this one, and everything after
      this match. */
  lemma StepFaithful(t: string, n: string, p: string, s: Loop, i: nat) returns (parts: seq<string>)
    requires p != [] && Image(t, n) && !Contains(t, MarkerHead)
    requires s.last <= |t| && s.text == Some(t[s.last..])
    requires FindFrom(n, p, s.last) == Some(i)
    ensures i + |p| <= |t| && Substr(t, i, |p|) == t[i..i + |p|]
    ensures parts == Split(Replace(t[s.last..], Substr(t, i, |p|), Marker), Marker)
    ensures parts == [t[s.last..i], t[i + |p|..]]
  {
    var pos := s.last;
    ReplaceHitsMatch(t, n, p, pos, i);
    var original := t[i..i + |p|];
    ContainsSlice(t, pos, i, MarkerHead);
    ContainsSlice(t, i + |p|, |t|, MarkerHead);
    assert t[i + |p|..|t|] == t[i + |p|..];
    assert |original| == |p|;
    parts := MarkedSplit(t, pos, i, original);
    assert Substr(t, i, |p|) == original;
  }

  /** Replacing the first occurrence of the slice `t[i..i + |x|]` of
      `t[pos..]`, found at `i`, and splitting on the marker gives the text
      before and the text after the slice. */
  lemma MarkedSplit(t: string, pos: nat, i: nat, x: string) returns (parts: seq<string>)
    requires pos <= i && i + |x| <= |t| && t[i..i + |x|] == x
    requires IndexOf(t[pos..], x) == Some(i - pos)
    requires !Contains(t[pos..i], MarkerHead) && !Contains(t[i + |x|..], MarkerHead)
    ensures parts == Split(Replace(t[pos..], x, Marker), Marker)
    ensures parts == [t[pos..i], t[i + |x|..]]
  {
    var text := t[pos..];
    assert text[..i - pos] == t[pos..i];
    assert text[i - pos + |x|..] == t[i + |x|..];
    assert Replace(text, x, Marker) == t[pos..i] + Marker + t[i + |x|..];
    SplitAtMarker(t[pos..i], t[i + |x|..]);
    parts := Split(Replace(text, x, Marker), Marker);
  }

  /** A pattern found in a slice is found in the whole string. */
  lemma ContainsSlice(t: string, a: nat, b: nat, x: string)
    requires a <= b <= |t|
    ensures Contains(t[a..b], x) ==> Contains(t, x)
  {
    if Contains(t[a..b], x) {
      var k: nat :| k <= |t[a..b]| && Occurs(t[a..b], x, k);
      forall q | 0 <= q < |x|
        ensures t[a + k..a + k + |x|][q] == x[q]
      {
        assert x[q] == t[a..b][k + q];
      }
      assert t[a + k..a + k + |x|] == x;
      assert Occurs(t, x, a + k);
    }
  }

  /** Leftmost matching makes the literal `replace` hit the match: the slice
      taken at the match index does not occur earlier in the remaining text,
      since an earlier occurrence would be an earlier match. */
  lemma ReplaceHitsMatch(t: string, n: string, p: string, pos: nat, i: nat)
    requires p != [] && Image(t, n) && pos <= |t|
    requires FindFrom(n, p, pos) == Some(i)
    ensures i + |p| <= |t|
    ensures IndexOf(t[pos..], t[i..i + |p|]) == Some(i - pos)
  {
    var text, original := t[pos..], t[i..i + |p|];
    assert Occurs(text, original, i - pos) by { OccursInSuffix(t, pos, i, |p|); }
    forall k: nat | k < i - pos
      ensures !Occurs(text, original, k)
    {
      NoEarlierOccurrence(t, n, p, pos, i, k);
    }
    IndexOfAt(text, original, i - pos);
  }

  /** A slice of the text occurs in a suffix that contains it. */
  lemma OccursInSuffix(t: string, pos: nat, i: nat, len: nat)
    requires pos <= i && i + len <= |t|
    ensures Occurs(t[pos..], t[i..i + len], i - pos)
  {
    assert t[pos..][i - pos..i - pos + len] == t[i..i + len];
  }

  /** Before the leftmost match, the text of the match does not occur:
      such an occurrence would be an earlier match. */
  lemma NoEarlierOccurrence(t: string, n: string, p: string, pos: nat, i: nat, k: nat)
    requires p != [] && Image(t, n) && pos <= |t|
    requires FindFrom(n, p, pos) == Some(i) && k < i - pos
    ensures !Occurs(t[pos..], t[i..i + |p|], k)
  {
    if Occurs(t[pos..], t[i..i + |p|], k) {
      assert t[pos + k..pos + k + |p|] == t[i..i + |p|] by {
        assert t[pos..][k..k + |p|] == t[pos + k..pos + k + |p|];
      }
      EqualSlicesMatch(t, n, p, pos + k, i);
      assert false;
    }
  }

  /** Equal slices of a text have equal base forms, so a match at one is a
      match at the other. */
  lemma EqualSlicesMatch(t: string, n: string, p: string, j: nat, i: nat)
    requires Image(t, n) && j + |p| <= |t| && i + |p| <= |t|
    requires t[j..j + |p|] == t[i..i + |p|]
    requires MatchAt(n, p, i)
    ensures MatchAt(n, p, j)
  {
    var nj, ni := n[j..j + |p|], n[i..i + |p|];
    forall q | 0 <= q < |p|
      ensures nj[q] == ni[q]
    {
      assert t[j + q] == t[j..j + |p|][q] == t[i..i + |p|][q] == t[i + q];
      assert Agree(t, n, j + q, i + q);
    }
    assert nj == ni;
  }

  /** Each `_` of the marker sits next to another only at its two ends. */
  lemma MarkerUnderscores(d: int)
    requires 1 <= d <= 11
    ensures Marker[d] != '_' || Marker[d + 1] != '_'
  {
  }

  /** With no marker head on either side, the marker inserted between `a`
      and `b` is the first one the split finds, and there is no other. */
  lemma SplitAtMarker(a: string, b: string)
    requires !Contains(a, MarkerHead) && !Contains(b, MarkerHead)
    ensures Split(a + Marker + b, Marker) == [a, b]
  {
    var s := a + Marker + b;
    assert IndexOf(s, Marker) == Some(|a|) by {
      MarkerFirstAfter(a, b);
    }
    assert s[..|a|] == a;
    assert s[|a| + |Marker|..] == b;
    assert !Contains(b, Marker) by {
      NoMarkerWithoutHead(b);
    }
    SplitWithout(b, Marker);
  }

  /** A text without the marker head has no marker either. */
  lemma NoMarkerWithoutHead(b: string)
    requires !Contains(b, MarkerHead)
    ensures !Contains(b, Marker)
  {
    if Contains(b, Marker) {
      var k: nat :| k <= |b| && Occurs(b, Marker, k);
      assert b[k..k + |MarkerHead|] == b[k..k + |Marker|][..|MarkerHead|];
      assert Occurs(b, MarkerHead, k);
    }
  }

  /** The marker put after a text without the marker head is the first
      occurrence of the marker. */
  lemma MarkerFirstAfter(a: string, b: string)
    requires !Contains(a, MarkerHead)
    ensures IndexOf(a + Marker + b, Marker) == Some(|a|)
  {
    var s := a + Marker + b;
    assert s[|a|..|a| + |Marker|] == Marker;
    assert Occurs(s, Marker, |a|);
    forall j: nat | j < |a|
      ensures !Occurs(s, Marker, j)
    {
      NoMarkerStraddles(a, b, j);
    }
  }

  lemma NoMarkerStraddles(a: string, b: string, j: nat)
    requires !Contains(a, MarkerHead) && j < |a|
    ensures !Occurs(a + Marker + b, Marker, j)
  {
    var s := a + Marker + b;
    if j + |MarkerHead| <= |a| {
      assert !Occurs(a, MarkerHead, j);
      assert a[j..j + |MarkerHead|] == s[j..j + |MarkerHead|];
      assert s[j..j + |MarkerHead|] != MarkerHead;
      assert s[j..j + |Marker|][..|MarkerHead|] == s[j..j + |MarkerHead|];
    } else {
      var d := |a| - j;
      MarkerUnderscores(d);
      assert s[|a|] == '_' && s[|a| + 1] == '_';
      assert s[j..j + |Marker|][d] == s[|a|];
      assert s[j..j + |Marker|][d + 1] == s[|a| + 1];
    }
  }

  /** The element's `render`, as written. Before the first update, with an
      empty highlight, or when the normalised text has no match it shows its
      slot unchanged; otherwise it runs the loop. The loop only ends when the
      normalised highlight is non-empty, which the precondition demands. */
  function Render(t: string, h: string, firstRender: bool): (v: View)
    requires firstRender || h == [] || Normalize(h) != []
    ensures v.Slot? <==> firstRender || h == [] || FindFrom(Normalize(t), Normalize(h), 0).None?
    ensures v.Shown? ==>
      && Normalize(h) != []
      && MarkedTexts(v.pieces) == SlicesAt(t, Matches(Normalize(t), Normalize(h)), |Normalize(h)|)
  {
    var n := Normalize(t);
    var p := Normalize(h);
    if firstRender || h == [] || FindFrom(n, p, 0).None? then Slot
    else
      RunMarked(t, n, p, Start(t));
      Run(t, n, p, Start(t))
  }

  /** The render with both defects removed: an empty normalised highlight
      shows the slot, and the text is cut at the match positions instead of
      through a marker. */
  function RenderFixed(t: string, h: string, firstRender: bool): (v: View)
    ensures v.Slot? <==> firstRender || Normalize(h) == [] || FindFrom(Normalize(t), Normalize(h), 0).None?
    ensures !v.Failed?
    ensures v.Shown? ==> Flatten(v.pieces) + v.rest == t
    ensures v.Shown? ==>
      && Normalize(h) != []
      && MarkedTexts(v.pieces) == SlicesAt(t, Matches(Normalize(t), Normalize(h)), |Normalize(h)|)
  {
    var n := Normalize(t);
    var p := Normalize(h);
    if firstRender || p == [] || FindFrom(n, p, 0).None? then Slot
    else
      NormalizeLength(t);
      var c := Cut(t, Matches(n, p), |p|, 0);
      Shown(c.0, c.1)
  }

  /** The corrected render highlights the text at the match positions of
      the normal form, in order, with the text between two matches, and
      after the last one, left plain. */
  lemma RenderFixedPositions(t: string, h: string, firstRender: bool)
    requires RenderFixed(t, h, firstRender).Shown?
    ensures var v := RenderFixed(t, h, firstRender);
      Alternates(t, Matches(Normalize(t), Normalize(h)), |Normalize(h)|, 0, v.pieces, v.rest)
  {
    var n, p := Normalize(t), Normalize(h);
    NormalizeLength(t);
    var ms := Matches(n, p);
    assert Spaced(ms, |p|, 0, |t|);
    CutPositions(t, ms, |p|, 0);
  }

  /** On an aligned text free of the marker head, the render as written
      and the corrected one agree. */
  lemma RenderAgrees(t: string, h: string, firstRender: bool)
    requires firstRender || h == [] || Normalize(h) != []
    requires NoMarks(t) && !Contains(t, MarkerHead)
    ensures Render(t, h, firstRender) == RenderFixed(t, h, firstRender)
  {
    var n, p := Normalize(t), Normalize(h);
    if !(firstRender || h == [] || FindFrom(n, p, 0).None?) {
      NormalImage(t);
      assert Start(t) == Loop(Some(t[0..]), [], 0);
      RunFaithful(t, n, p, [], 0);
      assert [] + Cut(t, Matches(n, p), |p|, 0).0 == Cut(t, Matches(n, p), |p|, 0).0;
    }
  }

  /** Each highlighted piece of a text without marks normalises, up to
      case, to the normalised highlight. */
  lemma MarkedPiecesMatchHighlight(t: string, h: string, firstRender: bool)
    requires NoMarks(t) && RenderFixed(t, h, firstRender).Shown?
    ensures var ps := MarkedTexts(RenderFixed(t, h, firstRender).pieces);
      forall k :: 0 <= k < |ps| ==> FoldEq(Normalize(ps[k]), Normalize(h))
  {
    var n, p := Normalize(t), Normalize(h);
    var ms := Matches(n, p);
    var ps := MarkedTexts(RenderFixed(t, h, firstRender).pieces);
    assert ps == SlicesAt(t, ms, |p|);
    NormalizeLength(t);
    forall k | 0 <= k < |ps|
      ensures FoldEq(Normalize(ps[k]), p)
    {
      SlicesAtIndex(t, ms, |p|, k);
      MatchedSlice(t, p, ms[k]);
    }
  }

  /** The `k`-th slice is the one at the `k`-th position. */
  lemma {:induction false} SlicesAtIndex(t: string, ms: seq<nat>, len: nat, k: nat)
    requires k < |ms|
    ensures SlicesAt(t, ms, len)[k] == Substr(t, ms[k], len)
    decreases k
  {
    if k > 0 {
      SlicesAtIndex(t, ms[1..], len, k - 1);
    }
  }

  /** The slice of a text without marks at a match of the normal form
      normalises to the highlight, up to case. */
  lemma MatchedSlice(t: string, p: string, m: nat)
    requires NoMarks(t) && MatchAt(Normalize(t), p, m)
    ensures m + |p| <= |t|
    ensures FoldEq(Normalize(Substr(t, m, |p|)), p)
  {
    MatchWithin(t, p, m);
    MatchedSliceFolds(t, p, m);
  }

  /** A match of the normal form lies within the text. */
  lemma MatchWithin(t: string, p: string, m: nat)
    requires MatchAt(Normalize(t), p, m)
    ensures m + |p| <= |t|
  {
    NormalizeLength(t);
  }

  lemma MatchedSliceFolds(t: string, p: string, m: nat)
    requires NoMarks(t) && MatchAt(Normalize(t), p, m) && m + |p| <= |t|
    ensures FoldEq(Normalize(Substr(t, m, |p|)), p)
  {
    var n := Normalize(t);
    assert Normalize(Substr(t, m, |p|)) == n[m..m + |p|] by { SubstrNormal(t, m, |p|); }
    FoldEqEqual(Normalize(Substr(t, m, |p|)), n[m..m + |p|], p);
  }

  /** A substring of a text without marks normalises to the same slice of
      the normal form. */
  lemma SubstrNormal(t: string, m: nat, len: nat)
    requires NoMarks(t) && m + len <= |t|
    ensures m + len <= |Normalize(t)| && Normalize(Substr(t, m, len)) == Normalize(t)[m..m + len]
  {
    NormalizeSlice(t, m, m + len);
  }

  lemma FoldEqEqual(a: string, b: string, p: string)
    requires a == b && FoldEq(b, p)
    ensures FoldEq(a, p)
  {
  }
}
