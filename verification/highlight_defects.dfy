/** Two inputs on which the render loop of `casper-highlightable` does not do
    what it is meant to: a highlight that normalises to nothing, and a text
    that already contains the start of the marker. */
module HighlightDefects {
  import opened Outcomes
  import opened Strings
  import opened Unicode
  import opened Matching
  import opened Highlight

  /** The loop state after `k` more iterations, or the exit or exception
      that ends it sooner. */
  function Iterate(t: string, n: string, p: string, s: Loop, k: nat): (r: StepResult)
    ensures k == 0 ==> r == Next(s)
    decreases k
  {
    if k == 0 then Next(s)
    else
      match Step(t, n, p, s)
      case Next(s') => Iterate(t, n, p, s', k - 1)
      case other => other
  }

  /** With an empty pattern `exec` matches the empty string at `lastIndex`
      without moving it, and the replace puts the marker in front of the
      text: an iteration emits two empty pieces, keeps `lastIndex`, and
      keeps the remaining text up to its first marker (all of it when it
      holds none). */
  lemma EmptyPatternStep(t: string, n: string, s: Loop)
    requires s.text.Some? && s.last <= |n|
    ensures Step(t, n, [], s).Next?
    ensures Step(t, n, [], s).state.last == s.last
    ensures Step(t, n, [], s).state.text.Some?
    ensures Step(t, n, [], s).state.pieces == s.pieces + [Plain([]), Marked([])]
    ensures Step(t, n, [], s).state.text == Some(Split(s.text.value, Marker)[0])
    ensures !Contains(s.text.value, Marker) ==> Step(t, n, [], s).state.text == s.text
  {
    var text := s.text.value;
    assert MatchAt(n, [], s.last);
    assert FindFrom(n, [], s.last) == Some(s.last);
    assert Substr(t, s.last, 0) == [];
    assert Occurs(text, [], 0);
    IndexOfAt(text, [], 0);
    assert Replace(text, [], Marker) == Marker + text by {
      assert text[..0] == [] && text[0..] == text;
    }
    var s' := Marker + text;
    assert Occurs(s', Marker, 0) by { assert s'[0..|Marker|] == Marker; }
    IndexOfAt(s', Marker, 0);
    assert s'[|Marker|..] == text;
    assert Split(s', Marker) == [[]] + Split(text, Marker);
    if !Contains(text, Marker) {
      SplitWithout(text, Marker);
    }
  }

  /** The render loop never ends for an empty normalised highlight: after
      any number of iterations it is still running, with `lastIndex` where
      it started and two more empty pieces per iteration. */
  lemma {:induction false} EmptyHighlightNeverExits(t: string, n: string, s: Loop, k: nat)
    requires s.text.Some? && s.last <= |n|
    ensures Iterate(t, n, [], s, k).Next?
    ensures Iterate(t, n, [], s, k).state.last == s.last
    ensures |Iterate(t, n, [], s, k).state.pieces| == |s.pieces| + 2 * k
    decreases k
  {
    if k > 0 {
      var r := Step(t, n, [], s);
      assert r.Next? && r.state.last == s.last && r.state.text.Some? && |r.state.pieces| == |s.pieces| + 2 by {
        EmptyPatternStep(t, n, s);
      }
      var s' := r.state;
      assert Iterate(t, n, [], s, k) == Iterate(t, n, [], s', k - 1);
      EmptyHighlightNeverExits(t, n, s', k - 1);
    }
  }

  /** A highlight made of a lone combining mark passes the element's
      emptiness test yet normalises to the empty pattern, and the empty
      pattern matches at the start of every text: the loop is entered. */
  lemma MarkOnlyHighlight(t: string)
    ensures [Acute] != [] && Normalize([Acute]) == []
    ensures FindFrom(Normalize(t), Normalize([Acute]), 0) == Some(0)
  {
    NormalizeChar(Acute);
    assert MatchAt(Normalize(t), [], 0);
  }

  /** The leftmost match is the first position that matches. */
  lemma FindFromAt(n: string, p: string, from: nat, i: nat)
    requires from <= i && MatchAt(n, p, i)
    requires forall j: nat :: from <= j < i ==> !MatchAt(n, p, j)
    ensures FindFrom(n, p, from) == Some(i)
  {
  }

  /** A text that starts with the first twelve characters of the marker. */
  const Clash := MarkerHead + "a"

  /** The part of the marker after its leading `__`. */
  const MarkerTail := "CHIGHLIGHT__"

  lemma MarkerParts()
    ensures Marker == MarkerHead + "__"
    ensures MarkerHead + Marker == Marker + MarkerTail
  {
    assert MarkerHead == "__" + "CHIGHLIGHT";
    assert MarkerTail == "CHIGHLIGHT" + "__";
  }

  lemma ClashNormal()
    ensures Normalize(Clash) == Clash
  {
    assert forall i :: 0 <= i < |MarkerHead| ==> Stable(MarkerHead[i]);
    NormalizeStable(MarkerHead);
    NormalizeChar('a');
    NormalizeConcat(MarkerHead, "a");
  }

  /** A one-character pattern matches where that character is, up to case. */
  lemma CharMatch(n: string, c: char, j: nat)
    requires j < |n|
    ensures MatchAt(n, [c], j) <==> Upper(n[j]) == Upper(c)
    ensures Occurs(n, [c], j) <==> n[j] == c
  {
    assert n[j..j + 1] == [n[j]];
    FoldEqPointwise([n[j]], [c]);
  }

  /** A text ending in the only occurrence of a character: the first match
      of that character is the last position. */
  lemma LastCharFound(a: string, c: char)
    requires forall k :: 0 <= k < |a| ==> Upper(a[k]) != Upper(c)
    ensures FindFrom(a + [c], [c], 0) == Some(|a|)
    ensures IndexOf(a + [c], [c]) == Some(|a|)
  {
    var s := a + [c];
    forall j: nat | j < |a|
      ensures !MatchAt(s, [c], j)
    {
      assert s[j] == a[j];
      CharMatch(s, c, j);
    }
    forall j: nat | j < |a|
      ensures !Occurs(s, [c], j)
    {
      assert s[j] == a[j];
      CharMatch(s, c, j);
    }
    CharMatch(s, c, |a|);
    FindFromAt(s, [c], 0, |a|);
    IndexOfAt(s, [c], |a|);
  }

  lemma ClashFirstMatch()
    ensures FindFrom(Clash, "a", 0) == Some(|MarkerHead|)
    ensures IndexOf(Clash, "a") == Some(|MarkerHead|)
  {
    assert forall k :: 0 <= k < |MarkerHead| ==> Upper(MarkerHead[k]) != Upper('a');
    LastCharFound(MarkerHead, 'a');
  }

  /** Splitting a separator followed by a text too short to hold another
      separator. */
  lemma SplitAfterSep(sep: string, tail: string)
    requires sep != [] && |tail| < |sep|
    ensures Split(sep + tail, sep) == [[], tail]
  {
    var r := sep + tail;
    assert Occurs(r, sep, 0) by { assert r[0..|sep|] == sep; }
    IndexOfAt(r, sep, 0);
    assert r[..0] == [] && r[|sep|..] == tail;
    assert Split(tail, sep) == [tail];
  }

  /** The replace puts the marker right after the text's own `__CHIGHLIGHT`,
      and the split then finds the marker at index 0. */
  lemma ClashSplit()
    ensures Split(Replace(Clash, "a", Marker), Marker) == ["", MarkerTail]
  {
    assert Replace(Clash, "a", Marker) == MarkerHead + Marker by {
      ClashFirstMatch();
      assert Clash[..|MarkerHead|] == MarkerHead && Clash[|MarkerHead| + 1..] == [];
    }
    MarkerParts();
    SplitAfterSep(Marker, MarkerTail);
  }

  /** A step that finds a match at `i` and splits the remaining text into
      `parts`. */
  lemma StepWith(t: string, n: string, p: string, s: Loop, i: nat, parts: seq<string>)
    requires FindFrom(n, p, s.last) == Some(i) && s.text.Some? && |parts| > 1
    requires parts == Split(Replace(s.text.value, Substr(t, i, |p|), Marker), Marker)
    ensures Step(t, n, p, s) ==
      Next(Loop(Some(parts[1]), s.pieces + [Plain(parts[0]), Marked(Substr(t, i, |p|))], i + |p|))
  {
  }

  lemma ClashRun()
    ensures Run(Clash, Clash, "a", Start(Clash)) == Shown([Plain(""), Marked("a")], MarkerTail)
  {
    var s0 := Start(Clash);
    var i := |MarkerHead|;
    var s1 := Loop(Some(MarkerTail), [Plain(""), Marked("a")], i + 1);
    assert Substr(Clash, i, 1) == "a";
    assert Step(Clash, Clash, "a", s0) == Next(s1) by {
      ClashFirstMatch();
      ClashSplit();
      StepWith(Clash, Clash, "a", s0, i, ["", MarkerTail]);
    }
    RunNext(Clash, Clash, "a", s0, s1);
    assert Step(Clash, Clash, "a", s1) == Exit;
  }

  lemma ClashRender()
    ensures Render(Clash, "a", false) == Shown([Plain(""), Marked("a")], MarkerTail)
  {
    ClashNormal();
    NormalizeChar('a');
    ClashFirstMatch();
    ClashRun();
  }

  lemma ClashFixed()
    ensures RenderFixed(Clash, "a", false) == Shown([Plain(MarkerHead), Marked("a")], "")
  {
    assert Normalize(Clash) == Clash by { ClashNormal(); }
    assert Normalize("a") == "a" by { NormalizeChar('a'); }
    assert FindFrom(Clash, "a", 0).Some? by { ClashFirstMatch(); }
    assert Matches(Clash, "a") == [|MarkerHead|] by { ClashMatches(); }
    CutSingle(Clash, |MarkerHead|, 1);
    assert Clash[..|MarkerHead|] == MarkerHead && Clash[|MarkerHead|..|MarkerHead| + 1] == "a";
    assert Clash[|MarkerHead| + 1..] == "";
  }

  lemma ClashMatches()
    ensures MatchesFrom(Clash, "a", 0) == [|MarkerHead|]
  {
    ClashFirstMatch();
    MatchesFromCons(Clash, "a", 0, |MarkerHead|);
    assert MatchesFrom(Clash, "a", |MarkerHead| + 1) == [];
  }

  /** Cutting at a single position. */
  lemma CutSingle(t: string, m: nat, len: nat)
    requires m + len <= |t|
    ensures Spaced([m], len, 0, |t|)
    ensures Cut(t, [m], len, 0) == ([Plain(t[..m]), Marked(t[m..m + len])], t[m + len..])
  {
    CutPrepend(t, m, [], len, 0);
    assert [m] + [] == [m];
    assert t[0..m] == t[..m];
    assert Cut(t, [], len, m + len) == ([], t[m + len..]);
    assert [Plain(t[..m]), Marked(t[m..m + len])] + [] == [Plain(t[..m]), Marked(t[m..m + len])];
  }

  /** The text `__CHIGHLIGHTa` highlighted at `a`: the element shows the
      `a` highlighted and then `CHIGHLIGHT__`, losing the leading
      `__CHIGHLIGHT` and inventing a trailing `__`; the corrected render
      keeps the text. */
  lemma SentinelCounterexample()
    ensures Render(Clash, "a", false) == Shown([Plain(""), Marked("a")], MarkerTail)
    ensures Flatten(Render(Clash, "a", false).pieces) + Render(Clash, "a", false).rest != Clash
    ensures RenderFixed(Clash, "a", false) == Shown([Plain(MarkerHead), Marked("a")], "")
  {
    ClashRender();
    ClashFixed();
    assert Flatten([Plain(""), Marked("a")]) == "a" by {
      assert Flatten([Marked("a")]) == "a" + Flatten([]);
    }
    assert ("a" + MarkerTail)[0] != Clash[0];
  }
}
