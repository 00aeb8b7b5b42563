/** Accent-insensitive normalisation: canonical decomposition (Unicode
    Standard Annex #15, form NFD) followed by deleting every character of
    the Combining Diacritical Marks block; and the per-character case
    canonicalisation of a regular expression with the `i` flag.

    Canonical decomposition is modelled for the Latin-1 Supplement letters
    (U+00C0..U+00FF); every other character is its own decomposition. */
module Unicode {
  import opened Outcomes

  const Grave := '\U{0300}'
  const Acute := '\U{0301}'
  const Circumflex := '\U{0302}'
  const Tilde := '\U{0303}'
  const Diaeresis := '\U{0308}'
  const Ring := '\U{030A}'
  const Cedilla := '\U{0327}'

  /** A character of the Combining Diacritical Marks block, U+0300..U+036F. */
  predicate IsMark(c: char) {
    '\U{0300}' <= c <= '\U{036F}'
  }

  predicate NoMarks(s: string) {
    forall i :: 0 <= i < |s| ==> !IsMark(s[i])
  }

  /** The marks of the A and O rows: grave, acute, circumflex, tilde, diaeresis. */
  function RowMark(k: int): char
    requires 0 <= k < 5
  {
    if k == 0 then Grave
    else if k == 1 then Acute
    else if k == 2 then Circumflex
    else if k == 3 then Tilde
    else Diaeresis
  }

  /** The marks of the E, I and U rows, which have no tilde form. */
  function ShortRowMark(k: int): char
    requires 0 <= k < 4
  {
    if k < 3 then RowMark(k) else Diaeresis
  }

  /** The canonical decomposition of a precomposed Latin-1 letter into an
      ASCII base letter and one combining mark; `None` for every character
      that has no decomposition. The upper-case letters are U+00C0..U+00DF
      and the lower-case ones the same offsets from U+00E0. */
  function Latin1Split(c: char): (r: Option<(char, char)>)
    ensures r.Some? ==> IsAsciiLetter(r.value.0) && IsMark(r.value.1)
  {
    if c < '\U{00C0}' || c > '\U{00FF}' then None
    else
      var lower := c >= '\U{00E0}';
      var o := c as int - (if lower then 0xE0 else 0xC0);
      var entry: Option<(char, char)> :=
        if o <= 4 then Some(('A', RowMark(o)))
        else if o == 5 then Some(('A', Ring))
        else if o == 7 then Some(('C', Cedilla))
        else if 8 <= o <= 11 then Some(('E', ShortRowMark(o - 8)))
        else if 12 <= o <= 15 then Some(('I', ShortRowMark(o - 12)))
        else if o == 17 then Some(('N', Tilde))
        else if 18 <= o <= 22 then Some(('O', RowMark(o - 18)))
        else if 25 <= o <= 28 then Some(('U', ShortRowMark(o - 25)))
        else if o == 29 then Some(('Y', Acute))
        else if o == 31 && lower then Some(('Y', Diaeresis))
        else None;
      match entry
      case None => None
      case Some((b, m)) => Some((if lower then (b as int + 32) as char else b, m))
  }

  predicate IsAsciiLetter(c: char) {
    'A' <= c <= 'Z' || 'a' <= c <= 'z'
  }

  /** The canonical decomposition of one character. */
  function Decompose(c: char): (r: string)
    ensures 1 <= |r| <= 2
  {
    match Latin1Split(c)
    case None => [c]
    case Some((b, m)) => [b, m]
  }

  /** Canonical decomposition, character by character. */
  function Nfd(s: string): string {
    if s == [] then [] else Decompose(s[0]) + Nfd(s[1..])
  }

  /** Deletes every combining mark and keeps every other character in
      order. */
  function StripMarks(s: string): (r: string)
    ensures NoMarks(r)
    ensures |r| <= |s|
    ensures NoMarks(s) ==> r == s
    ensures !NoMarks(s) ==> |r| < |s|
  {
    if s == [] then []
    else if IsMark(s[0]) then StripMarks(s[1..])
    else [s[0]] + StripMarks(s[1..])
  }

  /** The accent-free form compared by every search in the widgets. */
  function Normalize(s: string): (r: string)
    ensures NoMarks(r)
  {
    StripMarks(Nfd(s))
  }

  /** What `Normalize` keeps of a character that is not a mark: its base
      letter when it decomposes, otherwise itself. */
  function Base(c: char): char {
    match Latin1Split(c)
    case None => c
    case Some((b, _)) => b
  }

  /** A character left unchanged by normalisation. */
  predicate Stable(c: char) {
    !IsMark(c) && Latin1Split(c).None?
  }

  /** The upper-case form used by a case-insensitive regular expression:
      the ASCII lower-case letters and U+00E0 to U+00FE, except U+00F7,
      map to their capitals 32 places earlier; every other character,
      U+00B5 and U+00FF included, maps to itself. */
  function Upper(c: char): (r: char)
    ensures IsMark(r) <==> IsMark(c)
    ensures ('a' <= c <= 'z') ==> 'A' <= r <= 'Z'
  {
    if 'a' <= c <= 'z' || ('\U{00E0}' <= c <= '\U{00FE}' && c != '\U{00F7}') then (c as int - 32) as char
    else c
  }

  /** Equal up to letter case, character by character. */
  predicate FoldEq(a: string, b: string) {
    |a| == |b| && (a == [] || (Upper(a[0]) == Upper(b[0]) && FoldEq(a[1..], b[1..])))
  }

  /** `FoldEq` compares position by position. */
  lemma {:induction false} FoldEqPointwise(a: string, b: string)
    ensures FoldEq(a, b) <==> |a| == |b| && forall k :: 0 <= k < |a| ==> Upper(a[k]) == Upper(b[k])
  {
    if a != [] && |a| == |b| {
      FoldEqPointwise(a[1..], b[1..]);
      if forall k :: 0 <= k < |a| ==> Upper(a[k]) == Upper(b[k]) {
        assert forall k :: 0 <= k < |a| - 1 ==> Upper(a[1..][k]) == Upper(b[1..][k]) by {
          forall k | 0 <= k < |a| - 1 ensures Upper(a[1..][k]) == Upper(b[1..][k]) {
            assert a[1..][k] == a[k + 1] && b[1..][k] == b[k + 1];
          }
        }
      }
      if FoldEq(a, b) {
        forall k | 0 <= k < |a| ensures Upper(a[k]) == Upper(b[k]) {
          if k > 0 {
            assert a[1..][k - 1] == a[k] && b[1..][k - 1] == b[k];
          }
        }
      }
    }
  }

  lemma {:induction false} StripMarksConcat(a: string, b: string)
    ensures StripMarks(a + b) == StripMarks(a) + StripMarks(b)
  {
    if a != [] {
      assert (a + b)[0] == a[0];
      assert (a + b)[1..] == a[1..] + b;
      StripMarksConcat(a[1..], b);
    } else {
      assert a + b == b;
    }
  }

  lemma {:induction false} NfdConcat(a: string, b: string)
    ensures Nfd(a + b) == Nfd(a) + Nfd(b)
  {
    if a != [] {
      assert (a + b)[0] == a[0];
      assert (a + b)[1..] == a[1..] + b;
      NfdConcat(a[1..], b);
    } else {
      assert a + b == b;
    }
  }

  /** Normalisation works piece by piece. */
  lemma NormalizeConcat(a: string, b: string)
    ensures Normalize(a + b) == Normalize(a) + Normalize(b)
  {
    NfdConcat(a, b);
    StripMarksConcat(Nfd(a), Nfd(b));
  }

  /** A combining mark normalises to nothing; any other character to its
      base letter. */
  lemma NormalizeChar(c: char)
    ensures Normalize([c]) == if IsMark(c) then [] else [Base(c)]
  {
    assert [c][1..] == [];
    assert Nfd([c]) == Decompose(c);
    match Latin1Split(c)
    case None =>
    case Some((b, m)) =>
      assert Decompose(c) == [b] + [m];
      StripMarksConcat([b], [m]);
  }

  /** Marks removed, the rest kept in order: deleting the marks a second
      time changes nothing. */
  lemma MarkRemovalIdempotent(s: string)
    ensures StripMarks(StripMarks(s)) == StripMarks(s)
  {
  }

  /** Normalisation never lengthens a string, and it keeps the length
      exactly when the string has no combining marks. */
  lemma {:induction false} NormalizeLength(s: string)
    ensures |Normalize(s)| <= |s|
    ensures |Normalize(s)| == |s| <==> NoMarks(s)
  {
    if s != [] {
      assert s == [s[0]] + s[1..];
      NormalizeConcat([s[0]], s[1..]);
      NormalizeChar(s[0]);
      NormalizeLength(s[1..]);
      if !NoMarks(s) && NoMarks(s[1..]) {
        assert IsMark(s[0]);
      }
    }
  }

  /** Without combining marks, normalisation replaces every character by
      its base letter in place. */
  lemma {:induction false} NormalizeInPlace(s: string)
    requires NoMarks(s)
    ensures |Normalize(s)| == |s|
    ensures forall k :: 0 <= k < |s| ==> Normalize(s)[k] == Base(s[k])
  {
    if s != [] {
      assert s == [s[0]] + s[1..];
      NormalizeConcat([s[0]], s[1..]);
      NormalizeChar(s[0]);
      NormalizeInPlace(s[1..]);
      forall k | 0 <= k < |s|
        ensures Normalize(s)[k] == Base(s[k])
      {
        if k > 0 {
          assert s[1..][k - 1] == s[k];
        }
      }
    }
  }

  /** A string of stable characters is its own normal form. */
  lemma {:induction false} NormalizeStable(s: string)
    requires forall i :: 0 <= i < |s| ==> Stable(s[i])
    ensures Normalize(s) == s
  {
    if s != [] {
      assert s == [s[0]] + s[1..];
      NormalizeConcat([s[0]], s[1..]);
      NormalizeChar(s[0]);
      NormalizeStable(s[1..]);
    }
  }

  /** Every character of a normal form is stable. */
  lemma {:induction false} NormalFormStable(s: string)
    ensures forall i :: 0 <= i < |Normalize(s)| ==> Stable(Normalize(s)[i])
  {
    if s != [] {
      assert s == [s[0]] + s[1..];
      NormalizeConcat([s[0]], s[1..]);
      NormalizeChar(s[0]);
      NormalFormStable(s[1..]);
      var c := s[0];
      if !IsMark(c) && Latin1Split(c).Some? {
        var b := Latin1Split(c).value.0;
        assert Base(c) == b && IsAsciiLetter(b);
        assert Latin1Split(b).None?;
      }
    }
  }

  /** Normalising twice is normalising once. */
  lemma NormalizeIdempotent(s: string)
    ensures Normalize(Normalize(s)) == Normalize(s)
  {
    NormalFormStable(s);
    NormalizeStable(Normalize(s));
  }

  /** In a string without marks, a slice normalises to the same slice of
      the normal form. */
  lemma NormalizeSlice(s: string, a: nat, b: nat)
    requires NoMarks(s) && a <= b <= |s|
    ensures b <= |Normalize(s)| && Normalize(s[a..b]) == Normalize(s)[a..b]
  {
    NormalizeInPlace(s);
    assert NoMarks(s[a..b]);
    NormalizeInPlace(s[a..b]);
    forall k | 0 <= k < b - a
      ensures Normalize(s[a..b])[k] == Normalize(s)[a..b][k]
    {
      assert s[a..b][k] == s[a + k];
    }
  }
}
