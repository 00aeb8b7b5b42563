/** Escaping a search string before it is compiled into a regular
    expression: a backslash goes in front of every syntax character, so the
    compiled pattern matches the search text literally. */
module RegexEscape {

  /** The characters `. * + ? ^ $ { } ( ) | [ ] \` that the escape step
      prefixes with a backslash. */
  predicate IsSyntax(c: char) {
    c in ".*+?^${}()|[]\\"
  }

  function SyntaxCount(s: string): nat {
    if s == [] then 0 else (if IsSyntax(s[0]) then 1 else 0) + SyntaxCount(s[1..])
  }

  /** Puts a backslash in front of every syntax character and keeps every
      other character. */
  function Escape(s: string): (r: string)
    ensures |r| == |s| + SyntaxCount(s)
    ensures SyntaxCount(s) == 0 ==> r == s
  {
    if s == [] then []
    else (if IsSyntax(s[0]) then ['\\', s[0]] else [s[0]]) + Escape(s[1..])
  }

  /** Deletes the backslash in front of each escaped syntax character. */
  function Unescape(s: string): string {
    if s == [] then []
    else if |s| >= 2 && s[0] == '\\' && IsSyntax(s[1]) then [s[1]] + Unescape(s[2..])
    else [s[0]] + Unescape(s[1..])
  }

  /** One unit of a regular-expression pattern: a character matched
      literally, or an operator, anchor, class or escape with a meaning of
      its own. */
  datatype Atom = Lit(c: char) | Special(c: char)

  /** Reads a pattern (non-Unicode mode) into atoms: an escaped syntax
      character is literal, a bare syntax character or any other escape is
      special, every other character is literal. */
  function Atoms(p: string): seq<Atom> {
    if p == [] then []
    else if p[0] == '\\' && |p| >= 2 && IsSyntax(p[1]) then [Lit(p[1])] + Atoms(p[2..])
    else if IsSyntax(p[0]) then [Special(p[0])] + Atoms(p[1..])
    else [Lit(p[0])] + Atoms(p[1..])
  }

  /** The atoms of a purely literal pattern for `s`. */
  function Literals(s: string): (r: seq<Atom>)
    ensures |r| == |s|
    ensures forall k :: 0 <= k < |s| ==> r[k] == Lit(s[k])
  {
    if s == [] then [] else [Lit(s[0])] + Literals(s[1..])
  }

  /** Escaping is undone by deleting those backslashes. */
  lemma {:induction false} UnescapeEscape(s: string)
    ensures Unescape(Escape(s)) == s
  {
    if s != [] {
      var head := if IsSyntax(s[0]) then ['\\', s[0]] else [s[0]];
      assert Escape(s) == head + Escape(s[1..]);
      UnescapeEscape(s[1..]);
      if IsSyntax(s[0]) {
        assert (head + Escape(s[1..]))[2..] == Escape(s[1..]);
      } else {
        assert s[0] != '\\';
        assert (head + Escape(s[1..]))[1..] == Escape(s[1..]);
      }
    }
  }

  /** An escaped string is read back as a pattern of literal atoms, one per
      character of the original: no character of the search can act as an
      operator. */
  lemma {:induction false} EscapedIsLiteral(s: string)
    ensures Atoms(Escape(s)) == Literals(s)
  {
    if s != [] {
      var head := if IsSyntax(s[0]) then ['\\', s[0]] else [s[0]];
      var e := head + Escape(s[1..]);
      assert Escape(s) == e;
      EscapedIsLiteral(s[1..]);
      if IsSyntax(s[0]) {
        assert e[2..] == Escape(s[1..]);
      } else {
        assert s[0] != '\\';
        assert e[1..] == Escape(s[1..]);
      }
    }
  }

}
