/** The URL builders of `casper-select-lit` for server-side search:
    `_applyFiltersURL` (the resource URL of the socket lazy load) and
    `_loadMoreItemsUrl` (the paged URL of the old lazy load). Both turn the
    search into SQL-like `unaccent(field::TEXT) ILIKE unaccent('...')`
    clauses over the configured filter fields, combined with the custom
    filters, or into a PostgreSQL `to_tsquery` prefix query, and append the
    result as a `filter="(...)"` query parameter. */
module FilterUrl {
  import opened Outcomes
  import opened Strings
  import opened Values
  import opened Sequences

  // ----- escaping the search -----

  /** Expands a `replace` template for the match `m`: `$&` stands for the
      match, every other character for itself. */
  function Expand(template: string, m: string): string {
    if template == [] then []
    else if |template| >= 2 && template[0] == '$' && template[1] == '&' then m + Expand(template[2..], m)
    else [template[0]] + Expand(template[1..], m)
  }

  /** `s.replace(/[...]/g, template)` for a character class `cls`. */
  function ReplaceClass(s: string, cls: set<char>, template: string): string {
    if s == [] then []
    else (if s[0] in cls then Expand(template, [s[0]]) else [s[0]]) + ReplaceClass(s[1..], cls, template)
  }

  /** The template the source writes `'\$&'`. In a JavaScript string
      literal `\$` is a plain `$`, so the template is `$&`: the match itself. */
  const LikeTemplate := "$&"

  /** The characters the source means to escape for `ILIKE`. */
  const LikeSpecial: set<char> := {'%', '\\'}

  /** The search as both builders escape it: `%` and `\` replaced through
      `LikeTemplate`, then every `&` replaced by `_`. */
  function EscapeSearch(search: string): string {
    ReplaceChar(ReplaceClass(search, LikeSpecial, LikeTemplate), '&', "_")
  }

  /** Replacing a class of characters by the template `$&` changes nothing. */
  lemma {:induction false} ReplaceClassIdentity(s: string, cls: set<char>)
    ensures ReplaceClass(s, cls, LikeTemplate) == s
  {
    if s != [] {
      assert Expand(LikeTemplate, [s[0]]) == [s[0]] by {
        assert LikeTemplate[2..] == [];
        assert [s[0]] + [] == [s[0]];
      }
      ReplaceClassIdentity(s[1..], cls);
      assert [s[0]] + s[1..] == s;
    }
  }

  /** `ReplaceChar` works character by character. */
  lemma {:induction false} ReplaceCharPointwise(s: string, c: char, d: char)
    ensures |ReplaceChar(s, c, [d])| == |s|
    ensures forall i :: 0 <= i < |s| ==> ReplaceChar(s, c, [d])[i] == if s[i] == c then d else s[i]
  {
    if s != [] {
      ReplaceCharPointwise(s[1..], c, d);
      var r := ReplaceChar(s, c, [d]);
      assert r == [if s[0] == c then d else s[0]] + ReplaceChar(s[1..], c, [d]);
      forall i | 0 < i < |s|
        ensures r[i] == if s[i] == c then d else s[i]
      {
        assert s[i] == s[1..][i - 1];
      }
    }
  }

  /** The escaping leaves `%` and `\` as they are (the template re-inserts
      the match) and only turns every `&` into `_`; so the escaped search
      has no `&`. */
  lemma EscapeSearchSpec(search: string)
    ensures ReplaceClass(search, LikeSpecial, LikeTemplate) == search
    ensures |EscapeSearch(search)| == |search|
    ensures forall i :: 0 <= i < |search| ==>
      EscapeSearch(search)[i] == if search[i] == '&' then '_' else search[i]
    ensures '&' !in EscapeSearch(search)
  {
    ReplaceClassIdentity(search, LikeSpecial);
    ReplaceCharPointwise(search, '&', '_');
  }

  // ----- building the filter -----

  /** An entry of `lazyLoadFilterFields`: a field name; a plain object with
      `field` and `filterType`; or any other value that is not `null` or
      `undefined` (a number, an array, an instance of a class), with what
      its `field` property reads. */
  datatype FilterField =
    | Name(name: string)
    | Typed(field: Value, filterType: Value)
    | NotPlain(field: Value)

  /** The name compared with the keys of `lazyLoadCustomFilters`. */
  function Key(f: FilterField): Value {
    match f
    case Name(n) => Str(n)
    case Typed(field, _) => field
    case NotPlain(field) => field
  }

  /** The field is one of the custom filters' keys and gets no clause. */
  predicate Excluded(f: FilterField, custom: seq<(string, Value)>) {
    exists k :: 0 <= k < |custom| && Key(f) == Str(custom[k].0)
  }

  /** `unaccent(field::TEXT) ILIKE unaccent('pattern')`. */
  function LikeClause(field: string, pattern: string): string {
    "unaccent(" + field + "::TEXT) ILIKE unaccent('" + pattern + "')"
  }

  /** The `ILIKE` pattern of a filter type: the search exactly, as a
      suffix, anywhere, or as a prefix; `None` for any other type. */
  function TypedPattern(filterType: Value, esc: string): Option<string> {
    if filterType == Str("exact") then Some(esc)
    else if filterType == Str("endsWith") then Some("%" + esc)
    else if filterType == Str("contains") then Some("%" + esc + "%")
    else if filterType == Str("startsWith") then Some(esc + "%")
    else None
  }

  /** The clause of one filter field, or `undefined`. A field name gets a
      contains clause. */
  function Clause(f: FilterField, esc: string): Option<string> {
    match f
    case Name(n) => Some(LikeClause(n, "%" + esc + "%"))
    case Typed(field, filterType) =>
      if Truthy(field) && Truthy(filterType) then
        match TypedPattern(filterType, esc)
        case Some(p) => Some(LikeClause(ToString(field), p))
        case None => None
      else None
    case NotPlain(_) => None
  }

  /** The clauses of the fields that are not custom-filter keys, in order;
      an `undefined` clause is joined as the empty string. */
  function FieldClauses(fields: seq<FilterField>, custom: seq<(string, Value)>, esc: string): seq<string>
  {
    if fields == [] then []
    else if Excluded(fields[0], custom) then FieldClauses(fields[1..], custom, esc)
    else [Clause(fields[0], esc).GetOr([])] + FieldClauses(fields[1..], custom, esc)
  }

  /** The fields that are not custom-filter keys, in order: what the
      `filter` step keeps. */
  function NotExcluded(fields: seq<FilterField>, custom: seq<(string, Value)>): (r: seq<FilterField>)
    ensures Subsequence(r, fields)
    ensures forall k :: 0 <= k < |r| ==> !Excluded(r[k], custom)
    ensures forall j :: 0 <= j < |fields| && !Excluded(fields[j], custom) ==> fields[j] in r
  {
    if fields == [] then []
    else
      assert forall k :: 0 < k < |fields| ==> fields[k] == fields[1..][k - 1];
      var rest := NotExcluded(fields[1..], custom);
      if Excluded(fields[0], custom) then rest
      else
        assert ([fields[0]] + rest)[1..] == rest;
        [fields[0]] + rest
  }

  /** The filter keeps each field that is not a key as often as the list
      holds it, and no key. */
  lemma {:induction false} NotExcludedCounts(fields: seq<FilterField>, custom: seq<(string, Value)>)
    ensures var r := NotExcluded(fields, custom);
      forall x :: multiset(r)[x] == (if !Excluded(x, custom) then multiset(fields)[x] else 0)
  {
    if fields != [] {
      NotExcludedCounts(fields[1..], custom);
      var keep := x => !Excluded(x, custom);
      FilterCountsCons(keep, fields, NotExcluded(fields[1..], custom), NotExcluded(fields, custom));
    }
  }

  /** The clause of each field in `fs`, `undefined` ones as the empty
      string: the `map` step followed by `join`'s reading of `undefined`. */
  function ClauseList(fs: seq<FilterField>, esc: string): (r: seq<string>)
    ensures |r| == |fs|
    ensures forall i :: 0 <= i < |fs| ==> r[i] == Clause(fs[i], esc).GetOr([])
  {
    seq(|fs|, i requires 0 <= i < |fs| => Clause(fs[i], esc).GetOr([]))
  }

  /** A single field gets exactly its own clause. */
  lemma ClauseListOne(f: FilterField, esc: string)
    ensures ClauseList([f], esc) == [Clause(f, esc).GetOr([])]
  {
  }

  /** The `map` step works field by field: the clauses of two lists of
      fields are those of the first followed by those of the second. */
  lemma ClauseListAppend(a: seq<FilterField>, b: seq<FilterField>, esc: string)
    ensures ClauseList(a + b, esc) == ClauseList(a, esc) + ClauseList(b, esc)
  {
    var l, r := ClauseList(a + b, esc), ClauseList(a, esc) + ClauseList(b, esc);
    forall i | 0 <= i < |l|
      ensures l[i] == r[i]
    {
      if i >= |a| { assert (a + b)[i] == b[i - |a|]; }
    }
  }

  /** `s` is the string of some truthy value in `custom`. */
  predicate TruthyString(s: string, custom: seq<(string, Value)>)
  {
    exists j :: 0 <= j < |custom| && Truthy(custom[j].1) && s == ToString(custom[j].1)
  }

  /** Every string in `r` is the string of a truthy value in `custom`. */
  predicate FromTruthy(r: seq<string>, custom: seq<(string, Value)>)
  {
    forall k :: 0 <= k < |r| ==> TruthyString(r[k], custom)
  }

  /** The string of every truthy value in `custom` is in `r`. */
  predicate HasTruthy(r: seq<string>, custom: seq<(string, Value)>)
  {
    forall j :: 0 <= j < |custom| && Truthy(custom[j].1) ==> ToString(custom[j].1) in r
  }

  /** The values of `lazyLoadCustomFilters` that are truthy, as strings. */
  function CustomValues(custom: seq<(string, Value)>): (r: seq<string>)
    ensures |r| <= |custom|
    ensures FromTruthy(r, custom)
    ensures HasTruthy(r, custom)
  {
    if custom == [] then []
    else
      var rest := CustomValues(custom[1..]);
      var r := if Truthy(custom[0].1) then [ToString(custom[0].1)] + rest else rest;
      FromTruthyStep(custom, rest, r);
      HasTruthyStep(custom, rest, r);
      r
  }

  /** Putting one custom filter in front keeps `FromTruthy`. */
  lemma FromTruthyStep(custom: seq<(string, Value)>, rest: seq<string>, r: seq<string>)
    requires custom != [] && FromTruthy(rest, custom[1..])
    requires r == if Truthy(custom[0].1) then [ToString(custom[0].1)] + rest else rest
    ensures FromTruthy(r, custom)
  {
    var t := Truthy(custom[0].1);
    forall k | 0 <= k < |r|
      ensures TruthyString(r[k], custom)
    {
      if t && k == 0 {
        assert Truthy(custom[0].1) && r[k] == ToString(custom[0].1);
      } else {
        var k' := if t then k - 1 else k;
        assert r[k] == rest[k'];
        assert TruthyString(rest[k'], custom[1..]);
        var j :| 0 <= j < |custom[1..]| && Truthy(custom[1..][j].1) && rest[k'] == ToString(custom[1..][j].1);
        assert custom[j + 1] == custom[1..][j];
      }
    }
    assert FromTruthy(r, custom);
  }

  /** Putting one custom filter in front keeps `HasTruthy`. */
  lemma HasTruthyStep(custom: seq<(string, Value)>, rest: seq<string>, r: seq<string>)
    requires custom != [] && HasTruthy(rest, custom[1..])
    requires r == if Truthy(custom[0].1) then [ToString(custom[0].1)] + rest else rest
    ensures HasTruthy(r, custom)
  {
    forall j | 0 <= j < |custom| && Truthy(custom[j].1)
      ensures ToString(custom[j].1) in r
    {
      if j > 0 {
        assert custom[j] == custom[1..][j - 1];
        assert ToString(custom[1..][j - 1].1) in rest;
      }
    }
    assert HasTruthy(r, custom);
  }

  /** One custom filter contributes its string when its value is truthy,
      and nothing otherwise. */
  lemma CustomValuesOne(key: string, v: Value)
    ensures CustomValues([(key, v)]) == if Truthy(v) then [ToString(v)] else []
  {
    assert [(key, v)][1..] == [];
  }

  /** The filter works entry by entry: the values of two lists of custom
      filters are those of the first followed by those of the second, so
      each truthy value is kept once, in key order. */
  lemma {:induction false} CustomValuesAppend(c1: seq<(string, Value)>, c2: seq<(string, Value)>)
    ensures CustomValues(c1 + c2) == CustomValues(c1) + CustomValues(c2)
  {
    if c1 == [] {
      assert c1 + c2 == c2;
    } else {
      assert (c1 + c2)[0] == c1[0];
      assert (c1 + c2)[1..] == c1[1..] + c2;
      CustomValuesAppend(c1[1..], c2);
    }
  }

  /** The custom filters joined with ` AND `. */
  function CustomParams(custom: seq<(string, Value)>): string {
    Join(CustomValues(custom), " AND ")
  }

  /** The search tokens after the `forEach` of the TSV mode: a non-empty
      token gets `:*`, and ` & ` when the next token exists and is
      non-empty; an empty token stays empty. */
  function TsvPieces(tokens: seq<string>): (r: seq<string>)
    ensures |r| == |tokens|
    ensures forall i {:trigger r[i]} :: 0 <= i < |tokens| ==>
      r[i] == if tokens[i] == [] then [] else tokens[i] + ":*" + (if i + 1 < |tokens| && tokens[i + 1] != [] then " & " else [])
  {
    if tokens == [] then []
    else
      var t := tokens[0];
      var piece := if t == [] then [] else t + ":*" + (if |tokens| > 1 && tokens[1] != [] then " & " else []);
      assert forall j :: 0 <= j < |tokens| - 1 ==> tokens[1..][j] == tokens[j + 1];
      [piece] + TsvPieces(tokens[1..])
  }

  /** The `to_tsquery` text: the pieces joined with nothing between them. */
  function TsvQuery(tokens: seq<string>): string {
    Join(TsvPieces(tokens), "")
  }

  /** The filter of the TSV mode. */
  function TsvFilter(search: string): string {
    "tsv @@ to_tsquery('portuguese', unaccent('" + TsvQuery(Split(EscapeSearch(search), " ")) + "'))"
  }

  /** The filter text both builders compute: the custom filters, then, when
      there is a search and a field list, the field clauses joined with
      ` OR ` (parenthesised after the custom filters); in the TSV mode the
      prefix query alone. `_loadMoreItemsUrl` has no TSV mode. */
  function FilterParams(custom: seq<(string, Value)>, fields: Option<seq<FilterField>>, useTsv: bool, search: string): string {
    var base := CustomParams(custom);
    if search != [] && fields.Some? && !useTsv then
      var clauses := Join(FieldClauses(fields.value, custom, EscapeSearch(search)), " OR ");
      if clauses == [] then base
      else if base == [] then clauses
      else base + " AND (" + clauses + ")"
    else if search != [] && useTsv then TsvFilter(search)
    else base
  }

  /** Every non-empty token becomes a prefix term; when no token is empty
      the terms are joined with ` & `. */
  function PrefixTerms(tokens: seq<string>): (r: seq<string>)
    ensures |r| == |tokens|
    ensures forall i :: 0 <= i < |tokens| ==> r[i] == tokens[i] + ":*"
  {
    if tokens == [] then [] else [tokens[0] + ":*"] + PrefixTerms(tokens[1..])
  }

  /** Without empty tokens (no leading, trailing or doubled space) the TSV
      query is the conjunction of the tokens as prefixes. */
  lemma {:induction false} TsvQueryConjunction(tokens: seq<string>)
    requires forall i :: 0 <= i < |tokens| ==> tokens[i] != []
    ensures TsvQuery(tokens) == Join(PrefixTerms(tokens), " & ")
  {
    if |tokens| == 1 {
      assert tokens[1..] == [];
      assert tokens[0] + ":*" + [] == tokens[0] + ":*";
      assert TsvPieces(tokens) == [tokens[0] + ":*"];
      assert PrefixTerms(tokens) == [tokens[0] + ":*"];
    } else if |tokens| > 1 {
      var rest := tokens[1..];
      assert rest[0] == tokens[1];
      TsvQueryConjunction(rest);
      var piece := tokens[0] + ":*" + " & ";
      assert TsvPieces(tokens) == [piece] + TsvPieces(rest);
      JoinCons(piece, TsvPieces(rest), "");
      JoinCons(tokens[0] + ":*", PrefixTerms(rest), " & ");
      assert PrefixTerms(tokens) == [tokens[0] + ":*"] + PrefixTerms(rest);
      assert piece + "" + Join(TsvPieces(rest), "") == tokens[0] + ":*" + " & " + Join(PrefixTerms(rest), " & ");
    }
  }

  /** An empty token between two words leaves them without ` & `. */
  lemma TsvDoubleSpace()
    ensures TsvQuery(["a", "", "b"]) == "a:*b:*"
  {
    var p := TsvPieces(["a", "", "b"]);
    assert "a" + ":*" + [] == "a:*";
    assert "b" + ":*" + [] == "b:*";
    assert p == ["a:*"] + ["", "b:*"];
    assert ["", "b:*"] == [""] + ["b:*"];
    JoinCons("", ["b:*"], "");
    JoinCons("a:*", ["", "b:*"], "");
  }

  /** The TSV mode replaces the whole filter: neither the custom filters
      nor the field list take part. */
  lemma TsvIgnoresFilters(c1: seq<(string, Value)>, c2: seq<(string, Value)>,
                          f1: Option<seq<FilterField>>, f2: Option<seq<FilterField>>, search: string)
    requires search != []
    ensures FilterParams(c1, f1, true, search) == FilterParams(c2, f2, true, search) == TsvFilter(search)
  {
  }

  /** The clauses are those of the fields the `filter` step keeps, in
      order: one per field that is not a custom-filter key, so never more
      clauses than fields. */
  lemma {:induction false} FieldClausesKept(fields: seq<FilterField>, custom: seq<(string, Value)>, esc: string)
    ensures FieldClauses(fields, custom, esc) == ClauseList(NotExcluded(fields, custom), esc)
    ensures |FieldClauses(fields, custom, esc)| <= |fields|
  {
    if fields != [] {
      FieldClausesKept(fields[1..], custom, esc);
      var rest := NotExcluded(fields[1..], custom);
      if !Excluded(fields[0], custom) {
        assert NotExcluded(fields, custom) == [fields[0]] + rest;
        assert ClauseList([fields[0]] + rest, esc) == [Clause(fields[0], esc).GetOr([])] + ClauseList(rest, esc);
      }
    }
  }

  /** Fields named by a custom filter get no clause; the others get one
      each, in order. */
  lemma {:induction false} FieldClausesSpec(fields: seq<FilterField>, custom: seq<(string, Value)>, esc: string)
    ensures (forall i :: 0 <= i < |fields| ==> Excluded(fields[i], custom)) ==> FieldClauses(fields, custom, esc) == []
    ensures (forall i :: 0 <= i < |fields| ==> !Excluded(fields[i], custom)) ==>
      FieldClauses(fields, custom, esc) == seq(|fields|, i requires 0 <= i < |fields| => Clause(fields[i], esc).GetOr([]))
  {
    if fields != [] {
      FieldClausesSpec(fields[1..], custom, esc);
      assert forall i :: 1 <= i < |fields| ==> fields[i] == fields[1..][i - 1];
    }
  }

  /** In the non-TSV mode the custom filters always lead the filter. */
  lemma CustomFiltersLead(custom: seq<(string, Value)>, fields: Option<seq<FilterField>>, search: string)
    ensures var base := CustomParams(custom);
      var r := FilterParams(custom, fields, false, search);
      base != [] ==> |base| <= |r| && r[..|base|] == base
  {
  }

  // ----- the URL -----

  /** The percent-encoding of one character: `%`, `'` and `&` as `%25`,
      `%27` and `%26` (section 2.1 of RFC 3986); every other character is
      itself. */
  function EncodeChar(c: char): string {
    if c == '%' then "%25" else if c == '\'' then "%27" else if c == '&' then "%26" else [c]
  }

  function EncodeChars(s: string): string {
    if s == [] then [] else EncodeChar(s[0]) + EncodeChars(s[1..])
  }

  /** The three global replaces, `%` first, then `'`, then `&`. */
  function Encode(s: string): string {
    ReplaceChar(ReplaceChar(ReplaceChar(s, '%', "%25"), '\'', "%27"), '&', "%26")
  }

  /** Undoes the encoding: reads `%25`, `%27` and `%26` as one character. */
  function Decode(t: string): string {
    if t == [] then []
    else if |t| >= 3 && t[0] == '%' && t[1] == '2' && t[2] == '5' then "%" + Decode(t[3..])
    else if |t| >= 3 && t[0] == '%' && t[1] == '2' && t[2] == '7' then "'" + Decode(t[3..])
    else if |t| >= 3 && t[0] == '%' && t[1] == '2' && t[2] == '6' then "&" + Decode(t[3..])
    else [t[0]] + Decode(t[1..])
  }

  /** The three replaces in that order encode each character once: the
      `%` of an inserted `%27` or `%26` is not encoded again. */
  lemma {:induction false} EncodePerChar(s: string)
    ensures Encode(s) == EncodeChars(s)
  {
    if s != [] {
      var c, rest := s[0], s[1..];
      var r1 := ReplaceChar(s, '%', "%25");
      assert r1 == ReplaceChar([c], '%', "%25") + ReplaceChar(rest, '%', "%25") by {
        assert [c][1..] == [];
      }
      ReplaceCharConcat(ReplaceChar([c], '%', "%25"), ReplaceChar(rest, '%', "%25"), '\'', "%27");
      var r2 := ReplaceChar(r1, '\'', "%27");
      var head2 := ReplaceChar(ReplaceChar([c], '%', "%25"), '\'', "%27");
      ReplaceCharConcat(head2, ReplaceChar(ReplaceChar(rest, '%', "%25"), '\'', "%27"), '&', "%26");
      assert ReplaceChar(head2, '&', "%26") == EncodeChar(c) by {
        EncodeCharSteps(c);
      }
      EncodePerChar(rest);
    }
  }

  lemma EncodeCharSteps(c: char)
    ensures ReplaceChar(ReplaceChar(ReplaceChar([c], '%', "%25"), '\'', "%27"), '&', "%26") == EncodeChar(c)
  {
    assert [c][1..] == [];
    if c == '%' {
      assert ReplaceChar("%25", '\'', "%27") == "%25" by { assert '\'' !in "%25"; }
      assert ReplaceChar("%25", '&', "%26") == "%25" by { assert '&' !in "%25"; }
    } else if c == '\'' {
      assert ReplaceChar("%27", '&', "%26") == "%27" by { assert '&' !in "%27"; }
    } else if c == '&' {
    }
  }

  /** Decoding the encoding gives back the text. */
  lemma {:induction false} DecodeEncode(s: string)
    ensures Decode(Encode(s)) == s
  {
    EncodePerChar(s);
    DecodeEncodeChars(s);
  }

  lemma {:induction false} DecodeEncodeChars(s: string)
    ensures Decode(EncodeChars(s)) == s
  {
    if s != [] {
      var c, rest := s[0], s[1..];
      var t := EncodeChar(c) + EncodeChars(rest);
      assert EncodeChars(s) == t;
      DecodeEncodeChars(rest);
      if c == '%' || c == '\'' || c == '&' {
        assert t[3..] == EncodeChars(rest);
      } else {
        assert t[1..] == EncodeChars(rest);
      }
      assert [c] + rest == s;
    }
  }

  /** An encoded text: a raw `%` only ever starts `%25`, `%26` or `%27`,
      and there is no raw `'` or `&`. */
  predicate WellEncoded(t: string) {
    && (forall i :: 0 <= i < |t| ==> t[i] != '\'' && t[i] != '&')
    && (forall i :: 0 <= i < |t| && t[i] == '%' ==> i + 2 < |t| && t[i + 1] == '2' && t[i + 2] in "567")
  }

  lemma {:induction false} EncodeCharsWell(s: string)
    ensures WellEncoded(EncodeChars(s))
  {
    if s != [] {
      EncodeCharsWell(s[1..]);
      var h, t := EncodeChar(s[0]), EncodeChars(s[1..]);
      assert WellEncoded(h);
      WellEncodedConcat(h, t);
    }
  }

  lemma WellEncodedConcat(a: string, b: string)
    requires WellEncoded(a) && WellEncoded(b)
    ensures WellEncoded(a + b)
  {
    var t := a + b;
    forall i | 0 <= i < |t| && t[i] == '%'
      ensures i + 2 < |t| && t[i + 1] == '2' && t[i + 2] in "567"
    {
      if i < |a| {
        assert a[i] == '%';
      } else {
        assert b[i - |a|] == '%';
      }
    }
  }

  /** The encoding leaves no raw `'` or `&`, every `%` starts an escape,
      and decoding it gives back the text. */
  lemma EncodeSpec(s: string)
    ensures WellEncoded(Encode(s))
    ensures Decode(Encode(s)) == s
  {
    EncodePerChar(s);
    EncodeCharsWell(s);
    DecodeEncode(s);
  }

  /** The separator before appended parameters: `&` when the resource
      already has a query, else `?`. */
  function QuerySeparator(resource: string): string {
    if '?' in resource then "&" else "?"
  }

  /** The filter parameter. */
  function FilterParam(filter: string): string {
    "filter=\"(" + filter + ")\""
  }

  /** `_applyFiltersURL`: the original resource when there is no filter;
      otherwise the resource with the filter parameter appended, the whole
      URL then encoded. */
  function ApplyFiltersUrl(resource: string, custom: seq<(string, Value)>, fields: Option<seq<FilterField>>,
                           useTsv: bool, search: string): string {
    var filter := FilterParams(custom, fields, useTsv, search);
    if filter != [] then Encode(resource + QuerySeparator(resource) + FilterParam(filter))
    else resource
  }

  /** With a filter, the URL decodes to the resource followed by the filter
      parameter, and has no raw `'` or `&` left: the `&` that joins the
      parameter to an existing query is encoded too. */
  lemma ApplyFiltersUrlSpec(resource: string, custom: seq<(string, Value)>, fields: Option<seq<FilterField>>,
                            useTsv: bool, search: string)
    ensures var filter := FilterParams(custom, fields, useTsv, search);
      var r := ApplyFiltersUrl(resource, custom, fields, useTsv, search);
      && (filter == [] ==> r == resource)
      && (filter != [] ==> WellEncoded(r) && Decode(r) == resource + QuerySeparator(resource) + FilterParam(filter))
  {
    var filter := FilterParams(custom, fields, useTsv, search);
    EncodeSpec(resource + QuerySeparator(resource) + FilterParam(filter));
  }

  /** `_loadMoreItemsUrl`: the totals, page size and page number, and the
      filter parameter with only the filter text encoded, appended to the
      resource. There is no TSV mode. */
  function LoadMoreItemsUrl(resource: string, pageSize: Value, page: Value, custom: seq<(string, Value)>,
                            fields: Option<seq<FilterField>>, search: string): string {
    PagedUrl(resource, PageParams(pageSize, page), FilterParams(custom, fields, false, search))
  }

  /** `totals=1`, `page[size]=...` and `page[number]=...`. */
  function PageParams(pageSize: Value, page: Value): seq<string> {
    ["totals=1", "page[size]=" + ToString(pageSize), "page[number]=" + ToString(page)]
  }

  /** The paged URL for the paging parameters and a computed filter text. */
  function PagedUrl(resource: string, paging: seq<string>, filter: string): string {
    var params := paging + (if filter != [] then [FilterParam(Encode(filter))] else []);
    resource + QuerySeparator(resource) + Join(params, "&")
  }

  /** The paged URL keeps the resource as it is and always leads with the
      totals and paging parameters; the filter parameter, present exactly
      when there is a filter, holds the encoded filter text. */
  lemma LoadMoreItemsUrlSpec(resource: string, pageSize: Value, page: Value, custom: seq<(string, Value)>,
                             fields: Option<seq<FilterField>>, search: string)
    ensures var filter := FilterParams(custom, fields, false, search);
      var lead := resource + QuerySeparator(resource) + Join(PageParams(pageSize, page), "&");
      var r := LoadMoreItemsUrl(resource, pageSize, page, custom, fields, search);
      && (filter == [] ==> r == lead)
      && (filter != [] ==> exists enc :: r == lead + "&" + FilterParam(enc) && WellEncoded(enc) && Decode(enc) == filter)
  {
    var filter := FilterParams(custom, fields, false, search);
    var xs := PageParams(pageSize, page);
    if filter == [] {
      PagedUrlPlain(resource, xs);
    } else {
      PagedUrlFiltered(resource, xs, filter);
    }
  }

  lemma PagedUrlPlain(resource: string, paging: seq<string>)
    ensures PagedUrl(resource, paging, []) == resource + QuerySeparator(resource) + Join(paging, "&")
  {
    assert paging + [] == paging;
  }

  lemma PagedUrlFiltered(resource: string, paging: seq<string>, filter: string)
    requires paging != [] && filter != []
    ensures var lead := resource + QuerySeparator(resource) + Join(paging, "&");
      var enc := Encode(filter);
      && PagedUrl(resource, paging, filter) == lead + "&" + FilterParam(enc)
      && WellEncoded(enc) && Decode(enc) == filter
  {
    var head, enc := resource + QuerySeparator(resource), Encode(filter);
    var p := FilterParam(enc);
    assert WellEncoded(enc) && Decode(enc) == filter by {
      EncodeSpec(filter);
    }
    assert PagedUrl(resource, paging, filter) == head + Join(paging + [p], "&");
    assert Join(paging + [p], "&") == Join(paging, "&") + "&" + p by {
      JoinAppend(paging, p, "&");
    }
    ConcatAssoc(head, Join(paging, "&"), "&", p);
  }

  lemma ConcatAssoc(a: string, b: string, c: string, d: string)
    ensures a + (b + c + d) == a + b + c + d
  {
  }
}
