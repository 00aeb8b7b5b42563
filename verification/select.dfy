/** The local (non-lazy) search of `casper-select-lit`: the accent-free,
    case-insensitive contains test of `_includesNormalized`, the filter that
    narrows the initial items to the ones matching the search, the
    "unlisted" pseudo-item built from a search that names no item, and the
    small helpers around them (wrapping primitive items, finding the item
    of a value, the `initialId` test, the single-item URL). */
module Select {
  import opened Outcomes
  import opened Strings
  import opened Unicode
  import opened RegexEscape
  import opened Matching
  import opened Values
  import opened Sequences

  /** `_normalizeValue(value, escape)`: `undefined` for `undefined` and
      `null`; otherwise the accent-free form of `String(value)`, with its
      syntax characters escaped when `escape` is set. */
  function NormalizeValue(v: Value, escape: bool): (r: Option<string>)
    ensures r.None? <==> IsNullish(v)
  {
    if IsNullish(v) then None
    else
      var n := Normalize(ToString(v));
      Some(if escape then Escape(n) else n)
  }

  /** The unescaped result has no combining marks, and the escaped one
      gives it back when its backslashes are deleted. */
  lemma NormalizeValueForms(v: Value)
    requires !IsNullish(v)
    ensures NoMarks(NormalizeValue(v, false).value)
    ensures Unescape(NormalizeValue(v, true).value) == NormalizeValue(v, false).value
  {
    UnescapeEscape(Normalize(ToString(v)));
  }

  /** Normalising a normalised value again changes nothing. */
  lemma NormalizeValueIdempotent(v: Value)
    requires !IsNullish(v)
    ensures NormalizeValue(Str(NormalizeValue(v, false).value), false) == NormalizeValue(v, false)
  {
    NormalizeIdempotent(ToString(v));
  }

  /** All atoms of a pattern are literal characters. */
  predicate Literal(pattern: string) {
    forall k :: 0 <= k < |Atoms(pattern)| ==> Atoms(pattern)[k].Lit?
  }

  /** `n.match(new RegExp(pattern, 'i'))` is non-null, for a pattern read
      as literal atoms: some position of `n` starts a case-insensitive
      occurrence of them. */
  predicate RegexTest(n: string, pattern: string)
    requires Literal(pattern)
  {
    exists i: nat | i <= |n| :: AtomsMatchAt(Atoms(pattern), n, i)
  }

  /** The search as `_includesNormalized` compiles it: normalised and
      escaped. It reads as literal atoms only. */
  function SearchPattern(search: string): (r: string)
    ensures Literal(r)
  {
    EscapedIsLiteral(Normalize(search));
    NormalizeValue(Str(search), true).value
  }

  /** The meaning of the search: the normal form of `search` occurs in that
      of `text`, ignoring case. */
  predicate ContainsFold(text: string, search: string) {
    exists i: nat | i <= |Normalize(text)| :: MatchAt(Normalize(text), Normalize(search), i)
  }

  /** The compiled search matches exactly where the normalised search
      occurs in the normalised text, up to case: escaping keeps every
      character of the search literal. */
  lemma RegexTestIsContains(text: string, search: string)
    ensures RegexTest(Normalize(text), SearchPattern(search)) <==> ContainsFold(text, search)
  {
    var n, p := Normalize(text), Normalize(search);
    assert SearchPattern(search) == Escape(p);
    forall i: nat
      ensures AtomsMatchAt(Atoms(Escape(p)), n, i) <==> MatchAt(n, p, i)
    {
      EscapedPatternMatches(n, p, i);
    }
  }

  /** The field list `_includesNormalized` receives: `this.filterFields`
      when set, else `this.textProp`. */
  datatype Attribute = Fields(names: seq<string>) | Field(name: string)

  function AttributeOf(filterFields: Option<seq<string>>, textProp: string): Attribute {
    match filterFields
    case Some(names) => Fields(names)
    case None => Field(textProp)
  }

  /** The names an attribute tests. */
  function Names(attr: Attribute): seq<string> {
    match attr
    case Fields(names) => names
    case Field(name) => [name]
  }

  /** The test of one field: calling `match` on the `undefined` that a
      missing field normalises to throws. */
  function FieldTest(item: Item, name: string, search: string): Result<bool> {
    match NormalizeValue(Get(item, name), false)
    case None => Throws(TypeError)
    case Some(n) => Ok(RegexTest(n, SearchPattern(search)))
  }

  /** The `forEach` over an array of fields: every field is tested, the
      first missing one throws, and `found` records a hit. */
  function ForEachField(item: Item, names: seq<string>, search: string, found: bool): Result<bool> {
    if names == [] then Ok(found)
    else
      match FieldTest(item, names[0], search)
      case Throws(e) => Throws(e)
      case Ok(b) => ForEachField(item, names[1..], search, found || b)
  }

  /** `_includesNormalized(attribute, item, search)` of the select. */
  function IncludesNormalized(attr: Attribute, item: Item, search: string): Result<bool> {
    match attr
    case Fields(names) => ForEachField(item, names, search, false)
    case Field(name) => FieldTest(item, name, search)
  }

  /** Every searched field of `item` is present. */
  predicate Defined(item: Item, names: seq<string>) {
    forall k :: 0 <= k < |names| ==> !IsNullish(Get(item, names[k]))
  }

  /** Some searched field of `item` contains the search. */
  predicate Hit(item: Item, names: seq<string>, search: string) {
    exists k :: 0 <= k < |names| && ContainsFold(ToString(Get(item, names[k])), search)
  }

  lemma FieldTestSpec(item: Item, name: string, search: string)
    ensures FieldTest(item, name, search).Ok? <==> !IsNullish(Get(item, name))
    ensures FieldTest(item, name, search) == Ok(true) <==>
      !IsNullish(Get(item, name)) && ContainsFold(ToString(Get(item, name)), search)
  {
    RegexTestIsContains(ToString(Get(item, name)), search);
  }

  lemma {:induction false} ForEachFieldSpec(item: Item, names: seq<string>, search: string, found: bool)
    ensures ForEachField(item, names, search, found).Ok? <==> Defined(item, names)
    ensures ForEachField(item, names, search, found) == Ok(true) <==>
      Defined(item, names) && (found || Hit(item, names, search))
    decreases |names|
  {
    if names != [] {
      var rest := names[1..];
      FieldTestSpec(item, names[0], search);
      ForEachFieldSpec(item, rest, search, found || FieldTest(item, names[0], search) == Ok(true));
      assert Defined(item, names) <==> !IsNullish(Get(item, names[0])) && Defined(item, rest) by {
        assert forall k :: 0 < k < |names| ==> names[k] == rest[k - 1];
      }
      assert Hit(item, names, search) <==>
        ContainsFold(ToString(Get(item, names[0])), search) || Hit(item, rest, search) by {
        assert forall k :: 0 < k < |names| ==> names[k] == rest[k - 1];
        if Hit(item, rest, search) {
          var k :| 0 <= k < |rest| && ContainsFold(ToString(Get(item, rest[k])), search);
          assert names[k + 1] == rest[k];
        }
      }
    }
  }

  /** `_includesNormalized` throws when a searched field is missing, and
      otherwise holds exactly when some searched field contains the search
      accent- and case-insensitively. */
  lemma IncludesNormalizedSpec(attr: Attribute, item: Item, search: string)
    ensures IncludesNormalized(attr, item, search).Ok? <==> Defined(item, Names(attr))
    ensures IncludesNormalized(attr, item, search) == Ok(true) <==>
      Defined(item, Names(attr)) && Hit(item, Names(attr), search)
  {
    match attr
    case Fields(names) =>
      ForEachFieldSpec(item, names, search, false);
    case Field(name) =>
      FieldTestSpec(item, name, search);
      assert Names(attr)[0] == name;
  }

  /** `!item.separator`. */
  predicate NotSeparator(item: Item) {
    !Truthy(Get(item, "separator"))
  }

  /** An item the local filter keeps. */
  predicate Kept(attr: Attribute, item: Item, search: string) {
    NotSeparator(item) && IncludesNormalized(attr, item, search) == Ok(true)
  }

  /** `initialItems.filter(item => !item.separator && includesNormalized(...))`:
      the first item whose test throws ends the filter. */
  function KeepMatching(items: seq<Item>, attr: Attribute, search: string): (r: Result<seq<Item>>)
    ensures r.Ok? <==> forall j :: 0 <= j < |items| && NotSeparator(items[j]) ==>
      IncludesNormalized(attr, items[j], search).Ok?
    ensures r.Ok? ==> forall k :: 0 <= k < |r.value| ==> Kept(attr, r.value[k], search)
    ensures r.Ok? ==> forall j :: 0 <= j < |items| && Kept(attr, items[j], search) ==> items[j] in r.value
    ensures r.Ok? ==> |r.value| <= |items|
  {
    if items == [] then Ok([])
    else
      var rest := KeepMatching(items[1..], attr, search);
      assert forall j :: 0 < j < |items| ==> items[j] == items[1..][j - 1];
      if !NotSeparator(items[0]) then rest
      else
        match IncludesNormalized(attr, items[0], search)
        case Throws(e) => Throws(e)
        case Ok(b) =>
          match rest
          case Throws(e) => Throws(e)
          case Ok(kept) => Ok(if b then [items[0]] + kept else kept)
  }

  /** The items kept are the original items in their original order. */
  lemma {:induction false} KeepMatchingOrder(items: seq<Item>, attr: Attribute, search: string)
    requires KeepMatching(items, attr, search).Ok?
    ensures Subsequence(KeepMatching(items, attr, search).value, items)
  {
    if items != [] {
      var rest := KeepMatching(items[1..], attr, search);
      KeepMatchingOrder(items[1..], attr, search);
      var r := KeepMatching(items, attr, search).value;
      if r == [items[0]] + rest.value {
        assert r[1..] == rest.value;
      }
    }
  }

  /** The filter keeps each kept item as often as it occurs and no other
      item: no duplicate is merged or dropped. */
  lemma {:induction false} KeepMatchingCounts(items: seq<Item>, attr: Attribute, search: string)
    requires KeepMatching(items, attr, search).Ok?
    ensures var r := KeepMatching(items, attr, search).value;
      forall x :: multiset(r)[x] == (if Kept(attr, x, search) then multiset(items)[x] else 0)
  {
    if items != [] {
      var rest := KeepMatchingStep(items, attr, search);
      var r := KeepMatching(items, attr, search).value;
      var keep := x => Kept(attr, x, search);
      assert forall x :: multiset(rest)[x] == (if keep(x) then multiset(items[1..])[x] else 0) by {
        KeepMatchingCounts(items[1..], attr, search);
      }
      assert forall x :: multiset(r)[x] == (if keep(x) then multiset(items)[x] else 0) by {
        FilterCountsCons(keep, items, rest, r);
      }
    }
  }

  /** One step of the filter: the first item is kept exactly when `Kept`
      holds of it. */
  lemma KeepMatchingStep(items: seq<Item>, attr: Attribute, search: string) returns (rest: seq<Item>)
    requires items != [] && KeepMatching(items, attr, search).Ok?
    ensures KeepMatching(items[1..], attr, search) == Ok(rest)
    ensures KeepMatching(items, attr, search).value == if Kept(attr, items[0], search) then [items[0]] + rest else rest
  {
    rest := KeepMatching(items[1..], attr, search).value;
  }

  /** The local filter run by the debounced search: with a non-empty search,
      the initial items that are not separators and match; otherwise a deep
      copy of all initial items. */
  function FilterLocal(initial: seq<Item>, filterFields: Option<seq<string>>, textProp: string, search: Option<string>): (r: Result<seq<Item>>)
    ensures (search.None? || search.value == []) ==>
      r.Ok? && |r.value| == |initial| &&
      forall k, key :: 0 <= k < |initial| ==> Get(r.value[k], key) == Get(initial[k], key)
  {
    if search.Some? && search.value != [] then KeepMatching(initial, AttributeOf(filterFields, textProp), search.value)
    else Ok(seq(|initial|, i requires 0 <= i < |initial| => JsonCopy(initial[i])))
  }

  /** With a non-empty search, the filter throws exactly when a
      non-separator item lacks a searched field; otherwise it keeps, in order,
      exactly the non-separator items with a searched field that contains the
      search. */
  lemma FilterLocalSpec(initial: seq<Item>, filterFields: Option<seq<string>>, textProp: string, search: string)
    requires search != []
    ensures var names := Names(AttributeOf(filterFields, textProp));
      FilterLocal(initial, filterFields, textProp, Some(search)).Ok? <==>
        forall j :: 0 <= j < |initial| && NotSeparator(initial[j]) ==> Defined(initial[j], names)
    ensures var names := Names(AttributeOf(filterFields, textProp));
      var r := FilterLocal(initial, filterFields, textProp, Some(search));
      r.Ok? ==>
        && Subsequence(r.value, initial)
        && (forall k :: 0 <= k < |r.value| ==> NotSeparator(r.value[k]) && Hit(r.value[k], names, search))
        && (forall j :: 0 <= j < |initial| && NotSeparator(initial[j]) && Hit(initial[j], names, search) ==> initial[j] in r.value)
        && (forall x :: multiset(r.value)[x] == if NotSeparator(x) && Hit(x, names, search) then multiset(initial)[x] else 0)
  {
    var attr := AttributeOf(filterFields, textProp);
    forall item: Item
      ensures IncludesNormalized(attr, item, search).Ok? <==> Defined(item, Names(attr))
      ensures IncludesNormalized(attr, item, search) == Ok(true) <==> Defined(item, Names(attr)) && Hit(item, Names(attr), search)
    {
      IncludesNormalizedSpec(attr, item, search);
    }
    if KeepMatching(initial, attr, search).Ok? {
      KeepMatchingOrder(initial, attr, search);
      KeepMatchingCounts(initial, attr, search);
      var r := KeepMatching(initial, attr, search).value;
      forall x
        ensures multiset(r)[x] == if NotSeparator(x) && Hit(x, Names(attr), search) then multiset(initial)[x] else 0
      {
        if x !in initial {
          assert multiset(initial)[x] == 0;
        }
      }
    }
  }

  /** How many items have the id `v`, compared strictly. */
  function CountId(items: seq<Item>, idProp: string, v: Value): (r: nat)
    ensures r == 0 <==> forall k :: 0 <= k < |items| ==> Get(items[k], idProp) != v
    ensures r <= |items|
  {
    if items == [] then 0
    else
      assert forall k :: 0 < k < |items| ==> items[k] == items[1..][k - 1];
      (if Get(items[0], idProp) == v then 1 else 0) + CountId(items[1..], idProp, v)
  }

  /** `this._searchValue` as a value. */
  function SearchValue(search: Option<string>): Value {
    match search
    case None => Undefined
    case Some(s) => Str(s)
  }

  /** `_setUnlistedValue`: a pseudo-item for the search when it is a
      non-empty string that is no item's id. */
  function UnlistedItem(items: seq<Item>, idProp: string, textProp: string, search: Option<string>): (r: Option<Item>)
    ensures r.Some? <==>
      search.Some? && search.value != [] && forall k :: 0 <= k < |items| ==> Get(items[k], idProp) != Str(search.value)
    ensures r.Some? ==> Get(r.value, idProp) == Str(search.value) && Get(r.value, textProp) == Str(search.value)
    ensures r.Some? && idProp != "unlisted" && textProp != "unlisted" ==> Get(r.value, "unlisted") == Bool(true)
  {
    var searchMatchesId := CountId(items, idProp, SearchValue(search));
    if search.Some? && search.value != [] && searchMatchesId == 0 then
      var unlisted: Item := map["unlisted" := Bool(true)];
      Some(unlisted[idProp := Str(search.value)][textProp := Str(search.value)])
    else None
  }

  /** Wraps a list of primitive values into items `{id: i + 1, name: value}`,
      as done when the first item is not an object. */
  function WrapPrimitives(xs: seq<Value>): (r: seq<Item>) {
    seq(|xs|, i requires 0 <= i < |xs| => map["id" := Num(i + 1), "name" := xs[i]])
  }

  /** The first item whose id loosely equals `v`:
      `items.filter(it => it[idProp] == v)[0]`. */
  function FirstMatch(items: seq<Item>, idProp: string, v: Value): (r: Option<Item>)
    ensures r.None? <==> forall j :: 0 <= j < |items| ==> !LooseEq(Get(items[j], idProp), v)
    ensures r.Some? ==> exists j :: 0 <= j < |items| && r.value == items[j] && LooseEq(Get(items[j], idProp), v)
  {
    if items == [] then None
    else if LooseEq(Get(items[0], idProp), v) then Some(items[0])
    else
      assert forall j :: 0 < j < |items| ==> items[j] == items[1..][j - 1];
      assert forall j :: 0 <= j < |items| - 1 ==> items[1..][j] == items[j + 1];
      FirstMatch(items[1..], idProp, v)
  }

  /** The index loop of `setValue`: the index of the first item whose id
      loosely equals the new value, the same item the `filter(...)[0]`
      lookup returns. */
  method FindItemIndex(items: seq<Item>, idProp: string, value: Value) returns (idx: Option<nat>)
    ensures idx.Some? ==> idx.value < |items| && LooseEq(Get(items[idx.value], idProp), value)
    ensures idx.Some? ==> forall j :: 0 <= j < idx.value ==> !LooseEq(Get(items[j], idProp), value)
    ensures idx.None? <==> forall j :: 0 <= j < |items| ==> !LooseEq(Get(items[j], idProp), value)
    ensures idx.Some? ==> FirstMatch(items, idProp, value) == Some(items[idx.value])
  {
    idx := None;
    var i := 0;
    while i < |items|
      invariant 0 <= i <= |items|
      invariant forall j :: 0 <= j < i ==> !LooseEq(Get(items[j], idProp), value)
      invariant FirstMatch(items, idProp, value) == FirstMatch(items[i..], idProp, value)
    {
      if LooseEq(Get(items[i], idProp), value) {
        idx := Some(i);
        return;
      }
      assert items[i..][1..] == items[i + 1..];
      i := i + 1;
    }
  }

  /** Wrapped primitives are found by their one-based position. */
  lemma WrappedLookup(xs: seq<Value>, k: nat)
    requires 1 <= k <= |xs|
    ensures FirstMatch(WrapPrimitives(xs), "id", Num(k)) == Some(map["id" := Num(k), "name" := xs[k - 1]])
  {
    var items := WrapPrimitives(xs);
    assert forall j :: 0 <= j < |items| ==> Get(items[j], "id") == Num(j + 1);
    assert LooseEq(Get(items[k - 1], "id"), Num(k));
    FirstMatchAt(items, "id", Num(k), k - 1);
  }

  lemma {:induction false} FirstMatchAt(items: seq<Item>, idProp: string, v: Value, j: nat)
    requires j < |items| && LooseEq(Get(items[j], idProp), v)
    requires forall i :: 0 <= i < j ==> !LooseEq(Get(items[i], idProp), v)
    ensures FirstMatch(items, idProp, v) == Some(items[j])
    decreases j
  {
    if j > 0 {
      assert items[1..][j - 1] == items[j];
      forall i | 0 <= i < j - 1
        ensures !LooseEq(Get(items[1..][i], idProp), v)
      {
        assert items[1..][i] == items[i + 1];
      }
      FirstMatchAt(items[1..], idProp, v, j - 1);
    }
  }

  /** What a change of `initialId` does. */
  datatype InitialIdAction = ForceSet(id: Value) | Clear

  /** `_initialIdChanged`: any id but `undefined`, `null`, `'null'` and
      `''` is set with `force`; those clear the value. */
  function InitialIdChanged(initialId: Value): (r: InitialIdAction)
    ensures r.ForceSet? ==> r.id == initialId
  {
    if initialId != Undefined && initialId != Null && initialId != Str("null") && initialId != Str("") then ForceSet(initialId)
    else Clear
  }

  /** For a string id the test is truthiness with `'null'` excluded; every
      number and boolean, the falsy `0` and `false` included, is set. */
  lemma InitialIdTruthy(initialId: Value)
    ensures initialId.Str? || IsNullish(initialId) ==>
      (InitialIdChanged(initialId).Clear? <==> !Truthy(initialId) || initialId == Str("null"))
    ensures !initialId.Str? && !IsNullish(initialId) ==> InitialIdChanged(initialId).ForceSet?
    ensures InitialIdChanged(Num(0)).ForceSet? && InitialIdChanged(Bool(false)).ForceSet?
  {
  }

  /** `_setSingleItem`'s URL: `id` appended as a path segment to the part
      of the resource before the first `?`, and the part between the first
      and a second `?` appended again as the query when non-empty. */
  function SingleItemUrl(resource: string, id: string): string {
    var parts := Split(resource, "?");
    var params := if |parts| > 1 then parts[1] else [];
    parts[0] + "/" + id + (if params != [] then "?" + params else [])
  }

  /** Without a query the id is appended as a path segment. */
  lemma SingleItemUrlPlain(resource: string, id: string)
    requires '?' !in resource
    ensures SingleItemUrl(resource, id) == resource + "/" + id
  {
    ContainsChar(resource, '?');
    SplitWithout(resource, "?");
  }

  /** With one `?` and a non-empty query the id is inserted as a path
      segment before the query, which is kept. */
  lemma SingleItemUrlQuery(name: string, query: string, id: string)
    requires '?' !in name && '?' !in query && query != []
    ensures SingleItemUrl(name + "?" + query, id) == name + "/" + id + "?" + query
  {
    assert Join([name, query], "?") == name + "?" + query;
    SplitJoin([name, query], '?');
  }

  /** With a second `?`, whatever follows it is dropped. */
  lemma SingleItemUrlDropsTail(name: string, a: string, b: string, id: string)
    requires '?' !in name && '?' !in a && '?' !in b && a != []
    ensures SingleItemUrl(name + "?" + a + "?" + b, id) == name + "/" + id + "?" + a
  {
    assert Join([a, b], "?") == a + "?" + b;
    assert Join([name, a, b], "?") == name + "?" + (a + "?" + b);
    assert name + "?" + a + "?" + b == name + "?" + (a + "?" + b);
    SplitJoin([name, a, b], '?');
  }
}
