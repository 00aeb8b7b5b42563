# casper-select-lit: a Dafny model of the search, value and highlight logic

This project models the core of the `casper-select-lit` web component family
in Dafny and proves properties of the model:

- **The local search of `casper-select-lit`.**
  - `_normalizeValue` strips accents (NFD followed by removal of the combining marks U+0300–U+036F) and can escape regular-expression syntax.
  - `_includesNormalized` is a case-insensitive contains test over one field or a list of fields. It throws on a missing field.
  - The debounced filter keeps the initial items that are not separators and match.
  - The "unlisted" pseudo-item is built from a search that names no item.
  - Smaller helpers: wrapping primitive items, the `setValue` item lookup, the `initialId` test and the single-item URL.
- **The URL builders of `casper-select-lit`.**
  - `_applyFiltersURL` and `_loadMoreItemsUrl` build the `ILIKE` clauses over the filter fields, combine them with the custom filters, build the TSV prefix query, and percent-encode `%`, `'` and `&`.
- **The value list of `casper-multi-select`.**
  - The value is one string of ids joined with `;`.
  - `setValue`, `addValue` and `removeValue` change it, and `_selectLine` toggles one id.
  - When the popover closes, the input shows the texts of the selected items.
- **The render loop of `casper-highlightable`.**
  - Every accent- and case-insensitive occurrence of the highlight is wrapped in a highlight span.
  - The loop is modelled as written (`Highlight.Step`, `Run`, `Render`).
  - It is also modelled as evidently intended (`Highlight.RenderFixed`).

The modules follow the program's structure:

| module | what it holds |
|---|---|
| `Outcomes` | option and result types; an exception is `TypeError` |
| `Strings` | JavaScript `indexOf`, `split`, `join`, `replace` and `substr` on `seq<char>` |
| `Sequences` | order-preserving selections, and how often a filter keeps each element |
| `Values` | JavaScript values, `String(v)`, truthiness, loose `==`, and the JSON deep copy |
| `Unicode` | NFD, mark stripping and the case folding of the `i` flag |
| `RegexEscape` | the syntax-escaping replace, and the atoms a pattern is read as |
| `Matching` | the leftmost, non-overlapping scan of a global regular expression |
| `Select` | the local search and the helpers |
| `FilterUrl` | the URL builders |
| `MultiSelect` | the value list |
| `Highlight` | the render loop, as written and corrected |
| `HighlightDefects` | the two inputs on which the render loop goes wrong |

## Behaviour kept as written

Some behaviour of the source looks odd but is modelled exactly as it is:

- `'\$&'`, the `ILIKE` escape template, is the JavaScript string `$&`. Replacing `%` and `\` with it re-inserts the match, so these characters reach the filter unescaped (`FilterUrl.EscapeSearchSpec`).
- In the TSV query, an empty token from a doubled space suppresses the ` & ` of the token before it. So `a  b` yields `a:*b:*` (`FilterUrl.TsvDoubleSpace`).
- `_applyFiltersURL` encodes the whole URL after assembling it, so the `&` that joins the filter to an existing query becomes `%26` too (`FilterUrl.ApplyFiltersUrlSpec`).
- `_initialIdChanged` sets any id other than `undefined`, `null`, `'null'` and `''`, including `0` and `false` (`Select.InitialIdTruthy`).

## Model

| member | source | states |
|---|---|---|
| `Select.NormalizeValue` | casper-select-lit.js:1258-1263 | the result is `undefined` exactly for `undefined` and `null` |
| `Select.NormalizeValueForms` | casper-select-lit.js:1258-1263 | the unescaped form has no combining marks, and deleting the escaping backslashes from the escaped form gives the unescaped form |
| `Select.NormalizeValueIdempotent` | casper-select-lit.js:1258-1263 | normalising a normalised value again changes nothing |
| `Select.SearchPattern` | casper-select-lit.js:1269 | the compiled search reads as literal characters only, with no regular-expression operator |
| `Select.RegexTestIsContains` | casper-select-lit.js:1265-1275 | the compiled search matches a normalised text exactly when the normalised search occurs in it, ignoring case |
| `Select.FieldTestSpec` | casper-select-lit.js:1273-1274 | the one-field test throws exactly when the field is `undefined` or `null`, and is true exactly when the field's string contains the search |
| `Select.ForEachFieldSpec` | casper-select-lit.js:1266-1271 | the `forEach` over a field list throws exactly when a field is missing, and otherwise reports whether any field contains the search |
| `Select.IncludesNormalizedSpec` | casper-select-lit.js:1265-1275 | `_includesNormalized` throws exactly when a searched field is missing; otherwise it holds exactly when some searched field contains the search |
| `Select.KeepMatching` | casper-select-lit.js:1147-1149 | the filter throws exactly when a non-separator item's test throws; it keeps only non-separator matching items, keeps all of them, and is never longer than its input |
| `Select.KeepMatchingCounts` | casper-select-lit.js:1147-1149 | the filter keeps each non-separator matching item as often as the list holds it, and no other item |
| `Select.KeepMatchingOrder` | casper-select-lit.js:1147-1149 | the kept items keep their original order |
| `Select.FilterLocal` | casper-select-lit.js:1147-1149 | with no search or an empty one, every initial item comes back as a deep copy with the same fields |
| `Select.FilterLocalSpec` | casper-select-lit.js:1147-1149 | with a search, the filter throws exactly when a non-separator item lacks a searched field; otherwise it keeps, in order, exactly the non-separator items with a field containing the search, each as often as the list holds it |
| `Select.CountId` | casper-select-lit.js:1233 | the strict-equality count is zero exactly when no item has the search as its id |
| `Select.UnlistedItem` | casper-select-lit.js:1232-1243 | a pseudo-item exists exactly when the search is a non-empty string that is no item's id; its id and text are the search, and it is marked unlisted |
| `Select.FirstMatch` | casper-select-lit.js:533 | `filter(...)[0]` is absent exactly when no id loosely equals the value, and otherwise is an item whose id does |
| `Select.FindItemIndex` | casper-select-lit.js:523-531 | the index loop finds the first item whose id loosely equals the value, or none when no id does, and agrees with the `filter(...)[0]` lookup |
| `Select.WrappedLookup` | casper-select-lit.js:1136-1141 | after wrapping primitives, the item with id `k` is `{id: k, name: xs[k-1]}` |
| `Select.FirstMatchAt` | casper-select-lit.js:533 | when the first loosely matching item is at `j`, the lookup returns `items[j]` |
| `Select.InitialIdChanged` | casper-select-lit.js:1208-1213 | a change of `initialId` sets that very id with `force` |
| `Select.InitialIdTruthy` | casper-select-lit.js:1208-1213 | for strings and nullish values the value is cleared exactly when the id is falsy or `'null'`; every number and boolean, the falsy `0` and `false` included, is set |
| `Select.SingleItemUrlPlain` | casper-select-lit.js:1162-1165 | without `?`, the id is appended to the resource as a path segment |
| `Select.SingleItemUrlQuery` | casper-select-lit.js:1162-1165 | with one `?` and a non-empty query, the id goes before the query and the query is kept |
| `Select.SingleItemUrlDropsTail` | casper-select-lit.js:1162-1165 | a second `?` and everything after it are dropped |
| `Values.JsonCopy` | casper-select-lit.js:1149 | the deep copy reads every field the same and holds no `undefined` field |
| `FilterUrl.ReplaceClassIdentity` | casper-select-lit.js:785 | replacing with the template `$&` leaves the text unchanged |
| `FilterUrl.EscapeSearchSpec` | casper-select-lit.js:785-786 | the search keeps its length; `%` and `\` are unchanged; each `&` becomes `_`, so no `&` is left |
| `FilterUrl.NotExcluded` | casper-select-lit.js:790 | the `filter` step keeps, in order, exactly the fields that are not custom-filter keys |
| `FilterUrl.NotExcludedCounts` | casper-select-lit.js:790 | each kept field appears as often as in the field list, and no key appears |
| `FilterUrl.ClauseListOne` | casper-select-lit.js:791-804 | the `map` step gives a single field exactly its own clause, `undefined` joined as the empty string |
| `FilterUrl.ClauseListAppend` | casper-select-lit.js:791-804 | the `map` step works field by field: the clauses of two lists of fields are those of the first followed by those of the second |
| `FilterUrl.FieldClausesKept` | casper-select-lit.js:789-804 | the clauses are exactly the clauses of the fields the `filter` step keeps, in order, so there are never more clauses than fields |
| `FilterUrl.CustomValues` | casper-select-lit.js:781 | every value kept is the string of a truthy custom filter, and every truthy custom filter's string is kept |
| `FilterUrl.CustomValuesOne` | casper-select-lit.js:781 | one custom filter contributes its string when its value is truthy, and nothing otherwise |
| `FilterUrl.CustomValuesAppend` | casper-select-lit.js:781 | the values of two lists of custom filters are those of the first followed by those of the second; with `CustomValuesOne` this keeps each truthy value once, in key order |
| `FilterUrl.TsvPieces` | casper-select-lit.js:819-826 | each non-empty token gets `:*`, and ` & ` exactly when the next token exists and is non-empty; an empty token stays empty |
| `FilterUrl.PrefixTerms` | casper-select-lit.js:819-826 | each token becomes itself followed by `:*` |
| `FilterUrl.FieldClausesSpec` | casper-select-lit.js:789-804 | when every field is named by a custom filter there is no clause; when none is, every field gets its clause, in order (the general case is `FilterUrl.FieldClausesKept`) |
| `FilterUrl.CustomFiltersLead` | casper-select-lit.js:781-810 | outside TSV mode, the custom filters always start the filter |
| `FilterUrl.TsvIgnoresFilters` | casper-select-lit.js:811-828 | in TSV mode the filter is the prefix query alone, whatever the custom filters and fields are |
| `FilterUrl.TsvQueryConjunction` | casper-select-lit.js:819-828 | with no empty token, the query is the tokens as prefix terms joined with ` & ` |
| `FilterUrl.TsvDoubleSpace` | casper-select-lit.js:820-826 | the tokens `a`, ``, `b` give `a:*b:*`, with no ` & ` between the words |
| `FilterUrl.EncodePerChar` | casper-select-lit.js:841-843 | the three replaces, in their order, encode each character exactly once |
| `FilterUrl.DecodeEncode` | casper-select-lit.js:841-843 | decoding the encoding gives back the text |
| `FilterUrl.EncodeSpec` | casper-select-lit.js:841-843 | the encoding leaves no raw `'` or `&`, every `%` begins `%25`, `%26` or `%27`, and decoding gives back the text |
| `FilterUrl.ApplyFiltersUrlSpec` | casper-select-lit.js:831-847 | without a filter the URL is the resource; with one it is well encoded and decodes to the resource, `?` or `&`, and `filter="(...)"` |
| `FilterUrl.LoadMoreItemsUrlSpec` | casper-select-lit.js:1364-1416 | the paged URL is the resource with totals, page size and page number, followed by a filter parameter exactly when there is a filter; only the filter text is encoded, and it decodes back |
| `FilterUrl.PagedUrlFiltered` | casper-select-lit.js:1405-1415 | with a filter, the parameter list gets `filter="(...)"` holding the encoded filter appended after `&` |
| `MultiSelect.LookupItems` | casper-multi-select.js:95-100 | each id gets the first item whose id loosely equals it |
| `MultiSelect.SetValue` | casper-multi-select.js:89-117 | nothing changes unless the id differs from the value or `force` is set; then the value is the id and the selection is its pieces, which join back to it; a change event is sent exactly when not forced, and it carries the id and the given items, or, when none are given and there are items, for each piece the first item whose id loosely equals it |
| `MultiSelect.RemoveAll` | casper-multi-select.js:82 | the filter drops every copy of the id, keeps every other piece in order, and changes nothing when the id is absent |
| `MultiSelect.RemoveAllCounts` | casper-multi-select.js:82 | every piece other than the id is kept as often as it occurs, and the id not at all |
| `MultiSelect.PiecesFree` | casper-multi-select.js:82 | no piece of a split value contains `;` |
| `MultiSelect.AppendPiece` | casper-multi-select.js:71 | appending `;` and an id without `;` adds exactly one piece |
| `MultiSelect.AddValueSpec` | casper-multi-select.js:69-75 | with no value the id becomes the value; otherwise `;` and the id are appended, and the id becomes the last piece |
| `MultiSelect.RemoveValueSpec` | casper-multi-select.js:80-84 | an empty value is left alone; otherwise the new value holds, in order, exactly the old pieces other than the id, each as often as it occurred |
| `MultiSelect.SelectTwiceRestores` | casper-multi-select.js:182-190 | selecting a line twice restores a value that did not hold its id |
| `MultiSelect.RemoveAllAppend` | casper-multi-select.js:82 | removing an id that only ends the list gives back the rest |
| `MultiSelect.SelectTwiceFromEmpty` | casper-multi-select.js:182-190 | selecting a line twice from an empty value leaves the empty string |
| `MultiSelect.SelectedItems` | casper-multi-select.js:165 | the items kept are, in item order, exactly those whose id is one of the selected ids |
| `MultiSelect.SelectedItemsCounts` | casper-multi-select.js:165 | each item whose id is a selected id is kept as often as the list holds it, and no other item |
| `MultiSelect.ClosedTextSpec` | casper-multi-select.js:154-173 | the closed text is empty without a value or without a selected item, and is the item's text for a single one |
| `Unicode.StripMarks` | components/casper-highlightable.js:52 | removing the marks leaves none, and leaves a text without marks unchanged |
| `Unicode.Normalize` | components/casper-highlightable.js:52 | the normal form has no combining marks |
| `Unicode.MarkRemovalIdempotent` | casper-select-lit.js:1260 | deleting the combining marks a second time changes nothing |
| `Unicode.NormalizeIdempotent` | components/casper-highlightable.js:52 | normalising twice is normalising once |
| `Unicode.NormalizeConcat` | components/casper-highlightable.js:52 | normalisation works piece by piece over a concatenation |
| `Unicode.NormalizeLength` | components/casper-highlightable.js:52 | the normal form is never longer, and keeps the length exactly when the text has no marks |
| `Unicode.NormalizeSlice` | components/casper-highlightable.js:79 | on a text without marks, the slice at a match index has the normal form of the same slice of the normal form |
| `RegexEscape.Escape` | components/casper-highlightable.js:53 | escaping adds one backslash per syntax character and leaves other text unchanged |
| `RegexEscape.UnescapeEscape` | components/casper-highlightable.js:53 | deleting the escaping backslashes gives back the text |
| `RegexEscape.EscapedIsLiteral` | components/casper-highlightable.js:53 | an escaped pattern reads as exactly the literal characters of the text |
| `Matching.EscapedPatternMatches` | components/casper-highlightable.js:43-45 | the escaped pattern matches at a position exactly when the text matches there, ignoring case |
| `Matching.FindFrom` | components/casper-highlightable.js:78 | `exec` returns the first match at or after `lastIndex`, or none when there is no later match |
| `Matching.MatchesFrom` | components/casper-highlightable.js:78 | the matches of the loop are genuine, in increasing order, and do not overlap |
| `Matching.MatchesCover` | components/casper-highlightable.js:78 | every match position lies inside one of the matches the scan finds |
| `Highlight.Cut` | components/casper-highlightable.js:74-87 | cutting at the match positions loses no text, and the highlighted pieces are the slices at those positions |
| `Highlight.CutPositions` | components/casper-highlightable.js:74-87 | the cut alternates plain and highlighted pieces: the `k`-th highlighted piece is the slice at the `k`-th position, the plain piece before it is the text since the previous highlighted one, and the remaining text is everything after the last one |
| `Highlight.Step` | components/casper-highlightable.js:78-85 | an iteration exits exactly when `exec` finds nothing, throws exactly when the remaining text is gone, and otherwise moves `lastIndex` past the match |
| `Highlight.RunMarked` | components/casper-highlightable.js:78-85 | the loop's highlighted pieces are the slices of the original text at the match positions of the normal form |
| `Highlight.RunFaithful` | components/casper-highlightable.js:78-85 | on a text without marks or the marker head, the loop cuts the text exactly as `Cut` does |
| `Highlight.SplitAtMarker` | components/casper-highlightable.js:80-81 | with no marker head on either side, splitting at the inserted marker gives back the two sides |
| `Highlight.Render` | components/casper-highlightable.js:63-89 | the slot is shown exactly before the first update, without a highlight, or without a match; otherwise the highlighted pieces are the slices at the matches |
| `Highlight.RenderFixed` | components/casper-highlightable.js:63-89 | the corrected render never fails, shows the slot exactly when the normalised highlight is empty or unmatched, and its pieces spell out the text, with the match slices highlighted |
| `Highlight.RenderFixedPositions` | components/casper-highlightable.js:63-89 | the corrected render highlights the text at the match positions of the normal form, in order, and leaves the text before, between and after them plain |
| `Highlight.RenderAgrees` | components/casper-highlightable.js:63-89 | on a text without marks or the marker head, the render as written equals the corrected one |
| `Highlight.MarkedPiecesMatchHighlight` | components/casper-highlightable.js:79-84 | every highlighted piece normalises, up to case, to the normalised highlight |
| `HighlightDefects.EmptyPatternStep` | components/casper-highlightable.js:78-85 | with an empty pattern, an iteration keeps `lastIndex`, emits two empty pieces, and leaves the remaining text up to its first marker, which is all of it when it holds no marker |
| `HighlightDefects.EmptyHighlightNeverExits` | components/casper-highlightable.js:64-85 | with an empty normalised highlight, the loop is still running after any number of iterations |
| `HighlightDefects.MarkOnlyHighlight` | components/casper-highlightable.js:64 | a lone combining mark passes the emptiness test, yet normalises to the empty pattern, which matches at 0 |
| `HighlightDefects.ClashRender` | components/casper-highlightable.js:78-87 | the text `__CHIGHLIGHTa` highlighted at `a` renders as the `a` highlighted followed by `CHIGHLIGHT__` |
| `HighlightDefects.SentinelCounterexample` | components/casper-highlightable.js:80-83 | on that text the render as written does not spell out the text, and the corrected render does |

## Left out

- `casper-popover-behaviour.js`, in both copies, is popup placement, DOM listeners and floating-point pixel widths, and is not part of this model.
- The socket lazy load is remote calls, request queues and retries, and is not part of this model. This covers `_subscribeResource`, `_fetchItems`, `_getIndexForId`, `_setupData`, `_filterLazyLoad`, `_attemptResubscribe`, `_loadMoreItems` and `_setSingleItem`'s request. Only the URLs these parts build are modelled.
- The page arithmetic of the old lazy load uses floating-point division and is not modelled. `_loadMoreItemsUrl` takes the page size and page number as given values.
- Debouncing, the `itemsFiltered` promise, Lit rendering and CSS, and event dispatch are framework behaviour. Of the change event, only its value and items are kept.
- `resourceFormatter` is a call into user code and is not modelled.
- NFD is modelled through the decompositions of the Latin-1 Supplement. Other characters are treated as having none, and canonical reordering is not modelled. Case folding covers the ASCII letters and the Latin-1 letters U+00E0 to U+00FE except U+00F7. The micro sign U+00B5 and U+00FF, whose capitals U+039C and U+0178 lie outside Latin-1, are not folded, and neither is any letter outside Latin-1. For example, the source's case-insensitive regular expression matches a highlight `µ` against the Greek `μ` and `Μ`, and the model does not.
- The regular-expression engine is modelled only for patterns that read as literal characters. `_normalizeValue(search, true)` always produces such a pattern (`RegexEscape.EscapedIsLiteral`).
- Numbers are integers. Loose `==` between a number and a string compares the string with the number's decimal numeral, and does not parse the string.
- Items are maps from field names to values. Nested objects as field values, and lists that mix primitives and objects, are not modelled.
- The key order of `Object.values`/`Object.keys` is the order of the custom-filter list.
- Of `setValue` in `casper-select-lit`, only the item lookup (loop and `filter(...)[0]`) is modelled. The assignments to the input and scroller are state the model does not hold.
- `MultiSelect.SetValue` does not model `this.error = undefined` and the reset of `searchInput.invalid` (casper-multi-select.js:103-104). Neither affects the value, the selection or the change event.
- `FilterUrl.FieldClauses`: an entry of `lazyLoadFilterFields` that is `null` or `undefined` makes the source throw a `TypeError` when it reads `filterField.constructor` (casper-select-lit.js:790 and 1383). The model has no such entry: `FilterField` holds only non-nullish values.
- Characters are Unicode scalar values, while JavaScript's `length`, `substr` and `match.index` count UTF-16 code units. The two agree when an index is taken and used in the same text. The highlight render takes its match indices in the normalised text and uses them on the original one. When a combining mark comes before a character outside the Basic Multilingual Plane, the two counts give different slices. For example, on `e` U+0301 U+1F600 `a` highlighted at `a`, the source highlights a lone low surrogate, while the model highlights U+1F600. Lone surrogates are not modelled.
- `MultiSelect.ClosedTextSpec`: only the local-items branch of `closed` is modelled. The lazy branches are empty placeholders in the source. The `acceptUnlistedValue` fallback depends on the input's current value, which the model does not hold.
- `FilterUrl.Expand`: only the `$&` form of a replacement template is interpreted, which is the only template the source uses.
- `Select.InitialIdChanged` states only that the id passed on is the changed one. Which ids are set is stated by `Select.InitialIdTruthy`.

## Findings

| source | as written | input that shows it | evidently intended | confidence | as-written member | corrected member |
|---|---|---|---|---|---|---|
| components/casper-highlightable.js:64-85 | the guard tests the raw highlight for emptiness, but the loop uses the normalised one; an empty pattern matches at `lastIndex` without advancing it, so `exec` never returns `null` | a highlight made of U+0301 alone (a combining acute accent), on any text | show the slot when the normalised highlight is empty | high; not executed | `HighlightDefects.EmptyHighlightNeverExits` | `Highlight.RenderFixed` |
| components/casper-highlightable.js:80-83 | the highlighted slice is replaced by the marker `__CHIGHLIGHT__` and the text split on it; a text that already contains `__CHIGHLIGHT` before the match makes the split cut in the wrong place | text `"__CHIGHLIGHTa"`, highlight `"a"`: renders the highlighted `a` followed by `CHIGHLIGHT__` | cut the text at the match positions, keeping `__CHIGHLIGHT` as plain text before the highlighted `a` | high; not executed | `HighlightDefects.SentinelCounterexample` | `Highlight.RenderFixed` |
