/** The value list of `casper-multi-select`: the selection is one string of
    ids joined with `;`. `addValue` appends an id, `removeValue` drops every
    occurrence of one, selecting a line toggles its id, and closing the
    popover shows the texts of the selected items. */
module MultiSelect {
  import opened Outcomes
  import opened Strings
  import opened Values
  import opened Select
  import opened Sequences

  /** `valueSeparator`, set in the constructor. */
  const Sep := ";"

  /** The part of the element's state the value operations touch: `value`
      (`undefined` or a string) and the scroller's `selectedItems`. */
  datatype State = State(value: Option<string>, selected: seq<string>)

  /** The `change` event: the new value and the items passed with it. */
  datatype Change = Change(value: string, items: Option<seq<Option<Item>>>)

  /** The outcome of an operation: the new state and the event it emits. */
  datatype Outcome = Outcome(state: State, event: Option<Change>)

  /** `this.value` is truthy. */
  predicate HasValue(st: State) {
    st.value.Some? && st.value.value != []
  }

  /** For each id, the first item whose id loosely equals it, or `undefined`. */
  function LookupItems(items: seq<Item>, idProp: string, ids: seq<string>): (r: seq<Option<Item>>)
    ensures |r| == |ids|
    ensures forall k :: 0 <= k < |ids| ==> r[k] == FirstMatch(items, idProp, Str(ids[k]))
  {
    if ids == [] then [] else [FirstMatch(items, idProp, Str(ids[0]))] + LookupItems(items, idProp, ids[1..])
  }

  /** `setValue(id, item, force)`: nothing happens unless the id differs from
      the value or `force` is set; then the value becomes `id`, the
      selection its pieces, and, unless forced, a `change` event carries the
      value and the given items, or the looked-up ones when none are given
      and the element has items. */
  function SetValue(st: State, items: seq<Item>, idProp: string, id: string, given: Option<seq<Option<Item>>>, force: bool): (r: Outcome)
    ensures !(st.value != Some(id) || force) ==> r == Outcome(st, None)
    ensures st.value != Some(id) || force ==>
      && r.state.value == Some(id)
      && r.state.selected == Split(id, Sep)
      && Join(r.state.selected, Sep) == id
      && (r.event.Some? <==> !force)
  ensures r.event.Some? ==>
    var ev := r.event.value;
    && ev.value == id
    && (given.Some? ==> ev.items == given)
    && (given.None? && |items| == 0 ==> ev.items.None?)
    && (given.None? && |items| > 0 ==>
          && ev.items.Some?
          && |ev.items.value| == |Split(id, Sep)|
          && forall k :: 0 <= k < |Split(id, Sep)| ==> ev.items.value[k] == FirstMatch(items, idProp, Str(Split(id, Sep)[k])))
  {
    if st.value != Some(id) || force then
      var ids := Split(id, Sep);
      JoinSplit(id, Sep);
      var found := if given.None? && |items| > 0 then Some(LookupItems(items, idProp, ids)) else given;
      Outcome(State(Some(id), ids), if !force then Some(Change(id, found)) else None)
    else Outcome(st, None)
  }

  /** `addValue(id)`. */
  function AddValue(st: State, items: seq<Item>, idProp: string, id: string): Outcome {
    if HasValue(st) then SetValue(st, items, idProp, st.value.value + Sep + id, None, false)
    else SetValue(st, items, idProp, id, None, false)
  }

  /** `xs.filter(e => e !== id)`. */
  function RemoveAll(xs: seq<string>, id: string): (r: seq<string>)
    ensures Subsequence(r, xs)
    ensures id !in r
    ensures forall k :: 0 <= k < |xs| && xs[k] != id ==> xs[k] in r
    ensures id !in xs ==> r == xs
  {
    if xs == [] then []
    else
      assert forall k :: 0 < k < |xs| ==> xs[k] == xs[1..][k - 1];
      if xs[0] == id then RemoveAll(xs[1..], id)
      else
        var rest := RemoveAll(xs[1..], id);
        assert ([xs[0]] + rest)[1..] == rest;
        [xs[0]] + rest
  }

  /** The filter keeps every other piece as often as it occurs: no
      duplicate is merged or dropped. */
  lemma {:induction false} RemoveAllCounts(xs: seq<string>, id: string)
    ensures forall y :: multiset(RemoveAll(xs, id))[y] == if y == id then 0 else multiset(xs)[y]
  {
    if xs != [] {
      RemoveAllCounts(xs[1..], id);
      assert xs == [xs[0]] + xs[1..];
      assert multiset(xs) == multiset([xs[0]]) + multiset(xs[1..]);
      var rest := RemoveAll(xs[1..], id);
      if xs[0] != id {
        assert RemoveAll(xs, id) == [xs[0]] + rest;
        assert multiset([xs[0]] + rest) == multiset([xs[0]]) + multiset(rest);
      }
    }
  }

  /** `removeValue(id)`. */
  function RemoveValue(st: State, items: seq<Item>, idProp: string, id: string): Outcome {
    if HasValue(st) then SetValue(st, items, idProp, Join(RemoveAll(Split(st.value.value, Sep), id), Sep), None, false)
    else Outcome(st, None)
  }

  /** `_selectLine`: a selected id is removed, any other added. */
  function SelectLine(st: State, items: seq<Item>, idProp: string, id: string): Outcome {
    if HasValue(st) && id in Split(st.value.value, Sep) then RemoveValue(st, items, idProp, id)
    else AddValue(st, items, idProp, id)
  }

  /** The pieces of a value never contain the separator. */
  lemma PiecesFree(v: string)
    ensures forall k :: 0 <= k < |Split(v, Sep)| ==> ';' !in Split(v, Sep)[k]
  {
    SplitPiecesFree(v, Sep);
    forall k | 0 <= k < |Split(v, Sep)|
      ensures ';' !in Split(v, Sep)[k]
    {
      ContainsChar(Split(v, Sep)[k], ';');
    }
  }

  /** Adding an id to a value appends it as one more piece. */
  lemma AppendPiece(v: string, id: string)
    requires ';' !in id
    ensures Split(v + Sep + id, Sep) == Split(v, Sep) + [id]
  {
    var xs := Split(v, Sep);
    JoinSplit(v, Sep);
    JoinAppend(xs, id, Sep);
    PiecesFree(v);
    assert forall k :: 0 <= k < |xs + [id]| ==> ';' !in (xs + [id])[k] by {
      forall k | 0 <= k < |xs + [id]|
        ensures ';' !in (xs + [id])[k]
      {
        if k < |xs| { assert (xs + [id])[k] == xs[k]; }
      }
    }
    SplitJoin(xs + [id], ';');
  }

  /** `addValue` sets the value to the id when there is none, and otherwise
      appends `;` and the id; an id without `;` becomes one more piece. */
  lemma AddValueSpec(st: State, items: seq<Item>, idProp: string, id: string)
    ensures !HasValue(st) && st.value != Some(id) ==> AddValue(st, items, idProp, id).state.value == Some(id)
    ensures HasValue(st) ==>
      var v := st.value.value;
      && AddValue(st, items, idProp, id).state.value == Some(v + Sep + id)
      && (';' !in id ==> AddValue(st, items, idProp, id).state.selected == Split(v, Sep) + [id])
  {
    if HasValue(st) {
      var v := st.value.value;
      assert |v + Sep + id| > |v|;
      if ';' !in id {
        AppendPiece(v, id);
      }
    }
  }

  /** `removeValue` leaves an empty value alone. Otherwise the new value
      joins the old pieces other than `id`, in order: the id is gone, every
      other piece stays, and removing the only piece leaves `''`. */
  lemma RemoveValueSpec(st: State, items: seq<Item>, idProp: string, id: string)
    ensures !HasValue(st) ==> RemoveValue(st, items, idProp, id) == Outcome(st, None)
    ensures HasValue(st) ==>
      var old_ := Split(st.value.value, Sep);
      var r := RemoveValue(st, items, idProp, id).state.value.value;
      var kept := RemoveAll(old_, id);
      && RemoveValue(st, items, idProp, id).state.value.Some?
      && (kept == [] ==> r == [])
      && (kept != [] ==> Split(r, Sep) == kept)
      && Subsequence(kept, old_) && id !in kept
      && (forall k :: 0 <= k < |old_| && old_[k] != id ==> old_[k] in kept)
      && (forall y :: multiset(kept)[y] == if y == id then 0 else multiset(old_)[y])
  {
    if HasValue(st) {
      var old_ := Split(st.value.value, Sep);
      var kept := RemoveAll(old_, id);
      RemoveAllCounts(old_, id);
      PiecesFree(st.value.value);
      if kept != [] {
        forall k | 0 <= k < |kept|
          ensures ';' !in kept[k]
        {
          var j := SubsequenceIn(kept, old_, k);
        }
        SplitJoin(kept, ';');
      }
    }
  }

  /** Selecting the same line twice restores a non-empty value that did not
      hold the id. */
  lemma SelectTwiceRestores(st: State, items: seq<Item>, idProp: string, id: string)
    requires HasValue(st) && ';' !in id && id !in Split(st.value.value, Sep)
    ensures var once := SelectLine(st, items, idProp, id).state;
      SelectLine(once, items, idProp, id).state.value == st.value
  {
    var v := st.value.value;
    var once := SelectLine(st, items, idProp, id).state;
    AddValueSpec(st, items, idProp, id);
    assert once.value == Some(v + Sep + id);
    AppendPiece(v, id);
    var pieces := Split(v, Sep) + [id];
    assert id in pieces;
    assert RemoveAll(pieces, id) == Split(v, Sep) by {
      RemoveAllAppend(Split(v, Sep), id);
    }
    JoinSplit(v, Sep);
    assert |v + Sep + id| > |v|;
  }

  /** Removing every occurrence of an id from a list that ends with it and
      has it nowhere else gives the rest of the list. */
  lemma {:induction false} RemoveAllAppend(xs: seq<string>, id: string)
    requires id !in xs
    ensures RemoveAll(xs + [id], id) == xs
  {
    if xs == [] {
      assert [] + [id] == [id];
      assert [id][1..] == [];
    } else {
      assert (xs + [id])[1..] == xs[1..] + [id];
      RemoveAllAppend(xs[1..], id);
      assert [xs[0]] + xs[1..] == xs;
    }
  }

  /** Selecting the same line twice from an empty value leaves `''`. */
  lemma SelectTwiceFromEmpty(st: State, items: seq<Item>, idProp: string, id: string)
    requires !HasValue(st) && ';' !in id
    ensures var once := SelectLine(st, items, idProp, id).state;
      SelectLine(once, items, idProp, id).state.value == Some([])
  {
    var once := SelectLine(st, items, idProp, id).state;
    if id != [] {
      assert once.value == Some(id);
      assert ';' !in id;
      ContainsChar(id, ';');
      SplitWithout(id, Sep);
      assert [id][1..] == [];
      assert RemoveAll([id], id) == [];
    }
  }

  /** `selectedItems.includes(item[idProp])`: the item's id is a string
      among the selected ids, compared strictly. */
  predicate Chosen(item: Item, idProp: string, selected: seq<string>) {
    Get(item, idProp).Str? && Get(item, idProp).s in selected
  }

  /** The items whose id is one of the selected ids, in item order. */
  function SelectedItems(items: seq<Item>, idProp: string, selected: seq<string>): (r: seq<Item>)
    ensures Subsequence(r, items)
    ensures forall k :: 0 <= k < |r| ==> exists s :: s in selected && Get(r[k], idProp) == Str(s)
    ensures forall j :: 0 <= j < |items| && (exists s :: s in selected && Get(items[j], idProp) == Str(s)) ==> items[j] in r
  {
    if items == [] then []
    else
      assert forall k :: 0 < k < |items| ==> items[k] == items[1..][k - 1];
      var rest := SelectedItems(items[1..], idProp, selected);
      if Chosen(items[0], idProp, selected) then
        assert ([items[0]] + rest)[1..] == rest;
        [items[0]] + rest
      else rest
  }

  /** The selection keeps each chosen item as often as the list holds it,
      and no other item. */
  lemma {:induction false} SelectedItemsCounts(items: seq<Item>, idProp: string, selected: seq<string>)
    ensures var r := SelectedItems(items, idProp, selected);
      forall x :: multiset(r)[x] == (if Chosen(x, idProp, selected) then multiset(items)[x] else 0)
  {
    if items != [] {
      SelectedItemsCounts(items[1..], idProp, selected);
      var keep := x => Chosen(x, idProp, selected);
      FilterCountsCons(keep, items, SelectedItems(items[1..], idProp, selected), SelectedItems(items, idProp, selected));
    }
  }

  /** A value as `Array.prototype.join` writes it: `undefined` and `null`
      as the empty string. */
  function JoinText(v: Value): string {
    if IsNullish(v) then [] else ToString(v)
  }

  function Texts(items: seq<Item>, textProp: string): (r: seq<string>)
    ensures |r| == |items|
    ensures forall k :: 0 <= k < |items| ==> r[k] == JoinText(Get(items[k], textProp))
  {
    if items == [] then [] else [JoinText(Get(items[0], textProp))] + Texts(items[1..], textProp)
  }

  /** What the input shows when the popover closes (local items): nothing
      without a value, else the texts of the selected items in item order,
      joined with `'; '`. */
  function ClosedText(st: State, items: seq<Item>, idProp: string, textProp: string): string {
    if st.value.None? then []
    else Join(Texts(SelectedItems(items, idProp, st.selected), textProp), Sep + " ")
  }

  /** The closed text is empty without a value or when no item holds a
      selected id, and is the text of the one selected item when there is
      just one. */
  lemma ClosedTextSpec(st: State, items: seq<Item>, idProp: string, textProp: string)
    ensures st.value.None? ==> ClosedText(st, items, idProp, textProp) == []
    ensures st.value.Some? && (forall j, s :: 0 <= j < |items| && s in st.selected ==> Get(items[j], idProp) != Str(s)) ==>
      ClosedText(st, items, idProp, textProp) == []
    ensures st.value.Some? && |SelectedItems(items, idProp, st.selected)| == 1 ==>
      ClosedText(st, items, idProp, textProp) == JoinText(Get(SelectedItems(items, idProp, st.selected)[0], textProp))
  {
    if st.value.Some? {
      var chosen := SelectedItems(items, idProp, st.selected);
      if chosen != [] {
        var s :| s in st.selected && Get(chosen[0], idProp) == Str(s);
        var j := SubsequenceIn(chosen, items, 0);
        assert Get(items[j], idProp) == Str(s);
      }
      if |chosen| == 1 {
        assert Texts(chosen, textProp) == [JoinText(Get(chosen[0], textProp))];
      }
    }
  }
}
