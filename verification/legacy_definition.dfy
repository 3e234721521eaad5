/**
 * An item definition of the older setup: the class it is for, and which of
 * the view holder creator, the binder and the two item listeners were given.
 * It creates and binds the view holders of its rows and dispatches their
 * clicks, to its own listener first and then to the setup's global one.
 */
module LegacyDefinition {
  import opened Common
  import LegacySource

  datatype Definition = Definition(
    itemClassName: string,
    hasCreator: bool,
    hasBinder: bool,
    hasItemClick: bool,
    hasItemLongClick: bool)

  /** A definition for the class, with nothing configured yet. */
  function NewDefinition(itemClassName: string): (d: Definition)
    ensures d.itemClassName == itemClassName
    ensures !d.hasCreator && !d.hasBinder && !d.hasItemClick && !d.hasItemLongClick
  {
    Definition(itemClassName, false, false, false, false)
  }

  /** `onBind(creator, binder)`. */
  function OnBind(d: Definition): (r: Definition)
    ensures r == d.(hasCreator := true, hasBinder := true)
  {
    d.(hasCreator := true, hasBinder := true)
  }

  /** `onClick(listener)`. */
  function OnClick(d: Definition): (r: Definition)
    ensures r == d.(hasItemClick := true)
  {
    d.(hasItemClick := true)
  }

  /** `onLongClick(listener)`. */
  function OnLongClick(d: Definition): (r: Definition)
    ensures r == d.(hasItemLongClick := true)
  {
    d.(hasItemLongClick := true)
  }

  /** Which listeners a row view was given. */
  datatype Wiring = Wiring(clickListener: bool, longClickListener: bool)

  /** The row view's wiring and the exception raised, if any. */
  datatype Created = Created(wiring: Wiring, thrown: Option<Error>)

  /**
   * `createViewHolder`: the row view gets the click listener when the
   * definition or the setup has a click callback, and likewise for long
   * clicks; this happens before the creator is looked for, so a missing
   * creator fails with the view already wired.
   */
  function CreateViewHolder(d: Definition, globalClick: bool, globalLongClick: bool): (r: Created)
    ensures r.wiring.clickListener <==> d.hasItemClick || globalClick
    ensures r.wiring.longClickListener <==> d.hasItemLongClick || globalLongClick
    ensures r.thrown.None? <==> d.hasCreator
    ensures r.thrown.Some? ==>
      r.thrown.value == IllegalState("View holder creator not provided for item definition " + d.itemClassName)
  {
    var wiring := Wiring(d.hasItemClick || globalClick, d.hasItemLongClick || globalLongClick);
    if d.hasCreator then Created(wiring, None)
    else Created(wiring, Some(IllegalState("View holder creator not provided for item definition " + d.itemClassName)))
  }

  /**
   * A bound row: the position stored in the view's tag, the class of the
   * definition that bound it, the item its binder was handed, and whether a
   * binder ran.
   */
  datatype BoundRow = BoundRow(tag: int, boundBy: string, item: Item, binderRan: bool)

  /**
   * `bindViewHolder`: the position is stored in the view's tag and the
   * binder, if any, runs with the item. The cast to the definition's item
   * type is erased, so it cannot fail: an item of another class is bound by
   * this definition all the same, and its binder receives that item.
   */
  function BindViewHolder(d: Definition, item: Item, position: int): (r: BoundRow)
    ensures r.tag == position && r.item == item
    ensures r.boundBy == d.itemClassName
    ensures r.binderRan <==> d.hasBinder
  {
    BoundRow(position, d.itemClassName, item, d.hasBinder)
  }

  /** One click callback call, with the position and the item it received. */
  datatype ClickCall = ItemListenerCall(position: int, item: Item) | GlobalListenerCall(position: int, item: Item)

  /**
   * What a click on a row does (with the click listeners) and what a long
   * click does before it is consumed (with the long-click listeners): the tag gives the position, the setup's data
   * source the item; then the definition's own listener, if any, and then
   * the global one, if any, receive them.
   */
  function ClickCalls(hasItemListener: bool, hasGlobalListener: bool, tag: Option<int>, source: Option<LegacySource.LegacySource>): (r: Result<seq<ClickCall>>)
    ensures tag.None? ==> r == Err(IllegalState("Didn't find viewType in itemView tag."))
    ensures tag.Some? && source.None? ==> r == Err(IllegalState("Data source unexpectedly null."))
    ensures tag.Some? && source.Some? ==>
      var p := tag.value;
      var items := source.value.items;
      && (r.Ok? <==> 0 <= p < |items|)
      && (r.Err? ==> r.error == IndexOutOfBounds(p, |items|))
      && (r.Ok? ==>
            && |r.value| == (if hasItemListener then 1 else 0) + (if hasGlobalListener then 1 else 0)
            && (forall i :: 0 <= i < |r.value| ==> r.value[i].position == p && r.value[i].item == items[p])
            && (hasItemListener ==> r.value[0].ItemListenerCall?)
            && (hasGlobalListener ==> r.value[|r.value| - 1].GlobalListenerCall?))
  {
    match tag
    case None => Err(IllegalState("Didn't find viewType in itemView tag."))
    case Some(p) =>
      match source
      case None => Err(IllegalState("Data source unexpectedly null."))
      case Some(s) =>
        var item :- LegacySource.Get(s, p);
        Ok((if hasItemListener then [ItemListenerCall(p, item)] else [])
          + (if hasGlobalListener then [GlobalListenerCall(p, item)] else []))
  }

  /** A long click: the same dispatch with the long-click listeners, and it is always consumed. */
  function OnRowLongClick(d: Definition, globalLongClick: bool, tag: Option<int>, source: Option<LegacySource.LegacySource>): (r: Result<(seq<ClickCall>, bool)>)
    ensures r.Ok? <==> ClickCalls(d.hasItemLongClick, globalLongClick, tag, source).Ok?
    ensures r.Ok? ==> r.value.1 && r.value.0 == ClickCalls(d.hasItemLongClick, globalLongClick, tag, source).value
    ensures r.Err? ==> r.error == ClickCalls(d.hasItemLongClick, globalLongClick, tag, source).error
  {
    var calls :- ClickCalls(d.hasItemLongClick, globalLongClick, tag, source);
    Ok((calls, true))
  }

  /**
   * A row that was bound at `position` and then clicked hands the item at
   * that position to the listeners, the definition's first: the tag written
   * by binding is the position the click reads.
   */
  lemma ClickAfterBindSeesBoundItem(d: Definition, globalClick: bool, s: LegacySource.LegacySource, position: int)
    requires 0 <= position < |s.items|
    requires d.hasItemClick
    ensures var bound := BindViewHolder(d, s.items[position], position);
      && var calls := ClickCalls(d.hasItemClick, globalClick, Some(bound.tag), Some(s));
      && calls.Ok?
      && calls.value[0] == ItemListenerCall(position, bound.item)
      && (globalClick ==> calls.value == [ItemListenerCall(position, bound.item), GlobalListenerCall(position, bound.item)])
  {
  }

  /**
   * `onBind` is what lets a definition's rows be created and bound: a
   * definition without it fails to create its view holder, and with it
   * creating succeeds with the same listener wiring and binding runs the
   * binder.
   */
  lemma OnBindEnablesRows(d: Definition, item: Item, position: int, globalClick: bool, globalLongClick: bool)
    ensures CreateViewHolder(NewDefinition(d.itemClassName), globalClick, globalLongClick).thrown.Some?
    ensures CreateViewHolder(OnBind(d), globalClick, globalLongClick).thrown.None?
    ensures CreateViewHolder(OnBind(d), globalClick, globalLongClick).wiring == CreateViewHolder(d, globalClick, globalLongClick).wiring
    ensures BindViewHolder(OnBind(d), item, position).binderRan
    ensures OnBind(d).itemClassName == d.itemClassName
  {
  }

  /**
   * `onClick` gives the row view a click listener, leaves the long-click
   * wiring alone, and a click calls the definition's listener first, with
   * the clicked position and its item.
   */
  lemma OnClickCalledFirst(d: Definition, globalClick: bool, globalLongClick: bool, s: LegacySource.LegacySource, position: int)
    requires 0 <= position < |s.items|
    ensures CreateViewHolder(OnClick(d), globalClick, globalLongClick).wiring.clickListener
    ensures CreateViewHolder(OnClick(d), globalClick, globalLongClick).wiring.longClickListener
      == CreateViewHolder(d, globalClick, globalLongClick).wiring.longClickListener
    ensures var calls := ClickCalls(OnClick(d).hasItemClick, globalClick, Some(position), Some(s));
      calls.Ok? && calls.value[0] == ItemListenerCall(position, s.items[position])
  {
  }

  /**
   * `onLongClick` gives the row view a long-click listener, and a long
   * click calls the definition's listener first and is consumed.
   */
  lemma OnLongClickCalledFirst(d: Definition, globalClick: bool, globalLongClick: bool, s: LegacySource.LegacySource, position: int)
    requires 0 <= position < |s.items|
    ensures CreateViewHolder(OnLongClick(d), globalClick, globalLongClick).wiring.longClickListener
    ensures CreateViewHolder(OnLongClick(d), globalClick, globalLongClick).wiring.clickListener
      == CreateViewHolder(d, globalClick, globalLongClick).wiring.clickListener
    ensures var r := OnRowLongClick(OnLongClick(d), globalLongClick, Some(position), Some(s));
      r.Ok? && r.value.1 && r.value.0[0] == ItemListenerCall(position, s.items[position])
  {
  }
}
