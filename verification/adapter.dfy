/**
 * The widget adapter: it answers the list widget's questions (how many
 * rows, which view type, which stable id) from the data source and the
 * handle it is attached to, and the handle attaches and detaches it
 * together with the data source.
 */
module DefinitionAdapter {
  import opened Common
  import opened Handle
  import opened DataSource
  import ItemGraph

  /**
   * The adapter's references. Attaching stores the handle and caches the
   * handle's data source; detaching clears both, so the two are always set
   * or cleared together and one field stands for both. The data source
   * itself is shared with the handle, so every query takes it as a
   * parameter.
   */
  datatype Adapter = Adapter(handle: Option<Handle>)

  /** The platform's answer when no stable id is available. */
  const NoId: int := -1

  /** `attach(handle)`. */
  function AttachAdapter(a: Adapter, h: Handle): (r: Adapter)
    ensures r.handle == Some(h)
  {
    Adapter(Some(h))
  }

  /** `detach()`. */
  function DetachAdapter(a: Adapter): (r: Adapter)
    ensures r.handle.None?
  {
    Adapter(None)
  }

  /** `getItemCount`: the source's size while attached, 0 otherwise. */
  function ItemCount(a: Adapter, s: Source): (n: nat)
    ensures a.handle.Some? ==> n == |s.items|
    ensures a.handle.None? ==> n == 0
  {
    if a.handle.Some? then Size(s) else 0
  }

  /**
   * The view type of the item at `position`: the item is read from the
   * source, then its class is looked up through the handle.
   */
  function ItemViewType(a: Adapter, s: Source, position: int): (r: Result<int>)
    ensures a.handle.None? ==> r == Err(IllegalState("No data source available."))
    ensures a.handle.Some? && !(0 <= position < |s.items|) ==> r == Err(IndexOutOfBounds(position, |s.items|))
    ensures a.handle.Some? && 0 <= position < |s.items| ==>
      r == GetViewTypeForClass(a.handle.value, ClassName(s.items[position]))
  {
    match a.handle
    case None => Err(IllegalState("No data source available."))
    case Some(h) =>
      var item :- Get(s, position);
      GetViewTypeForClass(h, ClassName(item))
  }

  /**
   * `getItemId`: the definition's id getter applied to the item when the
   * definition has one and it gives a value, the platform's `NoId`
   * otherwise. `idOf` stands for the id getter a definition was given.
   */
  function ItemId(a: Adapter, s: Source, position: int, idOf: Item -> Option<int>): (r: Result<int>)
    ensures a.handle.None? ==> r == Err(NullDereference)
    ensures a.handle.Some? && !(0 <= position < |s.items|) ==> r == Err(IndexOutOfBounds(position, |s.items|))
    ensures a.handle.Some? && 0 <= position < |s.items| ==>
      var item := s.items[position];
      var def := GetDefinitionForClass(a.handle.value, ClassName(item));
      && (r.Ok? <==> def.Ok?)
      && (r.Ok? && def.value.hasIdGetter && idOf(item).Some? ==> r.value == idOf(item).value)
      && (r.Ok? && !(def.value.hasIdGetter && idOf(item).Some?) ==> r.value == NoId)
  {
    match a.handle
    case None => Err(NullDereference)
    case Some(h) =>
      var item :- Get(s, position);
      var viewType :- GetViewTypeForClass(h, ClassName(item));
      var def :- GetDefinitionForType(h, viewType);
      if def.hasIdGetter && idOf(item).Some? then Ok(idOf(item).value) else Ok(NoId)
  }

  /**
   * `onViewRecycled`: the definition whose recycle callback runs, if any.
   * A holder that lost its position (-1) or a detached adapter runs none.
   */
  function RecycledDefinition(a: Adapter, s: Source, adapterPosition: int): (r: Result<Option<ItemGraph.ItemDef>>)
    ensures adapterPosition <= -1 || a.handle.None? ==> r == Ok(None)
    ensures adapterPosition > -1 && a.handle.Some? && adapterPosition < |s.items| ==>
      var def := GetDefinitionForClass(a.handle.value, ClassName(s.items[adapterPosition]));
      (r.Ok? <==> def.Ok?) && (r.Ok? ==> r.value == Some(def.value))
    ensures adapterPosition >= |s.items| && a.handle.Some? ==> r == Err(IndexOutOfBounds(adapterPosition, |s.items|))
  {
    if adapterPosition > -1 && a.handle.Some? then
      var item :- Get(s, adapterPosition);
      var def :- GetDefinitionForClass(a.handle.value, ClassName(item));
      Ok(Some(def))
    else Ok(None)
  }

  // ---------------------------------------------------------------------
  // The handle attaching its data source and adapter
  // ---------------------------------------------------------------------

  /** The data source and the adapter after an attach or detach, with the reports. */
  datatype Bound = Bound(source: Source, adapter: Adapter, log: seq<Event>)

  /** `attachDataSource`: the data source first (first handle wins), then the adapter. */
  function AttachDataSource(h: Handle, s: Source, a: Adapter): (r: Bound)
    ensures r.adapter.handle == Some(h)
    ensures r.source == DataSource.Attach(s, h).source && r.log == DataSource.Attach(s, h).log
    ensures s.handle.None? ==> r.source.handle == Some(h)
  {
    var step := DataSource.Attach(s, h);
    Bound(step.source, AttachAdapter(a, h), step.log)
  }

  /** `detachDataSource`: the data source first, then the adapter. */
  function DetachDataSource(s: Source, a: Adapter): (r: Bound)
    ensures r.source == DataSource.Detach(s) && r.adapter.handle.None? && r.log == []
  {
    Bound(DataSource.Detach(s), DetachAdapter(a), [])
  }

  /**
   * Once attached, the adapter shows every item of the source, and a
   * detach takes everything away again: no rows, no reports from later
   * edits, and no view type to ask for.
   */
  lemma AttachShowsAllThenDetachShowsNone(h: Handle, s: Source, a: Adapter, position: int)
    ensures var up := AttachDataSource(h, s, a);
      ItemCount(up.adapter, up.source) == |s.items|
    ensures var down := DetachDataSource(AttachDataSource(h, s, a).source, AttachDataSource(h, s, a).adapter);
      && ItemCount(down.adapter, down.source) == 0
      && down.source.items == s.items
      && down.source.handle.None? && down.source.listeners == []
      && ItemViewType(down.adapter, down.source, position) == Err(IllegalState("No data source available."))
  {
  }

  /**
   * While attached to a handle built from a registry, the view type of a
   * row is the type the registry gave the row's class.
   */
  lemma ViewTypeComesFromRegistry(id: nat, hasEmptyView: bool, g: ItemGraph.Graph, s: Source, position: int)
    requires 0 <= position < |s.items|
    requires ClassName(s.items[position]) in g.classToType
    ensures var a := AttachAdapter(Adapter(None), FromGraph(id, hasEmptyView, g));
      ItemViewType(a, s, position) == Ok(g.classToType[ClassName(s.items[position])])
  {
  }

  /** A definition without an id getter gives the platform's `NoId` for every row. */
  lemma NoIdGetterMeansNoId(a: Adapter, s: Source, position: int, idOf: Item -> Option<int>)
    requires a.handle.Some? && 0 <= position < |s.items|
    requires var def := GetDefinitionForClass(a.handle.value, ClassName(s.items[position]));
      def.Ok? && !def.value.hasIdGetter
    ensures ItemId(a, s, position, idOf) == Ok(NoId)
  {
  }
}
