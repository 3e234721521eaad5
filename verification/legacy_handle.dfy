/**
 * The two handles of the older library: the data class that carries the
 * adapter and the registry maps, and the class that also answers the
 * registry lookups. Both keep the empty view in step with the data.
 */
module LegacyHandle {
  import opened Common
  import LegacyDefinition
  import Handle

  /**
   * The shared empty-view write: visible when `show`, gone otherwise, and
   * nothing at all when no empty view was given.
   */
  function EmptyViewWrite(hasEmptyView: bool, show: bool): (log: seq<Event>)
    ensures hasEmptyView ==> LastVisibility(log) == Some(VisibilityFor(show))
    ensures !hasEmptyView ==> log == []
    ensures AdapterEvents(log) == []
  {
    if hasEmptyView then [EmptyViewSet(VisibilityFor(show))] else []
  }

  // ---------------------------------------------------------------------
  // The data-class handle
  // ---------------------------------------------------------------------

  datatype DataHandle = DataHandle(
    hasEmptyView: bool,
    classToType: map<string, int>,
    bindingsToTypes: map<int, LegacyDefinition.Definition>)

  function ShowEmptyViewOf(h: DataHandle): (log: seq<Event>)
    ensures h.hasEmptyView ==> LastVisibility(log) == Some(Visible)
    ensures !h.hasEmptyView ==> log == []
  {
    EmptyViewWrite(h.hasEmptyView, true)
  }

  /**
   * `hideEmptyView` of the data class as written: it passes `true` on, so
   * it shows the empty view instead of hiding it.
   */
  function HideEmptyViewAsWritten(h: DataHandle): (log: seq<Event>)
    ensures !h.hasEmptyView ==> log == []
    ensures log == ShowEmptyViewOf(h)
  {
    EmptyViewWrite(h.hasEmptyView, true)
  }

  function ShowOrHideEmptyViewOf(h: DataHandle, show: bool): (log: seq<Event>)
    ensures h.hasEmptyView ==> LastVisibility(log) == Some(VisibilityFor(show))
    ensures !h.hasEmptyView ==> log == []
  {
    EmptyViewWrite(h.hasEmptyView, show)
  }

  /** With an empty view, the data class's `hideEmptyView` leaves it visible. */
  lemma HideEmptyViewShows(h: DataHandle)
    requires h.hasEmptyView
    ensures LastVisibility(HideEmptyViewAsWritten(h)) == Some(Visible)
    ensures LastVisibility(HideEmptyViewAsWritten(h)) != LastVisibility(ShowOrHideEmptyViewOf(h, false))
  {
  }

  // ---------------------------------------------------------------------
  // The handle class
  // ---------------------------------------------------------------------

  datatype RealHandle = RealHandle(
    hasEmptyView: bool,
    classToType: map<string, int>,
    bindingsToTypes: map<int, LegacyDefinition.Definition>)

  /** The data-class handle carrying the same empty view and registry. */
  function AsDataHandle(h: RealHandle): (d: DataHandle)
    ensures d.hasEmptyView == h.hasEmptyView
    ensures d.classToType == h.classToType && d.bindingsToTypes == h.bindingsToTypes
  {
    DataHandle(h.hasEmptyView, h.classToType, h.bindingsToTypes)
  }

  /** `showEmptyView` of the handle class: the data class's write. */
  function ShowEmptyView(h: RealHandle): (log: seq<Event>)
    ensures h.hasEmptyView ==> LastVisibility(log) == Some(Visible)
    ensures !h.hasEmptyView ==> log == []
  {
    ShowEmptyViewOf(AsDataHandle(h))
  }

  /** `hideEmptyView` of the handle class: the empty view is gone. */
  function HideEmptyView(h: RealHandle): (log: seq<Event>)
    ensures h.hasEmptyView ==> LastVisibility(log) == Some(Gone)
    ensures !h.hasEmptyView ==> log == []
  {
    EmptyViewWrite(h.hasEmptyView, false)
  }

  /** `showOrHideEmptyView` of the handle class: the data class's write. */
  function ShowOrHideEmptyView(h: RealHandle, show: bool): (log: seq<Event>)
    ensures h.hasEmptyView ==> LastVisibility(log) == Some(VisibilityFor(show))
    ensures !h.hasEmptyView ==> log == []
  {
    ShowOrHideEmptyViewOf(AsDataHandle(h), show)
  }

  /**
   * Hiding agrees with `showOrHideEmptyView(false)` and undoes a show, and
   * the data class's version differs from it exactly when there is an empty
   * view to hide.
   */
  lemma HideEmptyViewHides(h: RealHandle)
    ensures HideEmptyView(h) == ShowOrHideEmptyView(h, false)
    ensures h.hasEmptyView ==> LastVisibility(ShowEmptyView(h) + HideEmptyView(h)) == Some(Gone)
    ensures HideEmptyViewAsWritten(AsDataHandle(h)) == HideEmptyView(h) <==> !h.hasEmptyView
  {
    LastVisibilityAppend(ShowEmptyView(h), HideEmptyView(h));
  }

  /**
   * `invalidateList` (both classes): the adapter receives `block`, then the
   * empty view is shown iff the data source is empty.
   */
  function InvalidateList(hasEmptyView: bool, block: seq<Event>, isEmpty: bool): (log: seq<Event>)
    requires forall i :: 0 <= i < |block| ==> IsAdapterEvent(block[i])
    ensures AdapterEvents(log) == block
    ensures hasEmptyView ==> LastVisibility(log) == Some(VisibilityFor(isEmpty))
  {
    var view := EmptyViewWrite(hasEmptyView, isEmpty);
    AdapterEventsAppend(block, view);
    AdapterEventsOfAdapterLog(block);
    LastVisibilityAppend(block, view);
    block + view
  }

  /** The older `invalidateList` has exactly the effects of the current handle's. */
  lemma InvalidateListAsCurrent(h: Handle.Handle, block: seq<Event>, isEmpty: bool)
    requires forall i :: 0 <= i < |block| ==> IsAdapterEvent(block[i])
    ensures InvalidateList(h.hasEmptyView, block, isEmpty) == Handle.InvalidateList(h, block, isEmpty)
  {
  }

  /** `getViewTypeForClass`. */
  function GetViewTypeForClass(h: RealHandle, name: string): (r: Result<int>)
    ensures r.Ok? <==> name in h.classToType
    ensures r.Ok? ==> r.value == h.classToType[name]
    ensures r.Err? ==> r.error == IllegalState("Didn't find type for class " + name)
  {
    if name in h.classToType then Ok(h.classToType[name])
    else Err(IllegalState("Didn't find type for class " + name))
  }

  /**
   * `getDefinitionForType`. The failure message interpolates the handle
   * itself, not the type; `handleText` stands for the handle's text form.
   */
  function GetDefinitionForType(h: RealHandle, t: int, handleText: string): (r: Result<LegacyDefinition.Definition>)
    ensures r.Ok? <==> t in h.bindingsToTypes
    ensures r.Ok? ==> r.value == h.bindingsToTypes[t]
    ensures r.Err? ==> r.error == IllegalState("Unable to view item definition for viewType " + handleText)
  {
    if t in h.bindingsToTypes then Ok(h.bindingsToTypes[t])
    else Err(IllegalState("Unable to view item definition for viewType " + handleText))
  }

  /** `getDefinitionForClass`: the class's type, then that type's definition. */
  function GetDefinitionForClass(h: RealHandle, name: string, handleText: string): (r: Result<LegacyDefinition.Definition>)
    ensures r.Ok? <==> name in h.classToType && h.classToType[name] in h.bindingsToTypes
    ensures r.Ok? ==> r.value == h.bindingsToTypes[h.classToType[name]]
    ensures name !in h.classToType ==> r == Err(IllegalState("Didn't find type for class " + name))
  {
    var t :- GetViewTypeForClass(h, name);
    GetDefinitionForType(h, t, handleText)
  }

  /**
   * The lookups of the older handle find what the current handle finds in
   * the same maps; the missing-definition message does not say which type
   * was missing.
   */
  lemma LookupsAsCurrent(h: RealHandle, c: Handle.Handle, name: string, t: int, handleText: string)
    requires c.classToType == h.classToType
    requires c.typeToDefinition.Keys == h.bindingsToTypes.Keys
    ensures GetViewTypeForClass(h, name) == Handle.GetViewTypeForClass(c, name)
    ensures GetDefinitionForType(h, t, handleText).Ok? == Handle.GetDefinitionForType(c, t).Ok?
    ensures GetDefinitionForClass(h, name, handleText).Ok? == Handle.GetDefinitionForClass(c, name).Ok?
    ensures t !in h.bindingsToTypes ==> forall u :: u !in h.bindingsToTypes ==>
      GetDefinitionForType(h, u, handleText) == GetDefinitionForType(h, t, handleText)
  {
  }
}
