/**
 * The handle a data source talks to once the list is set up: it forwards
 * notifications to the widget adapter, keeps the empty view in step with the
 * data, and answers the registry lookups the adapter needs.
 */
module Handle {
  import opened Common
  import ItemGraph

  /**
   * A handle built by the setup. `id` tells handles apart (the first-wins
   * attach rule of a data source compares them), `hasEmptyView` says whether
   * an empty view was given; the two maps are the registry's.
   */
  datatype Handle = Handle(
    id: nat,
    hasEmptyView: bool,
    classToType: map<string, int>,
    typeToDefinition: map<int, ItemGraph.ItemDef>)

  /** The handle the setup builds from a validated registry. */
  function FromGraph(id: nat, hasEmptyView: bool, g: ItemGraph.Graph): (h: Handle)
    ensures h.id == id && h.hasEmptyView == hasEmptyView
    ensures forall name :: name in h.classToType <==> name in g.classToType
    ensures forall t :: t in h.typeToDefinition <==> t in g.typeToDefinition
    ensures h.classToType == g.classToType && h.typeToDefinition == g.typeToDefinition
  {
    Handle(id, hasEmptyView, g.classToType, g.typeToDefinition)
  }

  /**
   * `showOrHideEmptyView`: the empty view becomes visible when `show` and
   * gone otherwise; without an empty view nothing happens.
   */
  function ShowOrHideEmptyView(h: Handle, show: bool): (log: seq<Event>)
    ensures |log| <= 1
    ensures forall i :: 0 <= i < |log| ==> log[i].EmptyViewSet? && log[i].visibility != Invisible
    ensures h.hasEmptyView ==> LastVisibility(log) == Some(if show then Visible else Gone)
    ensures !h.hasEmptyView ==> log == []
  {
    if h.hasEmptyView then [EmptyViewSet(VisibilityFor(show))] else []
  }

  /**
   * `invalidateList`: the adapter receives `block`, then the empty view is
   * shown iff the data source is empty.
   */
  function InvalidateList(h: Handle, block: seq<Event>, isEmpty: bool): (log: seq<Event>)
    requires forall i :: 0 <= i < |block| ==> IsAdapterEvent(block[i])
    ensures AdapterEvents(log) == block
    ensures ListenerCalls(log) == []
    ensures CallbackCount(log) == 0
    ensures h.hasEmptyView ==> LastVisibility(log) == Some(VisibilityFor(isEmpty))
    ensures !h.hasEmptyView ==> LastVisibility(log) == None
    ensures |log| > 0 ==> |block| > 0 || h.hasEmptyView
  {
    var view := ShowOrHideEmptyView(h, isEmpty);
    AdapterEventsAppend(block, view);
    AdapterEventsOfAdapterLog(block);
    ListenerCallsAppend(block, view);
    CallbackCountAppend(block, view);
    LastVisibilityAppend(block, view);
    NoCallbackInAdapterLog(block);
    AdapterLogIsQuiet(block);
    block + view
  }

  lemma {:induction false} NoCallbackInAdapterLog(log: seq<Event>)
    requires forall i :: 0 <= i < |log| ==> IsAdapterEvent(log[i])
    ensures CallbackCount(log) == 0
    decreases |log|
  {
    if |log| > 0 {
      NoCallbackInAdapterLog(log[..|log| - 1]);
    }
  }

  /** `getViewTypeForClass`: the registered type, or an error naming the class. */
  function GetViewTypeForClass(h: Handle, name: string): (r: Result<int>)
    ensures r.Ok? <==> name in h.classToType
    ensures r.Ok? ==> r.value == h.classToType[name]
    ensures r.Err? ==> r.error == IllegalState("Didn't find type for class " + name)
  {
    if name in h.classToType then Ok(h.classToType[name])
    else Err(IllegalState("Didn't find type for class " + name))
  }

  /** `getDefinitionForType`: the registered definition, or an error naming the type. */
  function GetDefinitionForType(h: Handle, t: int): (r: Result<ItemGraph.ItemDef>)
    ensures r.Ok? <==> t in h.typeToDefinition
    ensures r.Ok? ==> r.value == h.typeToDefinition[t]
    ensures r.Err? ==> r.error == IllegalState("Unable to view item definition for viewType " + IntToString(t))
  {
    if t in h.typeToDefinition then Ok(h.typeToDefinition[t])
    else Err(IllegalState("Unable to view item definition for viewType " + IntToString(t)))
  }

  /** `getDefinitionForClass`: the class's type, then that type's definition. */
  function GetDefinitionForClass(h: Handle, name: string): (r: Result<ItemGraph.ItemDef>)
    ensures r.Ok? <==> name in h.classToType && h.classToType[name] in h.typeToDefinition
    ensures r.Ok? ==> r.value == h.typeToDefinition[h.classToType[name]]
    ensures name !in h.classToType ==> r == Err(IllegalState("Didn't find type for class " + name))
    ensures name in h.classToType && r.Err? ==>
      r == Err(IllegalState("Unable to view item definition for viewType " + IntToString(h.classToType[name])))
  {
    var t :- GetViewTypeForClass(h, name);
    GetDefinitionForType(h, t)
  }

  /**
   * The handle answers exactly what the registry it was built from answers:
   * the same type for every class and the same definition for every type
   * (only the wording of the failures differs).
   */
  lemma HandleAgreesWithGraph(id: nat, hasEmptyView: bool, g: ItemGraph.Graph, name: string, t: int)
    ensures var h := FromGraph(id, hasEmptyView, g);
      && GetViewTypeForClass(h, name).Ok? == ItemGraph.TypeForName(g, name).Ok?
      && (GetViewTypeForClass(h, name).Ok? ==>
            GetViewTypeForClass(h, name).value == ItemGraph.TypeForName(g, name).value)
      && GetDefinitionForType(h, t).Ok? == ItemGraph.DefinitionForType(g, t).Ok?
      && (GetDefinitionForType(h, t).Ok? ==>
            GetDefinitionForType(h, t).value == ItemGraph.DefinitionForType(g, t).value)
      && GetDefinitionForClass(h, name).Ok? == ItemGraph.DefinitionForName(g, name).Ok?
      && (GetDefinitionForClass(h, name).Ok? ==>
            GetDefinitionForClass(h, name).value == ItemGraph.DefinitionForName(g, name).value)
  {
  }

  /**
   * After a definition is registered, a handle built from the registry maps
   * its class to its definition.
   */
  lemma RegisteredClassResolves(id: nat, hasEmptyView: bool, g: ItemGraph.Graph, layout: int, def: ItemGraph.ItemDef)
    ensures var h := FromGraph(id, hasEmptyView, ItemGraph.Register(g, layout, def));
      && GetViewTypeForClass(h, def.itemClassName) == Ok(ItemGraph.NextType(g))
      && GetDefinitionForClass(h, def.itemClassName) == Ok(def)
  {
  }
}
