/**
 * The setup builder and its finalisation: the builder collects the item
 * registry, the data source, the empty view and plugin data; finalising
 * validates the registry, decides stable ids, builds the handle, attaches
 * the data source, and only then lets the plugins attach.
 */
module Setup {
  import opened Common
  import ItemGraph
  import opened Handle
  import DataSource

  /** The side a swipe action is configured for. */
  datatype SwipeLocation = Left | Right

  /** A swipe action's key: its side and, for an item-specific action, the item class. */
  datatype ActionKey = ActionKey(location: SwipeLocation, itemClassName: Option<string>)

  /**
   * A configured swipe action. Its drawing configuration is not modelled;
   * `hasCallback` says whether a callback was given.
   */
  datatype SwipeAction = SwipeAction(id: nat, hasCallback: bool)

  /**
   * The plugin data this model knows: the swipe plugin's action table, and
   * any other plugin's data as an opaque tag.
   */
  datatype PluginData =
    | SwipePluginData(actions: map<ActionKey, SwipeAction>)
    | OtherPluginData(tag: nat)

  /** The list widget's layout manager. */
  datatype LayoutManager = NoLayoutManager | CustomLayoutManager(id: nat) | DefaultLinearLayoutManager

  /**
   * The builder. `pluginOrder` is the insertion order of the plugin names
   * (the order a linked map iterates in); `plugins` their current data.
   */
  datatype Setup = Setup(
    graph: ItemGraph.Graph,
    hasEmptyView: bool,
    source: Option<DataSource.Source>,
    pluginOrder: seq<string>,
    plugins: map<string, PluginData>,
    layoutManager: LayoutManager,
    hasGlobalClick: bool,
    hasGlobalLongClick: bool)

  /** The order lists each plugin name exactly once. */
  ghost predicate PluginsConsistent(s: Setup) {
    && (forall i, j :: 0 <= i < j < |s.pluginOrder| ==> s.pluginOrder[i] != s.pluginOrder[j])
    && (forall name :: name in s.plugins <==> name in s.pluginOrder)
  }

  /** A fresh builder for a widget with the given layout manager. */
  function NewSetup(layoutManager: LayoutManager): (s: Setup)
    ensures s.graph == ItemGraph.EmptyGraph && s.source.None? && !s.hasEmptyView
    ensures s.plugins == map[] && PluginsConsistent(s)
  {
    Setup(ItemGraph.EmptyGraph, false, None, [], map[], layoutManager, false, false)
  }

  // ---------------------------------------------------------------------
  // Builder setters: each stores its argument and changes nothing else
  // ---------------------------------------------------------------------

  function WithLayoutManager(s: Setup, id: nat): (r: Setup)
    ensures r == s.(layoutManager := CustomLayoutManager(id))
  {
    s.(layoutManager := CustomLayoutManager(id))
  }

  function WithEmptyView(s: Setup): (r: Setup)
    ensures r == s.(hasEmptyView := true)
  {
    s.(hasEmptyView := true)
  }

  function WithDataSource(s: Setup, source: DataSource.Source): (r: Setup)
    ensures r == s.(source := Some(source))
  {
    s.(source := Some(source))
  }

  function WithClickListener(s: Setup): (r: Setup)
    ensures r == s.(hasGlobalClick := true)
  {
    s.(hasGlobalClick := true)
  }

  function WithLongClickListener(s: Setup): (r: Setup)
    ensures r == s.(hasGlobalLongClick := true)
  {
    s.(hasGlobalLongClick := true)
  }

  /** `registerItemDefinition`: the registry's `register`. */
  function RegisterItemDefinition(s: Setup, layout: int, def: ItemGraph.ItemDef): (r: Setup)
    ensures r == s.(graph := ItemGraph.Register(s.graph, layout, def))
    ensures ItemGraph.TypeForName(r.graph, def.itemClassName) == Ok(ItemGraph.NextType(s.graph))
  {
    ItemGraph.RegisterLookups(s.graph, layout, def);
    s.(graph := ItemGraph.Register(s.graph, layout, def))
  }

  // ---------------------------------------------------------------------
  // Plugin data
  // ---------------------------------------------------------------------

  /**
   * `setPluginData(name, data)`: the name now maps to `data`; a new name is
   * appended to the order, a known one keeps its place.
   */
  function SetPluginData(s: Setup, name: string, data: PluginData): (r: Setup)
    ensures PluginsConsistent(s) ==> PluginsConsistent(r)
    ensures r.plugins == s.plugins[name := data]
    ensures name in s.plugins ==> r.pluginOrder == s.pluginOrder
    ensures name !in s.plugins ==> r.pluginOrder == s.pluginOrder + [name]
    ensures r == s.(plugins := r.plugins, pluginOrder := r.pluginOrder)
  {
    var order := if name in s.plugins then s.pluginOrder else s.pluginOrder + [name];
    s.(plugins := s.plugins[name := data], pluginOrder := order)
  }

  /**
   * `getPluginData(name)`: whatever is stored under the name. The cast to
   * the caller's type is unchecked, so data of another plugin comes back as
   * it is rather than as null.
   */
  function GetPluginData(s: Setup, name: string): (r: Option<PluginData>)
    ensures r.Some? <==> name in s.plugins
    ensures r.Some? ==> r.value == s.plugins[name]
  {
    if name in s.plugins then Some(s.plugins[name]) else None
  }

  /** The last write under a name wins, and writes under other names do not disturb it. */
  lemma PluginDataLastWriteWins(s: Setup, name: string, other: string, a: PluginData, b: PluginData)
    requires other != name
    ensures var once := SetPluginData(s, name, a);
      var twice := SetPluginData(once, name, b);
      && GetPluginData(twice, name) == Some(b)
      && GetPluginData(SetPluginData(once, other, b), name) == Some(a)
      && GetPluginData(twice, other) == GetPluginData(s, other)
  {
  }

  // ---------------------------------------------------------------------
  // Finalisation
  // ---------------------------------------------------------------------

  /** What a successful finalisation produces. */
  datatype Attached = Attached(handle: Handle, source: DataSource.Source, log: seq<Event>, stableIds: bool)

  const MissingSourceMessage: string := "Must set a data source."

  /**
   * `toAttached`: the data source must be set, the registry must validate,
   * and the stable-id policy must be consistent, in that order; then the
   * handle is built and the data source attached to it.
   */
  function ToAttached(s: Setup, handleId: nat): (r: Result<Attached>)
    ensures s.source.None? ==> r == Err(IllegalState(MissingSourceMessage))
    ensures s.source.Some? && ItemGraph.Validate(s.graph).Err? ==> r == Err(ItemGraph.Validate(s.graph).error)
    ensures s.source.Some? && ItemGraph.Validate(s.graph).Ok? && ItemGraph.HasStableIds(s.graph).Err? ==>
      r == Err(ItemGraph.HasStableIds(s.graph).error)
    ensures r.Ok? <==>
      s.source.Some? && ItemGraph.Validate(s.graph).Ok? && ItemGraph.HasStableIds(s.graph).Ok?
    ensures r.Ok? ==>
      && r.value.handle == FromGraph(handleId, s.hasEmptyView, s.graph)
      && r.value.stableIds == ItemGraph.HasStableIds(s.graph).value
      && r.value.source.items == s.source.value.items
      && (s.source.value.handle.None? ==>
            && r.value.source.handle == Some(r.value.handle)
            && DataSource.Reports(r.value.source, r.value.log, [DataSetChanged]))
  {
    match s.source
    case None => Err(IllegalState(MissingSourceMessage))
    case Some(source) =>
      var g :- ItemGraph.Validate(s.graph);
      var stable :- ItemGraph.HasStableIds(s.graph);
      var h := FromGraph(handleId, s.hasEmptyView, g);
      var step := DataSource.Attach(source, h);
      Ok(Attached(h, step.source, step.log, stable))
  }

  /** The outcome of `RecyclerView.setup`. */
  datatype SetupOutcome = SetupOutcome(
    layoutManager: LayoutManager,
    result: Result<Attached>,
    pluginsAttached: seq<string>)

  /**
   * `RecyclerView.setup`: a default linear layout manager when none is set,
   * then finalisation, then each plugin attaches in insertion order. A
   * failing finalisation attaches no plugin.
   */
  function SetupList(s: Setup, handleId: nat): (r: SetupOutcome)
    ensures s.layoutManager.NoLayoutManager? ==> r.layoutManager == DefaultLinearLayoutManager
    ensures !s.layoutManager.NoLayoutManager? ==> r.layoutManager == s.layoutManager
    ensures r.result == ToAttached(s, handleId)
    ensures r.result.Err? ==> r.pluginsAttached == []
    ensures r.result.Ok? ==> r.pluginsAttached == s.pluginOrder
  {
    var layoutManager := if s.layoutManager.NoLayoutManager? then DefaultLinearLayoutManager else s.layoutManager;
    var result := ToAttached(s, handleId);
    SetupOutcome(layoutManager, result, if result.Ok? then s.pluginOrder else [])
  }

  /**
   * The checks come in a fixed order: a missing data source is reported
   * even when nothing is registered, and an empty registry is reported
   * before the stable-id policy is looked at.
   */
  lemma FinalisationCheckOrder(s: Setup, handleId: nat)
    ensures s.source.None? ==> ToAttached(s, handleId) == Err(IllegalState("Must set a data source."))
    ensures s.source.Some? && s.graph == ItemGraph.EmptyGraph ==>
      ToAttached(s, handleId) == Err(IllegalState("No bindings defined."))
  {
  }

  /**
   * Mixing definitions with and without id getters fails finalisation with
   * the stable-id message, and then no plugin attaches.
   */
  lemma MixedStableIdsFail(handleId: nat, source: DataSource.Source, withId: ItemGraph.ItemDef, withoutId: ItemGraph.ItemDef)
    requires withId.hasIdGetter && !withoutId.hasIdGetter
    requires withId.itemClassName != withoutId.itemClassName
    ensures var s := RegisterItemDefinition(RegisterItemDefinition(
        WithDataSource(NewSetup(NoLayoutManager), source), 1, withId), 2, withoutId);
      && ToAttached(s, handleId) == Err(IllegalArgument(ItemGraph.StableIdsMessage))
      && SetupList(s, handleId).pluginsAttached == []
  {
    var s0 := WithDataSource(NewSetup(NoLayoutManager), source);
    var s1 := RegisterItemDefinition(s0, 1, withId);
    var s := RegisterItemDefinition(s1, 2, withoutId);
    var regs := [ItemGraph.Registration(1, withId), ItemGraph.Registration(2, withoutId)];
    assert regs[..1] == [ItemGraph.Registration(1, withId)];
    assert ItemGraph.RegisterAll(ItemGraph.EmptyGraph, regs[..1]) == s1.graph;
    ItemGraph.DistinctRegistrationsValidate(regs);
    var t1 := ItemGraph.NextType(s0.graph);
    var t2 := ItemGraph.NextType(s1.graph);
    assert t1 in s.graph.typeToDefinition && s.graph.typeToDefinition[t1].hasIdGetter;
    assert t2 in s.graph.typeToDefinition && !s.graph.typeToDefinition[t2].hasIdGetter;
  }

  /**
   * `withLayoutManager` decides the widget's layout manager: `setup` keeps
   * the chosen one whatever finalisation does, and the choice has no
   * bearing on finalisation itself.
   */
  lemma ChosenLayoutManagerIsKept(s: Setup, id: nat, handleId: nat)
    ensures SetupList(WithLayoutManager(s, id), handleId).layoutManager == CustomLayoutManager(id)
    ensures SetupList(WithLayoutManager(s, id), handleId).result == ToAttached(s, handleId)
  {
  }

  /**
   * With `withEmptyView`, finalising an unattached source leaves the empty
   * view visible exactly when the source has no items; without it no
   * visibility is written. The empty view does not decide whether
   * finalisation succeeds.
   */
  lemma EmptyViewShownIffSourceEmpty(s: Setup, handleId: nat)
    requires s.source.Some? && s.source.value.handle.None?
    ensures ToAttached(WithEmptyView(s), handleId).Ok? == ToAttached(s, handleId).Ok?
    ensures var r := ToAttached(WithEmptyView(s), handleId);
      r.Ok? ==> LastVisibility(r.value.log) == Some(VisibilityFor(|s.source.value.items| == 0))
    ensures var r := ToAttached(s.(hasEmptyView := false), handleId);
      r.Ok? ==> LastVisibility(r.value.log) == None
  {
  }

  /**
   * `withDataSource` supplies what finalisation attaches: the missing-source
   * failure no longer occurs, success depends on the registry alone, and
   * the attached source holds the given items; without a data source
   * finalisation fails.
   */
  lemma GivenDataSourceIsAttached(s: Setup, source: DataSource.Source, handleId: nat)
    ensures var r := ToAttached(WithDataSource(s, source), handleId);
      && (r.Ok? <==> ItemGraph.Validate(s.graph).Ok? && ItemGraph.HasStableIds(s.graph).Ok?)
      && (r.Ok? ==> r.value.source.items == source.items)
      && (r.Ok? && source.handle.None? ==> r.value.source.handle == Some(r.value.handle))
    ensures ToAttached(s.(source := None), handleId) == Err(IllegalState(MissingSourceMessage))
  {
  }
}
