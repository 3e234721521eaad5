/**
 * The setup of the older library: `withItem` writes the two registry maps
 * (class name to layout, layout to definition) and `setup` checks them,
 * installs a default layout manager, builds the adapter and attaches the
 * data source to it.
 */
module LegacySetup {
  import opened Common
  import LegacySource
  import LegacyDefinition
  import LegacyAdapter
  import Setup

  datatype LegacySetup = LegacySetup(
    classToType: map<string, int>,
    bindingsToTypes: map<int, LegacyDefinition.Definition>,
    hasEmptyView: bool,
    source: Option<LegacySource.LegacySource>,
    layoutManager: Setup.LayoutManager,
    hasGlobalClick: bool)

  /** A fresh setup for a widget with the given layout manager. */
  function NewLegacySetup(layoutManager: Setup.LayoutManager): (s: LegacySetup)
    ensures s.classToType == map[] && s.bindingsToTypes == map[]
    ensures s.source.None? && !s.hasEmptyView && !s.hasGlobalClick
  {
    LegacySetup(map[], map[], false, None, layoutManager, false)
  }

  function WithLayoutManager(s: LegacySetup, id: nat): (r: LegacySetup)
    ensures r == s.(layoutManager := Setup.CustomLayoutManager(id))
  {
    s.(layoutManager := Setup.CustomLayoutManager(id))
  }

  function WithEmptyView(s: LegacySetup): (r: LegacySetup)
    ensures r == s.(hasEmptyView := true)
  {
    s.(hasEmptyView := true)
  }

  function WithDataSource(s: LegacySetup, source: LegacySource.LegacySource): (r: LegacySetup)
    ensures r == s.(source := Some(source))
  {
    s.(source := Some(source))
  }

  function WithClickListener(s: LegacySetup): (r: LegacySetup)
    ensures r == s.(hasGlobalClick := true)
  {
    s.(hasGlobalClick := true)
  }

  /**
   * `withItem(layoutRes)`: the class now maps to the layout and the layout to
   * the definition; earlier entries under the same class or layout are
   * overwritten, and nothing else changes.
   */
  function WithItem(s: LegacySetup, layoutRes: int, def: LegacyDefinition.Definition): (r: LegacySetup)
    ensures r.classToType.Keys == s.classToType.Keys + {def.itemClassName}
    ensures r.bindingsToTypes.Keys == s.bindingsToTypes.Keys + {layoutRes}
    ensures r.classToType[def.itemClassName] == layoutRes && r.bindingsToTypes[layoutRes] == def
    ensures forall name :: name in s.classToType && name != def.itemClassName ==> r.classToType[name] == s.classToType[name]
    ensures forall t :: t in s.bindingsToTypes && t != layoutRes ==> r.bindingsToTypes[t] == s.bindingsToTypes[t]
    ensures r.source == s.source && r.hasEmptyView == s.hasEmptyView && r.layoutManager == s.layoutManager
  {
    s.(classToType := s.classToType[def.itemClassName := layoutRes],
       bindingsToTypes := s.bindingsToTypes[layoutRes := def])
  }

  const NoBindings: Error := IllegalState("No bindings defined.")
  const MismatchedMaps: Error := IllegalState("Something is very wrong - binding maps don't have matching sizes.")

  /** The two registry checks of `setup`, as written: something registered, and equal map sizes. */
  function RegistryChecks(s: LegacySetup): (r: Result<()>)
    ensures |s.classToType| == 0 ==> r == Err(NoBindings)
    ensures |s.classToType| != 0 && |s.bindingsToTypes| != |s.classToType| ==> r == Err(MismatchedMaps)
    ensures r.Ok? <==> |s.classToType| != 0 && |s.bindingsToTypes| == |s.classToType|
  {
    if |s.classToType| == 0 then Err(NoBindings)
    else if |s.bindingsToTypes| != |s.classToType| then Err(MismatchedMaps)
    else Ok(())
  }

  /** Every registered class's layout leads back to a definition of that class. */
  ghost predicate RegistryConsistent(classToType: map<string, int>, bindingsToTypes: map<int, LegacyDefinition.Definition>) {
    forall name :: name in classToType ==>
      classToType[name] in bindingsToTypes && bindingsToTypes[classToType[name]].itemClassName == name
  }

  /**
   * The registry checks with the consistency the size comparison stands in
   * for: after the two original checks, each class's layout must map to a
   * definition of that class.
   */
  function CorrectedRegistryChecks(s: LegacySetup): (r: Result<()>)
    ensures RegistryChecks(s).Err? ==> r == RegistryChecks(s)
    ensures r.Ok? <==> RegistryChecks(s).Ok? && RegistryConsistent(s.classToType, s.bindingsToTypes)
  {
    var _ :- RegistryChecks(s);
    if forall name | name in s.classToType ::
        s.classToType[name] in s.bindingsToTypes && s.bindingsToTypes[s.classToType[name]].itemClassName == name
    then Ok(())
    else Err(MismatchedMaps)
  }

  /** What `setup` leaves behind: the data source attached to the new adapter. */
  datatype Wired = Wired(source: LegacySource.LegacySource, adapter: LegacyAdapter.LegacyAdapter)

  /** The widget's layout manager afterwards and the outcome. */
  datatype LegacyOutcome = LegacyOutcome(layoutManager: Setup.LayoutManager, result: Result<Wired>)

  /** The steps of `setup` after the registry checks passed. */
  function Finish(s: LegacySetup): (r: LegacyOutcome)
    ensures s.layoutManager.NoLayoutManager? ==> r.layoutManager == Setup.DefaultLinearLayoutManager
    ensures !s.layoutManager.NoLayoutManager? ==> r.layoutManager == s.layoutManager
    ensures r.result.Err? <==> s.source.None?
    ensures r.result.Err? ==> r.result.error == LegacyAdapter.MissingSource
    ensures r.result.Ok? ==>
      && r.result.value.source.items == s.source.value.items
      && r.result.value.source.attached
      && r.result.value.source.hasEmptyView == s.hasEmptyView
      && r.result.value.adapter == LegacyAdapter.LegacyAdapter(s.classToType, s.bindingsToTypes)
  {
    var layoutManager := if s.layoutManager.NoLayoutManager? then Setup.DefaultLinearLayoutManager else s.layoutManager;
    match s.source
    case None => LegacyOutcome(layoutManager, Err(LegacyAdapter.MissingSource))
    case Some(source) =>
      var adapter := LegacyAdapter.NewAdapter(s.classToType, s.bindingsToTypes, s.source).value;
      var attached := LegacySource.FinishSetup(LegacySource.AttachAdapter(source), s.hasEmptyView);
      LegacyOutcome(layoutManager, Ok(Wired(attached, adapter)))
  }

  /**
   * `setup` as written: the registry checks first (a failure leaves the
   * layout manager alone), then the default layout manager, then the data
   * source, which must be set.
   */
  function SetupList(s: LegacySetup): (r: LegacyOutcome)
    ensures RegistryChecks(s).Err? ==> r == LegacyOutcome(s.layoutManager, Err(RegistryChecks(s).error))
    ensures RegistryChecks(s).Ok? ==> r == Finish(s)
  {
    match RegistryChecks(s)
    case Err(e) => LegacyOutcome(s.layoutManager, Err(e))
    case Ok(_) => Finish(s)
  }

  /** `setup` with the corrected registry checks. */
  function CorrectedSetupList(s: LegacySetup): (r: LegacyOutcome)
    ensures CorrectedRegistryChecks(s).Err? ==> r == LegacyOutcome(s.layoutManager, Err(CorrectedRegistryChecks(s).error))
    ensures CorrectedRegistryChecks(s).Ok? ==> r == Finish(s)
    ensures r.result.Ok? ==> SetupList(s) == r
  {
    match CorrectedRegistryChecks(s)
    case Err(e) => LegacyOutcome(s.layoutManager, Err(e))
    case Ok(_) => Finish(s)
  }

  /**
   * The check order: nothing registered is reported first, even without a
   * data source; a missing data source is only found after the default
   * layout manager was installed.
   */
  lemma SetupCheckOrder(s: LegacySetup)
    ensures s.classToType == map[] ==> SetupList(s).result == Err(NoBindings)
    ensures RegistryChecks(s).Ok? && s.source.None? ==>
      && SetupList(s).result == Err(LegacyAdapter.MissingSource)
      && !SetupList(s).layoutManager.NoLayoutManager?
  {
  }

  /** Two classes on one layout leave one definition for two classes, and `setup` rejects that. */
  lemma SharedLayoutRejected(s: LegacySetup, layoutRes: int, a: LegacyDefinition.Definition, b: LegacyDefinition.Definition)
    requires s.classToType == map[] && s.bindingsToTypes == map[]
    requires a.itemClassName != b.itemClassName
    ensures SetupList(WithItem(WithItem(s, layoutRes, a), layoutRes, b)).result == Err(MismatchedMaps)
  {
    var r := WithItem(WithItem(s, layoutRes, a), layoutRes, b);
    assert r.classToType.Keys == {a.itemClassName, b.itemClassName};
    assert r.bindingsToTypes.Keys == {layoutRes};
  }

  /**
   * The size comparison misses a crossed registry: class `a` registered on
   * one layout and again on a second, which class `b` then also takes. Both
   * maps have two entries and `setup` succeeds; a row of class `a` is then
   * bound by `b`'s definition, whose binder receives the `a` item.
   */
  lemma CrossedRegistryPassesSetup(source: LegacySource.LegacySource, x: Item, a: LegacyDefinition.Definition, b: LegacyDefinition.Definition)
    requires source.items == [x] && ClassName(x) == a.itemClassName
    requires a.itemClassName != b.itemClassName
    ensures var s := CrossedSetup(source, a, b);
      && SetupList(s).result.Ok?
      && var w := SetupList(s).result.value;
      && LegacyAdapter.BindViewHolder(w.adapter, w.source, 0) == Ok(LegacyDefinition.BindViewHolder(b, x, 0))
      && LegacyAdapter.BindViewHolder(w.adapter, w.source, 0).value.boundBy != ClassName(x)
  {
    var s := CrossedSetup(source, a, b);
    assert RegistryChecks(s).Ok?;
    var w := SetupList(s).result.value;
    assert w.adapter.classToType == s.classToType && w.adapter.bindingsToTypes == s.bindingsToTypes;
    assert w.source.items == [x];
  }

  /**
   * The crossed registry: class `a` registered on layout 1, then again on
   * layout 2, then class `b` on layout 2. Both maps end up with two entries,
   * but `a`'s layout now leads to `b`'s definition.
   */
  function CrossedSetup(source: LegacySource.LegacySource, a: LegacyDefinition.Definition, b: LegacyDefinition.Definition): (s: LegacySetup)
    requires a.itemClassName != b.itemClassName
    ensures s.classToType == map[a.itemClassName := 2, b.itemClassName := 2]
    ensures s.bindingsToTypes == map[1 := a, 2 := b]
    ensures |s.classToType| == 2 && |s.bindingsToTypes| == 2
    ensures s.source == Some(source) && s.layoutManager == Setup.NoLayoutManager
  {
    var s := WithItem(WithItem(WithItem(WithDataSource(NewLegacySetup(Setup.NoLayoutManager), source), 1, a), 2, a), 2, b);
    assert s.classToType.Keys == {a.itemClassName, b.itemClassName};
    assert s.bindingsToTypes.Keys == {1, 2};
    s
  }

  /**
   * With the corrected checks, a successful setup binds every row whose
   * class was registered with a definition of that class, and the crossed
   * registry above is rejected.
   */
  lemma CorrectedSetupBindsEveryRegisteredRow(s: LegacySetup, position: int)
    requires CorrectedSetupList(s).result.Ok?
    requires var w := CorrectedSetupList(s).result.value;
      0 <= position < |w.source.items| && ClassName(w.source.items[position]) in s.classToType
    ensures var w := CorrectedSetupList(s).result.value;
      var r := LegacyAdapter.BindViewHolder(w.adapter, w.source, position);
      && r.Ok?
      && r.value.tag == position
      && r.value.boundBy == ClassName(w.source.items[position])
      && r.value.item == w.source.items[position]
  {
    var w := CorrectedSetupList(s).result.value;
    LegacyAdapter.ConsistentRegistryBindsEveryRow(w.adapter, w.source, position);
  }

  lemma CorrectedSetupRejectsCrossedRegistry(source: LegacySource.LegacySource, a: LegacyDefinition.Definition, b: LegacyDefinition.Definition)
    requires a.itemClassName != b.itemClassName
    ensures CorrectedSetupList(CrossedSetup(source, a, b)).result == Err(MismatchedMaps)
  {
    var s := CrossedSetup(source, a, b);
    assert RegistryChecks(s).Ok?;
    assert !RegistryConsistent(s.classToType, s.bindingsToTypes) by {
      assert s.bindingsToTypes[s.classToType[a.itemClassName]] == b;
    }
    assert CorrectedRegistryChecks(s) == Err(MismatchedMaps);
  }

  /**
   * `withLayoutManager` decides the widget's layout manager: `setup` keeps
   * the chosen one whether or not it succeeds, and the choice has no
   * bearing on its outcome.
   */
  lemma ChosenLayoutManagerIsKept(s: LegacySetup, id: nat)
    ensures SetupList(WithLayoutManager(s, id)).layoutManager == Setup.CustomLayoutManager(id)
    ensures SetupList(WithLayoutManager(s, id)).result == SetupList(s).result
  {
  }

  /**
   * With `withEmptyView`, the source `setup` attaches keeps the empty view
   * in step with its items: an update shows it exactly when the list is
   * empty. Without one, updates write nothing.
   */
  lemma EmptyViewTracksTheSource(s: LegacySetup)
    requires SetupList(s).result.Ok?
    ensures var w := SetupList(WithEmptyView(s)).result;
      && w.Ok?
      && LastVisibility(LegacySource.EmptyViewUpdate(w.value.source)) == Some(VisibilityFor(|s.source.value.items| == 0))
    ensures !s.hasEmptyView ==> LegacySource.EmptyViewUpdate(SetupList(s).result.value.source) == []
  {
  }

  /**
   * `withDataSource` supplies what `setup` attaches: once the registry
   * checks pass, setup succeeds with the given items attached; without a
   * data source it fails with the missing-source message.
   */
  lemma GivenDataSourceIsAttached(s: LegacySetup, source: LegacySource.LegacySource)
    ensures RegistryChecks(s).Ok? ==>
      var r := SetupList(WithDataSource(s, source)).result;
      r.Ok? && r.value.source.items == source.items && r.value.source.attached
    ensures RegistryChecks(s).Ok? && s.source.None? ==> SetupList(s).result == Err(LegacyAdapter.MissingSource)
  {
  }

  /**
   * `withClickListener` reaches every row: a row view created for any
   * registered layout gets the click listener, and a click on a bound row
   * ends with the global listener receiving the position and its item.
   */
  lemma GlobalClickReachesEveryRow(s: LegacySetup, viewType: int, position: int, longClick: bool)
    requires viewType in s.bindingsToTypes
    requires s.source.Some? && 0 <= position < |s.source.value.items|
    ensures var t := WithClickListener(s);
      var created := LegacyAdapter.CreateViewHolder(LegacyAdapter.LegacyAdapter(t.classToType, t.bindingsToTypes), viewType, t.hasGlobalClick, longClick);
      && created.Ok? && created.value.wiring.clickListener
      && var calls := LegacyDefinition.ClickCalls(t.bindingsToTypes[viewType].hasItemClick, t.hasGlobalClick, Some(position), t.source);
      && calls.Ok?
      && calls.value[|calls.value| - 1] == LegacyDefinition.GlobalListenerCall(position, s.source.value.items[position])
  {
  }
}
