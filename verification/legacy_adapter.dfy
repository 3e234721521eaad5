/**
 * The widget adapter of the older setup: it is built from the setup's two
 * registry maps and its data source, and answers the list widget from them.
 */
module LegacyAdapter {
  import opened Common
  import LegacySource
  import LegacyDefinition

  /** The adapter's copy of the registry: class name to layout, layout to definition. */
  datatype LegacyAdapter = LegacyAdapter(
    classToType: map<string, int>,
    bindingsToTypes: map<int, LegacyDefinition.Definition>)

  const MissingSource: Error := IllegalState("Must set a data source.")

  /** The constructor: it needs the setup's data source. */
  function NewAdapter(
    classToType: map<string, int>,
    bindingsToTypes: map<int, LegacyDefinition.Definition>,
    source: Option<LegacySource.LegacySource>): (r: Result<LegacyAdapter>)
    ensures r.Err? <==> source.None?
    ensures r.Err? ==> r.error == MissingSource
    ensures r.Ok? ==> r.value.classToType == classToType && r.value.bindingsToTypes == bindingsToTypes
  {
    if source.None? then Err(MissingSource) else Ok(LegacyAdapter(classToType, bindingsToTypes))
  }

  /** `getItemType`: the layout registered for the item's class. */
  function ItemType(a: LegacyAdapter, item: Item): (r: Result<int>)
    ensures r.Ok? <==> ClassName(item) in a.classToType
    ensures r.Ok? ==> r.value == a.classToType[ClassName(item)]
    ensures r.Err? ==> r.error == IllegalState("Didn't find type for class " + ClassName(item))
  {
    if ClassName(item) in a.classToType then Ok(a.classToType[ClassName(item)])
    else Err(IllegalState("Didn't find type for class " + ClassName(item)))
  }

  /** `getItemDefinition`: the definition registered for the layout, the error naming it. */
  function ItemDefinition(a: LegacyAdapter, viewType: int): (r: Result<LegacyDefinition.Definition>)
    ensures r.Ok? <==> viewType in a.bindingsToTypes
    ensures r.Ok? ==> r.value == a.bindingsToTypes[viewType]
    ensures r.Err? ==> r.error == IllegalState("Unable to view item definition for viewType " + IntToString(viewType))
  {
    if viewType in a.bindingsToTypes then Ok(a.bindingsToTypes[viewType])
    else Err(IllegalState("Unable to view item definition for viewType " + IntToString(viewType)))
  }

  /** `getItemCount`. */
  function ItemCount(a: LegacyAdapter, s: LegacySource.LegacySource): (n: nat)
    ensures n == |s.items|
  {
    LegacySource.Size(s)
  }

  /** `getItemViewType`: the item is read from the source, then its class is looked up. */
  function ItemViewType(a: LegacyAdapter, s: LegacySource.LegacySource, position: int): (r: Result<int>)
    ensures !(0 <= position < |s.items|) ==> r == Err(IndexOutOfBounds(position, |s.items|))
    ensures 0 <= position < |s.items| ==> r == ItemType(a, s.items[position])
  {
    var item :- LegacySource.Get(s, position);
    ItemType(a, item)
  }

  /** `onCreateViewHolder`: the layout's definition creates the holder. */
  function CreateViewHolder(a: LegacyAdapter, viewType: int, globalClick: bool, globalLongClick: bool): (r: Result<LegacyDefinition.Created>)
    ensures r.Ok? <==> viewType in a.bindingsToTypes
    ensures r.Ok? ==> r.value == LegacyDefinition.CreateViewHolder(a.bindingsToTypes[viewType], globalClick, globalLongClick)
  {
    var def :- ItemDefinition(a, viewType);
    Ok(LegacyDefinition.CreateViewHolder(def, globalClick, globalLongClick))
  }

  /**
   * `onBindViewHolder`: the item at the position, its class's layout, and
   * that layout's definition, which binds the item whatever its class.
   */
  function BindViewHolder(a: LegacyAdapter, s: LegacySource.LegacySource, position: int): (r: Result<LegacyDefinition.BoundRow>)
    ensures !(0 <= position < |s.items|) ==> r == Err(IndexOutOfBounds(position, |s.items|))
    ensures 0 <= position < |s.items| && ClassName(s.items[position]) !in a.classToType ==>
      r == Err(IllegalState("Didn't find type for class " + ClassName(s.items[position])))
    ensures (0 <= position < |s.items| && ClassName(s.items[position]) in a.classToType
      && a.classToType[ClassName(s.items[position])] !in a.bindingsToTypes) ==>
      r == Err(IllegalState("Unable to view item definition for viewType " + IntToString(a.classToType[ClassName(s.items[position])])))
    ensures r.Ok? <==> (0 <= position < |s.items| && ClassName(s.items[position]) in a.classToType
      && a.classToType[ClassName(s.items[position])] in a.bindingsToTypes)
    ensures r.Ok? ==>
      r.value == LegacyDefinition.BindViewHolder(a.bindingsToTypes[a.classToType[ClassName(s.items[position])]], s.items[position], position)
  {
    var item :- LegacySource.Get(s, position);
    var viewType :- ItemType(a, item);
    var def :- ItemDefinition(a, viewType);
    Ok(LegacyDefinition.BindViewHolder(def, item, position))
  }

  /**
   * When every registered class's layout leads back to a definition of
   * that class, every row of a registered class is bound, at its own
   * position, by a definition of its own class, whose binder receives it.
   */
  lemma ConsistentRegistryBindsEveryRow(a: LegacyAdapter, s: LegacySource.LegacySource, position: int)
    requires forall name :: name in a.classToType ==>
      a.classToType[name] in a.bindingsToTypes && a.bindingsToTypes[a.classToType[name]].itemClassName == name
    requires 0 <= position < |s.items| && ClassName(s.items[position]) in a.classToType
    ensures var r := BindViewHolder(a, s, position);
      && r.Ok?
      && r.value.tag == position
      && r.value.boundBy == ClassName(s.items[position])
      && r.value.item == s.items[position]
  {
  }
}
