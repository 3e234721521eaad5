# recyclical, modelled in Dafny

This project models the core of recyclical, a Kotlin library for building Android `RecyclerView` lists. The model covers:

- **The item registry.** It maps item classes to view types, layouts and definitions, decides the stable-id policy and validates itself.
- **The data sources.** There is the plain source and the selectable one. Each edit tells the handle and the change listeners what changed.
- **The handle.** It forwards those reports to the widget adapter and keeps the empty view in step with the data.
- **The widget adapter.** It answers the list widget from the registry.
- **The selection providers.** These are handed to item callbacks.
- **The setup.** This covers the builder, plugin data, finalisation and setup order.
- **The swipe plugin.** It stores swipe actions, decides which directions a row may be swiped in, and decides what a swipe does.
- **The older `library/` module.** It has its own data source, handles, setup, item definition and adapter.

All of this is written as pure functions over immutable values. A mutator returns the new state and an ordered log of its observable effects. The effects are:

- adapter notifications;
- empty-view visibility writes;
- listener calls;
- selection callbacks.

A mutator also returns the exception it raised, if any. That state is whatever the Kotlin code had already changed before it threw. Index errors of the platform list are `IndexOutOfBounds` values, never preconditions.

The older module's selectable data source (`library/.../datasource/SelectableDataSource.kt`, lines 34-236) is line for line the same code as the core one. The `Selectable` module models both, and the table cites the core file. The older selection providers (`library/.../viewholder/SelectionStateProvider.kt`, lines 59-97) are modelled by `SelectionState`:

- The real provider is the same as the core one, with the message "Already disposed.".
- The no-op provider is `SelectionState.NoOp`.

Modules, one per file:

| file | module | models |
|---|---|---|
| common.dfy | Common | options, results, errors, items, visibility, the effect log and its filters |
| lists.dfy | Lists | the platform list's insert, remove, swap and move, with their inverses |
| item_graph.dfy | ItemGraph | the item registry |
| handle.dfy | Handle | the handle |
| data_source.dfy | DataSource | the data source interface defaults and the plain source |
| selectable.dfy | Selectable | the selectable source and its interface defaults |
| selection_state.dfy | SelectionState | the selection providers and the per-definition selection helpers |
| adapter.dfy | DefinitionAdapter | the widget adapter |
| setup.dfy | Setup | the setup builder, plugin data and finalisation |
| swipe.dfy | Swipe | the swipe plugin and its touch listener |
| legacy_source.dfy | LegacySource | the older data source |
| legacy_definition.dfy | LegacyDefinition | the older item definition |
| legacy_handle.dfy | LegacyHandle | the two older handles |
| legacy_adapter.dfy | LegacyAdapter | the older widget adapter |
| legacy_setup.dfy | LegacySetup | the older setup and `withItem` |

Android constants the model relies on, which are not part of the repository's files:

- `ItemTouchHelper.LEFT` is 4.
- `ItemTouchHelper.RIGHT` is 8.
- `RecyclerView.NO_ID` is -1.
- Kotlin's `check` without a message throws with "Check failed.".

## Model

| member | source | states |
|---|---|---|
| ItemGraph.NextType | core/src/main/java/com/afollestad/recyclical/itemdefinition/ItemGraph.kt:45 | the next view type is one more than the largest type so far (1 for an empty registry), so it is new |
| ItemGraph.Register | core/src/main/java/com/afollestad/recyclical/itemdefinition/ItemGraph.kt:39-49 | a fresh type gets the layout and the definition, the class maps to it, nothing else changes |
| ItemGraph.RegisterKeys | core/src/main/java/com/afollestad/recyclical/itemdefinition/ItemGraph.kt:39-49 | `register` adds exactly one view type and the definition's class to the maps' keys |
| ItemGraph.RegisterLookups | core/src/main/java/com/afollestad/recyclical/itemdefinition/ItemGraph.kt:39-75 | right after `register`, all four lookups return the layout, definition and type just registered |
| ItemGraph.LayoutForType | core/src/main/java/com/afollestad/recyclical/itemdefinition/ItemGraph.kt:51-56 | the stored layout, or an error naming the type |
| ItemGraph.DefinitionForType | core/src/main/java/com/afollestad/recyclical/itemdefinition/ItemGraph.kt:58-62 | the stored definition, or an error naming the type |
| ItemGraph.DefinitionForName | core/src/main/java/com/afollestad/recyclical/itemdefinition/ItemGraph.kt:64-69 | the class's type, then that type's definition; an unknown class fails first |
| ItemGraph.TypeForName | core/src/main/java/com/afollestad/recyclical/itemdefinition/ItemGraph.kt:71-75 | the class's type, or an error naming the class |
| ItemGraph.AllOfSomeIsAny | core/src/main/java/com/afollestad/recyclical/itemdefinition/ItemGraph.kt:79-82 | when every definition has an id getter and there is one, some definition has one |
| ItemGraph.HasStableIds | core/src/main/java/com/afollestad/recyclical/itemdefinition/ItemGraph.kt:77-87 | true iff all definitions have id getters (and there is one); false iff none has; a mix is an IllegalArgument error |
| ItemGraph.Validate | core/src/main/java/com/afollestad/recyclical/itemdefinition/ItemGraph.kt:89-94 | "No bindings defined." for an empty registry; the bare `check` failure when the map sizes differ; otherwise the registry itself |
| ItemGraph.RegisterPreservesWellFormed | core/src/main/java/com/afollestad/recyclical/itemdefinition/ItemGraph.kt:39-49 | `register` keeps the maps consistent: same types, and every class maps to a definition of that class |
| ItemGraph.RegisterAllTypes | core/src/main/java/com/afollestad/recyclical/itemdefinition/ItemGraph.kt:45-48 | after n `register` calls on a fresh registry the view types are exactly 1..n |
| ItemGraph.RegisterAllEntry | core/src/main/java/com/afollestad/recyclical/itemdefinition/ItemGraph.kt:45-48 | view type k + 1 holds the layout and definition of the k-th call |
| ItemGraph.RegisterKeepsOtherType | core/src/main/java/com/afollestad/recyclical/itemdefinition/ItemGraph.kt:45-48 | `register` never overwrites an existing view type |
| ItemGraph.RegisterAssignsSequentialTypes | core/src/main/java/com/afollestad/recyclical/itemdefinition/ItemGraph.kt:45 | the k-th call on a fresh registry assigns type k, so no type is reused |
| ItemGraph.RegisterAllClasses | core/src/main/java/com/afollestad/recyclical/itemdefinition/ItemGraph.kt:47 | the class map's keys are exactly the class names registered |
| ItemGraph.DistinctNamesCount | core/src/main/java/com/afollestad/recyclical/itemdefinition/ItemGraph.kt:47 | with distinct class names there are as many class entries as registrations |
| ItemGraph.RegisterKeepsOtherClass | core/src/main/java/com/afollestad/recyclical/itemdefinition/ItemGraph.kt:47 | `register` leaves every other class's type alone |
| ItemGraph.DistinctRegistrationType | core/src/main/java/com/afollestad/recyclical/itemdefinition/ItemGraph.kt:45-47 | with distinct class names the k-th call's class maps to type k + 1 |
| ItemGraph.DistinctRegistrationsValidate | core/src/main/java/com/afollestad/recyclical/itemdefinition/ItemGraph.kt:89-94 | definitions for distinct classes always pass `validate` |
| ItemGraph.SharedLayoutGetsDistinctTypes | core/src/main/java/com/afollestad/recyclical/itemdefinition/ItemGraph.kt:39-75 | two definitions sharing one layout get distinct types 1 and 2 and both resolve |
| ItemGraph.DuplicateClassFailsValidate | core/src/main/java/com/afollestad/recyclical/itemdefinition/ItemGraph.kt:89-94 | registering a class twice leaves fewer classes than types, so `validate` fails its size check |
| Handle.FromGraph | core/src/main/java/com/afollestad/recyclical/Recyclical.kt:125-137 | the handle built at finalisation holds the registry's class-to-type and type-to-definition maps, under the given id and empty-view flag |
| Handle.ShowOrHideEmptyView | core/src/main/java/com/afollestad/recyclical/handle/RealRecyclicalHandle.kt:34-36 | the empty view ends visible when asked to show and gone otherwise; nothing happens without one |
| Handle.InvalidateList | core/src/main/java/com/afollestad/recyclical/handle/RealRecyclicalHandle.kt:40-43 | the adapter receives exactly the block, then the empty view is shown iff the source is empty; no listener is called |
| Handle.GetViewTypeForClass | core/src/main/java/com/afollestad/recyclical/handle/RealRecyclicalHandle.kt:45-47 | the registered type, or "Didn't find type for class" with the name |
| Handle.GetDefinitionForClass | core/src/main/java/com/afollestad/recyclical/handle/RealRecyclicalHandle.kt:49-52 | the class's type, then that type's definition, each failure with its own message |
| Handle.GetDefinitionForType | core/src/main/java/com/afollestad/recyclical/handle/RealRecyclicalHandle.kt:54-56 | the registered definition, or an error naming the type |
| Handle.HandleAgreesWithGraph | core/src/main/java/com/afollestad/recyclical/handle/RealRecyclicalHandle.kt:45-56 | a handle answers every lookup exactly as the registry it was built from |
| Handle.RegisteredClassResolves | core/src/main/java/com/afollestad/recyclical/handle/RealRecyclicalHandle.kt:45-56 | after `register`, a handle maps the class to its new type and definition |
| DataSource.Notify | core/src/main/java/com/afollestad/recyclical/datasource/RealDataSource.kt:162-165 | a report goes to the handle first (adapter block, then empty view), then to each listener once, in order |
| DataSource.HandleBeforeListeners | core/src/main/java/com/afollestad/recyclical/datasource/RealDataSource.kt:162-165 | no listener hears of a change before the handle's part is done |
| DataSource.DataSourceOf | core/src/main/java/com/afollestad/recyclical/datasource/DataSource.kt:139-153 | a new source holds the given items, detached and without listeners |
| DataSource.EmptyDataSource | core/src/main/java/com/afollestad/recyclical/datasource/DataSource.kt:155-156 | a new source without items |
| DataSource.Attach | core/src/main/java/com/afollestad/recyclical/datasource/RealDataSource.kt:37-41 | only the first handle is kept, and attaching reports one full invalidate; a second attach does nothing |
| DataSource.Detach | core/src/main/java/com/afollestad/recyclical/datasource/RealDataSource.kt:43-47 | the handle and all listeners are dropped and the items stay |
| DataSource.AddChangedListener | core/src/main/java/com/afollestad/recyclical/datasource/RealDataSource.kt:153-156 | the listener is called last, after every later change |
| DataSource.Add | core/src/main/java/com/afollestad/recyclical/datasource/RealDataSource.kt:49-63 | the items are appended in order and one range insert at the old end is reported |
| DataSource.Set | core/src/main/java/com/afollestad/recyclical/datasource/RealDataSource.kt:65-88 | the contents become the new items; a non-empty source given both comparers dispatches a diff, otherwise one full invalidate |
| DataSource.Insert | core/src/main/java/com/afollestad/recyclical/datasource/RealDataSource.kt:90-96 | inserts at an index in 0..size and reports it; any other index is an error that changes nothing |
| DataSource.RemoveAt | core/src/main/java/com/afollestad/recyclical/datasource/RealDataSource.kt:98-101 | removes exactly that position and reports it, or fails and changes nothing |
| DataSource.Remove | core/src/main/java/com/afollestad/recyclical/datasource/RealDataSource.kt:103-107 | the first equal item goes (one fewer in the multiset); an absent item changes and reports nothing |
| DataSource.Swap | core/src/main/java/com/afollestad/recyclical/datasource/RealDataSource.kt:109-120 | the two items exchange places and both positions are reported; the left index is checked first |
| DataSource.Move | core/src/main/java/com/afollestad/recyclical/datasource/RealDataSource.kt:122-130 | the item moves to `to`; a bad `from` changes nothing; a bad `to` is found after removal, so the item is lost |
| DataSource.Clear | core/src/main/java/com/afollestad/recyclical/datasource/RealDataSource.kt:132-135 | no items left, one full invalidate reported |
| DataSource.InvalidateAt | core/src/main/java/com/afollestad/recyclical/datasource/RealDataSource.kt:158 | one changed position is reported, with no range check |
| DataSource.InvalidateAll | core/src/main/java/com/afollestad/recyclical/datasource/RealDataSource.kt:160 | a full change is reported |
| DataSource.PlusAssign | core/src/main/java/com/afollestad/recyclical/datasource/DataSource.kt:38-40 | appends the single item and reports one insert at the old end, as `add` does, keeping the handle and listeners |
| DataSource.MinusAssign | core/src/main/java/com/afollestad/recyclical/datasource/DataSource.kt:43-45 | removes the first equal item and reports its position, as `remove` does, keeping the handle and listeners and firing no selection callback |
| DataSource.Get | core/src/main/java/com/afollestad/recyclical/datasource/RealDataSource.kt:31 | the item at the index, or an index error |
| DataSource.Size | core/src/main/java/com/afollestad/recyclical/datasource/RealDataSource.kt:137 | the number of items, and exactly the indices below it can be read |
| DataSource.IsEmpty | core/src/main/java/com/afollestad/recyclical/datasource/DataSource.kt:110 | true iff there are no items, which is when index 0 cannot be read |
| DataSource.IsNotEmpty | core/src/main/java/com/afollestad/recyclical/datasource/DataSource.kt:113 | true iff there is an item, and then index 0 reads the first one |
| DataSource.EmptinessAfterEdits | core/src/main/java/com/afollestad/recyclical/datasource/DataSource.kt:107-113 | the source is empty after `clear` and after removing its only item, and not empty after adding items or a successful insert |
| DataSource.Contains | core/src/main/java/com/afollestad/recyclical/datasource/RealDataSource.kt:33 | true iff the item is in the list, and then `indexOf` finds it |
| DataSource.ToList | core/src/main/java/com/afollestad/recyclical/datasource/RealDataSource.kt:151 | a list as long as the source whose every position holds what `get` returns there |
| DataSource.IndexOfFirst | core/src/main/java/com/afollestad/recyclical/datasource/RealDataSource.kt:145 | the first index the predicate holds at, or -1 exactly when it holds nowhere |
| DataSource.IndexOfLast | core/src/main/java/com/afollestad/recyclical/datasource/RealDataSource.kt:147 | the last index the predicate holds at, or -1 exactly when it holds nowhere |
| DataSource.IndexOf | core/src/main/java/com/afollestad/recyclical/datasource/RealDataSource.kt:149 | the first index holding an equal item, or -1 exactly when the item is absent |
| DataSource.ForEachOf | core/src/main/java/com/afollestad/recyclical/datasource/DataSource.kt:163-169 | visits exactly the list's items of the given class |
| DataSource.Apply | core/src/main/java/com/afollestad/recyclical/datasource/RealDataSource.kt:49-135 | no edit changes the attached handle or the listeners, and none fires a selection callback |
| DataSource.ItemsOfMembers | core/src/main/java/com/afollestad/recyclical/datasource/DataSource.kt:163-169 | `forEachOf` visits an item iff it is in the list and of the class |
| DataSource.ItemsOfAppend | core/src/main/java/com/afollestad/recyclical/datasource/DataSource.kt:163-169 | `forEachOf` keeps list order: it distributes over concatenation |
| DataSource.AttachFirstWins | core/src/main/java/com/afollestad/recyclical/datasource/RealDataSource.kt:37-41 | the first attach reports one full invalidate, and a second attach changes nothing and reports nothing |
| DataSource.DetachedReportsNothing | core/src/main/java/com/afollestad/recyclical/datasource/RealDataSource.kt:162-165 | a detached source still edits its items but reports nothing to anyone |
| DataSource.InsertThenRemoveAt | core/src/main/java/com/afollestad/recyclical/datasource/RealDataSource.kt:90-101 | inserting at i and then removing at i gives the items back |
| DataSource.RemoveAtThenInsert | core/src/main/java/com/afollestad/recyclical/datasource/RealDataSource.kt:90-101 | removing at i and re-inserting the removed item at i gives the items back |
| DataSource.SwapTwice | core/src/main/java/com/afollestad/recyclical/datasource/RealDataSource.kt:109-120 | swapping the same two positions twice restores the items |
| DataSource.MoveAndBack | core/src/main/java/com/afollestad/recyclical/datasource/RealDataSource.kt:122-130 | moving from `from` to `to` and back restores the items |
| DataSource.EmptyViewFollowsItems | core/src/main/java/com/afollestad/recyclical/datasource/RealDataSource.kt:162-165 | after any edit that reported something, an attached source's empty view is visible iff the source is empty |
| DataSource.ListenersSeeEveryChange | core/src/main/java/com/afollestad/recyclical/datasource/RealDataSource.kt:162-165 | every edit that reports calls each listener once, in registration order, attached or not |
| Selectable.SelectableDataSourceOf | core/src/main/java/com/afollestad/recyclical/datasource/SelectableDataSource.kt:103-114 | a new selectable source has the items, nothing selected and no callback |
| Selectable.EmptySelectableDataSource | core/src/main/java/com/afollestad/recyclical/datasource/SelectableDataSource.kt:121-122 | a new selectable source with no items |
| Selectable.MaybeNotify | core/src/main/java/com/afollestad/recyclical/datasource/RealSelectableDataSource.kt:122-130 | the call answers true and fires the callback exactly when the number of selected indices changed |
| Selectable.SelectAt | core/src/main/java/com/afollestad/recyclical/datasource/RealSelectableDataSource.kt:26-34 | an index outside the list is refused; otherwise it becomes selected, its row is redrawn, and the answer is whether it was new |
| Selectable.DeselectAt | core/src/main/java/com/afollestad/recyclical/datasource/RealSelectableDataSource.kt:36-44 | an index outside the list is refused; otherwise it is unselected, its row redrawn, and the answer is whether it was selected |
| Selectable.UnionGrows | core/src/main/java/com/afollestad/recyclical/datasource/RealSelectableDataSource.kt:48-53 | adding a set grows the selection iff it was not already contained |
| Selectable.SelectAll | core/src/main/java/com/afollestad/recyclical/datasource/RealSelectableDataSource.kt:48-53 | every index of the list becomes selected with one full invalidate; true iff some index was new |
| Selectable.DeselectAll | core/src/main/java/com/afollestad/recyclical/datasource/RealSelectableDataSource.kt:55-60 | nothing stays selected; true iff something was |
| Selectable.SelectionCount | core/src/main/java/com/afollestad/recyclical/datasource/RealSelectableDataSource.kt:62 | the number of selected indices |
| Selectable.IsSelectedAtAgreesWithCalls | core/src/main/java/com/afollestad/recyclical/datasource/RealSelectableDataSource.kt:46 | `isSelectedAt` answers what `selectAt` and `deselectAt` decide by: selecting changes something iff the index was not selected, deselecting iff it was, and each leaves the answer it set |
| Selectable.HasSelection | core/src/main/java/com/afollestad/recyclical/datasource/SelectableDataSource.kt:91 | true iff some index reads as selected |
| Selectable.OnSelectionChange | core/src/main/java/com/afollestad/recyclical/datasource/RealSelectableDataSource.kt:64-66 | later selection changes fire the callback |
| Selectable.ToggleSelectionAt | core/src/main/java/com/afollestad/recyclical/datasource/SelectableDataSource.kt:34-40 | a selected index is deselected and any other is selected |
| Selectable.ToggleTwice | core/src/main/java/com/afollestad/recyclical/datasource/SelectableDataSource.kt:34-40 | toggling one index twice restores the source |
| Selectable.Select | core/src/main/java/com/afollestad/recyclical/datasource/SelectableDataSource.kt:54-58 | selects the first equal item's index; false when the item is absent |
| Selectable.Deselect | core/src/main/java/com/afollestad/recyclical/datasource/SelectableDataSource.kt:63-67 | deselects the first equal item's index; false when the item is absent |
| Selectable.ToggleSelection | core/src/main/java/com/afollestad/recyclical/datasource/SelectableDataSource.kt:72-76 | toggles the first equal item's index; false when the item is absent |
| Selectable.IsSelected | core/src/main/java/com/afollestad/recyclical/datasource/SelectableDataSource.kt:81-85 | whether the first equal item's index is selected; false when the item is absent |
| Selectable.ToggleItemTwice | core/src/main/java/com/afollestad/recyclical/datasource/SelectableDataSource.kt:72-76 | toggling one item twice restores the source |
| Selectable.ItemCallsUseFirstOccurrence | core/src/main/java/com/afollestad/recyclical/datasource/SelectableDataSource.kt:54-58 | with two equal items, selecting the item selects only the earlier index |
| Selectable.ShiftForInsert | core/src/main/java/com/afollestad/recyclical/datasource/RealSelectableDataSource.kt:68-80 | indices below the insert point stay; others move up one and are kept only below the size before the insert |
| Selectable.SelInsert | core/src/main/java/com/afollestad/recyclical/datasource/RealSelectableDataSource.kt:68-80 | the selection is rewritten first, even when the insert then fails, and then the plain insert runs |
| Selectable.SetSelectedAt | core/src/main/java/com/afollestad/recyclical/datasource/RealSelectableDataSource.kt:82-99 | the select or deselect `swap` performs changes only that index, and only when it is in range; its row is redrawn when attached, and the callback fires once iff the state changed |
| Selectable.SelSwap | core/src/main/java/com/afollestad/recyclical/datasource/RealSelectableDataSource.kt:82-99 | in range, each index takes the other's old selection state; the adapter hears the right row redrawn, then the left, then the plain swap; the callback fires once per in-range index whose state changed |
| Selectable.SwapReportOrder | core/src/main/java/com/afollestad/recyclical/datasource/RealSelectableDataSource.kt:82-99 | attached and in range, a swap reports exactly: right changed, left changed, left changed, right changed |
| Selectable.Exchanged | core/src/main/java/com/afollestad/recyclical/datasource/RealSelectableDataSource.kt:82-99 | the selection with the states of two indices exchanged and every other index unchanged |
| Selectable.ExchangedTwice | core/src/main/java/com/afollestad/recyclical/datasource/RealSelectableDataSource.kt:82-99 | exchanging twice restores the selection |
| Selectable.SwapExchangesSelection | core/src/main/java/com/afollestad/recyclical/datasource/RealSelectableDataSource.kt:82-99 | a swap within range exchanges the two positions' selection states along with the items |
| Selectable.MovedSelection | core/src/main/java/com/afollestad/recyclical/datasource/RealSelectableDataSource.kt:101-110 | a selected `from` is dropped and `to` added when in range; every other selected index stays |
| Selectable.SelMove | core/src/main/java/com/afollestad/recyclical/datasource/RealSelectableDataSource.kt:101-110 | the selection moves from `from` to `to`, then the plain move runs; a selected `from` has its row, then `to`'s, redrawn before the move is reported, and the callback counts one for each state that changed |
| Selectable.MoveReportOrder | core/src/main/java/com/afollestad/recyclical/datasource/RealSelectableDataSource.kt:101-110 | attached and in range, a move of a selected index reports `from` changed, `to` changed, then the move; otherwise only the move |
| Selectable.SelRemoveAt | core/src/main/java/com/afollestad/recyclical/datasource/RealSelectableDataSource.kt:112-115 | deselects the index, then the plain removal; higher indices are not renumbered |
| Selectable.SelRemoveAtCallback | core/src/main/java/com/afollestad/recyclical/datasource/RealSelectableDataSource.kt:112-115 | the selection callback fires once exactly when a selected index in range was removed |
| Selectable.SelClear | core/src/main/java/com/afollestad/recyclical/datasource/RealSelectableDataSource.kt:117-120 | no items and no selection afterwards; the log is `deselectAll`'s full report followed by `clear`'s, so the change is reported twice |
| Selectable.SelSet | core/src/main/java/com/afollestad/recyclical/datasource/RealDataSource.kt:65-88 | `set` is inherited: the contents change and the selection stays |
| Selectable.SelAdd | core/src/main/java/com/afollestad/recyclical/datasource/RealDataSource.kt:49-63 | `add` is inherited: the items are appended and the selection stays |
| Selectable.SelRemove | core/src/main/java/com/afollestad/recyclical/datasource/RealDataSource.kt:103-107 | `remove` reaches the overridden `removeAt` at the first equal item |
| Selectable.InsertFollowsItems | core/src/main/java/com/afollestad/recyclical/datasource/RealSelectableDataSource.kt:68-80 | after a successful insert every kept selected item is still selected at its new position |
| Selectable.InsertDropsShiftedLastIndex | core/src/main/java/com/afollestad/recyclical/datasource/RealSelectableDataSource.kt:73-77 | the shift compares with the old size: with four items and index 3 selected, inserting at the front leaves nothing selected |
| Selectable.RemoveAtLeavesStaleIndex | core/src/main/java/com/afollestad/recyclical/datasource/RealSelectableDataSource.kt:112-115 | removing index 0 of three with index 2 selected leaves index 2 selected in a two-item list |
| Selectable.SetKeepsStaleIndex | core/src/main/java/com/afollestad/recyclical/datasource/RealDataSource.kt:65-88 | a shorter `set` keeps indices past the new end selected |
| Selectable.SelectionCallsKeepRange | core/src/main/java/com/afollestad/recyclical/datasource/RealSelectableDataSource.kt:26-60 | the selection calls keep every selected index inside the list |
| Selectable.SetSelectedKeepsRange | core/src/main/java/com/afollestad/recyclical/datasource/RealSelectableDataSource.kt:26-44 | a single select or deselect keeps the selection inside the list |
| Selectable.InsertKeepsRange | core/src/main/java/com/afollestad/recyclical/datasource/RealSelectableDataSource.kt:68-80 | `insert` keeps the selection inside the list, whether or not it succeeds |
| Selectable.SwapKeepsRange | core/src/main/java/com/afollestad/recyclical/datasource/RealSelectableDataSource.kt:82-99 | `swap` keeps the selection inside the list, also with an index out of range |
| Selectable.MoveInRange | core/src/main/java/com/afollestad/recyclical/datasource/RealSelectableDataSource.kt:101-110 | within range `move` succeeds and moves the item as the plain move does |
| Selectable.MoveKeepsRange | core/src/main/java/com/afollestad/recyclical/datasource/RealSelectableDataSource.kt:101-110 | a successful `move` keeps the selection inside the list |
| Selectable.MovedSelectionInRange | core/src/main/java/com/afollestad/recyclical/datasource/RealSelectableDataSource.kt:101-110 | the moved selection stays inside a list of the same size |
| Selectable.ClearKeepsRange | core/src/main/java/com/afollestad/recyclical/datasource/RealSelectableDataSource.kt:117-120 | after `clear` nothing is selected, so the selection is inside the empty list |
| Selectable.AddKeepsRange | core/src/main/java/com/afollestad/recyclical/datasource/RealDataSource.kt:49-63 | `add` keeps the selection inside the list, which only grows |
| Selectable.MoveDoesNotRenumber | core/src/main/java/com/afollestad/recyclical/datasource/RealSelectableDataSource.kt:101-110 | moving index 0 of a, b, c to 2 with 0 and 1 selected gives b, c, a with 1 and 2 selected |
| Selectable.SwapSelectionTwice | core/src/main/java/com/afollestad/recyclical/datasource/RealSelectableDataSource.kt:82-99 | swapping twice restores both the items and the selection |
| Selectable.MoveFrontToBack | core/src/main/java/com/afollestad/recyclical/datasource/RealDataSource.kt:122-130 | moving the first of three items to the end gives the other two, then it |
| SelectionState.NoSelectionItem | core/src/main/java/com/afollestad/recyclical/viewholder/SelectionStateProvider.kt:73-80 | the item at the provider's position, or "Already disposed" once closed |
| SelectionState.NoSelectionAsk | core/src/main/java/com/afollestad/recyclical/viewholder/SelectionStateProvider.kt:82-90 | every selection call on a plain source answers false |
| SelectionState.CloseNoSelection | core/src/main/java/com/afollestad/recyclical/viewholder/SelectionStateProvider.kt:92-94 | closing drops the source and keeps the position |
| SelectionState.NoSelectionCloseIdempotent | core/src/main/java/com/afollestad/recyclical/viewholder/SelectionStateProvider.kt:73-94 | closing twice is closing once, and a closed provider's item fails |
| SelectionState.RealItem | core/src/main/java/com/afollestad/recyclical/viewholder/SelectionStateProvider.kt:104 | the live source's item at the provider's position, an index error outside the list, or the disposal error once closed |
| SelectionState.RealAsk | core/src/main/java/com/afollestad/recyclical/viewholder/SelectionStateProvider.kt:106-122 | each call goes to the live source at the captured position (`hasSelection` to the whole source); closed providers fail with "Already disposed." |
| SelectionState.CloseRealSelection | core/src/main/java/com/afollestad/recyclical/viewholder/SelectionStateProvider.kt:116-118 | closing drops the source and keeps the position |
| SelectionState.ClosedRealSelectionFails | core/src/main/java/com/afollestad/recyclical/viewholder/SelectionStateProvider.kt:116-122 | after `close` every call fails, and closing again changes nothing |
| SelectionState.SelectThenIsSelected | core/src/main/java/com/afollestad/recyclical/viewholder/SelectionStateProvider.kt:106-108 | selecting through a provider in range makes the provider report its position as selected |
| SelectionState.ToggleTwiceThroughProvider | core/src/main/java/com/afollestad/recyclical/viewholder/SelectionStateProvider.kt:112 | toggling twice through a provider restores the source |
| SelectionState.HasSelectionIsAboutTheSource | core/src/main/java/com/afollestad/recyclical/viewholder/SelectionStateProvider.kt:114 | `hasSelection` answers the same for every position: whether anything is selected |
| SelectionState.NoOpAsk | library/src/main/java/com/afollestad/recyclical/viewholder/SelectionStateProvider.kt:59-68 | the older no-op provider answers false to everything |
| SelectionState.NoOpStaysUsableAfterClose | library/src/main/java/com/afollestad/recyclical/viewholder/SelectionStateProvider.kt:59-70 | a closed no-op provider still answers false to every call, and closing is idempotent, where a closed real provider fails every call |
| SelectionState.DefinitionAsk | library/src/main/java/com/afollestad/recyclical/ItemDefinitionSelection.kt:24-58 | the per-definition helpers ask the setup's current source and answer false unless it is selectable |
| SelectionState.DefinitionHelpersFallBack | library/src/main/java/com/afollestad/recyclical/ItemDefinitionSelection.kt:24-58 | without a selectable source the helpers change nothing and answer false |
| DefinitionAdapter.AttachAdapter | core/src/main/java/com/afollestad/recyclical/internal/DefinitionAdapter.kt:39-43 | attaching stores the handle |
| DefinitionAdapter.DetachAdapter | core/src/main/java/com/afollestad/recyclical/internal/DefinitionAdapter.kt:46-49 | detaching clears it |
| DefinitionAdapter.ItemCount | core/src/main/java/com/afollestad/recyclical/internal/DefinitionAdapter.kt:73 | the source's size while attached, 0 otherwise |
| DefinitionAdapter.ItemViewType | core/src/main/java/com/afollestad/recyclical/internal/DefinitionAdapter.kt:59-61 | the registered type of the row item's class; detached, out of range and unknown classes fail |
| DefinitionAdapter.ItemId | core/src/main/java/com/afollestad/recyclical/internal/DefinitionAdapter.kt:51-57 | the id getter's value when the row's definition has one and it gives a value, otherwise `NO_ID` |
| DefinitionAdapter.RecycledDefinition | core/src/main/java/com/afollestad/recyclical/internal/DefinitionAdapter.kt:85-94 | the row's definition runs its recycle callback; no position or no handle runs none |
| DefinitionAdapter.AttachDataSource | core/src/main/java/com/afollestad/recyclical/handle/RealRecyclicalHandle.kt:58-61 | the data source attaches first (first handle wins), then the adapter |
| DefinitionAdapter.DetachDataSource | core/src/main/java/com/afollestad/recyclical/handle/RealRecyclicalHandle.kt:63-66 | the data source detaches, then the adapter; nothing is reported |
| DefinitionAdapter.AttachShowsAllThenDetachShowsNone | core/src/main/java/com/afollestad/recyclical/handle/RealRecyclicalHandle.kt:58-66 | attached, the adapter shows every item; after detach, no rows, no handle, no listeners, no view type |
| DefinitionAdapter.ViewTypeComesFromRegistry | core/src/main/java/com/afollestad/recyclical/internal/DefinitionAdapter.kt:59-61 | a row's view type is the type the registry gave its class |
| DefinitionAdapter.NoIdGetterMeansNoId | core/src/main/java/com/afollestad/recyclical/internal/DefinitionAdapter.kt:51-57 | a definition without an id getter gives `NO_ID` for every row |
| Setup.NewSetup | core/src/main/java/com/afollestad/recyclical/Recyclical.kt:43-56 | a fresh builder has an empty registry, no source, no empty view and no plugins |
| Setup.ChosenLayoutManagerIsKept | core/src/main/java/com/afollestad/recyclical/Recyclical.kt:60-63 | `setup` keeps the layout manager given to `withLayoutManager` instead of the default, and the choice does not affect finalisation |
| Setup.EmptyViewShownIffSourceEmpty | core/src/main/java/com/afollestad/recyclical/Recyclical.kt:69-72 | with `withEmptyView`, finalising leaves the empty view visible iff the source is empty; without it nothing is written; success does not depend on it |
| Setup.GivenDataSourceIsAttached | core/src/main/java/com/afollestad/recyclical/Recyclical.kt:79-82 | with `withDataSource`, finalisation succeeds iff the registry validates and has a stable-id policy, and attaches the given items; without one it fails with "Must set a data source." |
| Setup.RegisterItemDefinition | core/src/main/java/com/afollestad/recyclical/Recyclical.kt:120-123 | registers in the item registry, and the class then resolves to the next type |
| Setup.SetPluginData | core/src/main/java/com/afollestad/recyclical/Recyclical.kt:103-112 | the name maps to the data; a new name goes to the end of the plugin order, and the order stays duplicate-free |
| Setup.GetPluginData | core/src/main/java/com/afollestad/recyclical/Recyclical.kt:115-117 | whatever is stored under the name, unchecked, or nothing |
| Setup.PluginDataLastWriteWins | core/src/main/java/com/afollestad/recyclical/Recyclical.kt:103-117 | the last write under a name wins, and writes under other names leave it alone |
| Setup.ToAttached | core/src/main/java/com/afollestad/recyclical/Recyclical.kt:125-137 | "Must set a data source.", then registry validation, then the stable-id policy; on success the handle is built and the source attached to it |
| Setup.SetupList | core/src/main/java/com/afollestad/recyclical/Recyclical.kt:145-164 | a default linear layout manager only when none was set; plugins attach in insertion order, and only when finalisation succeeded |
| Setup.FinalisationCheckOrder | core/src/main/java/com/afollestad/recyclical/Recyclical.kt:125-137 | a missing data source is reported even with nothing registered; an empty registry before the stable-id policy |
| Setup.MixedStableIdsFail | core/src/main/java/com/afollestad/recyclical/itemdefinition/ItemGraph.kt:77-87 | definitions with and without id getters fail finalisation with the stable-id message, and no plugin attaches |
| Swipe.DirectionMask | swipe/src/main/java/com/afollestad/recyclical/swipe/SwipePlugin.kt:50-59 | the two direction flags are distinct bits, so combining them keeps each one recoverable |
| Swipe.SwipeDirections | swipe/src/main/java/com/afollestad/recyclical/swipe/SwipePlugin.kt:50-59 | a side is enabled iff some action is configured for it |
| Swipe.AddActions | swipe/src/main/java/com/afollestad/recyclical/swipe/SwipePlugin.kt:73-76 | one action per listed location under that location and the class; other keys keep theirs |
| Swipe.WithSwipeAction | swipe/src/main/java/com/afollestad/recyclical/swipe/SwipePlugin.kt:67-79 | the stored table is extended and stored again; another plugin's data under the name fails the cast |
| Swipe.WithSwipeActionOn | swipe/src/main/java/com/afollestad/recyclical/swipe/SwipePlugin.kt:85-95 | `withSwipeAction` with the item class's name in every key |
| Swipe.LaterRegistrationReplaces | swipe/src/main/java/com/afollestad/recyclical/swipe/SwipePlugin.kt:67-79 | registering twice for a key keeps only the later action, and other keys keep theirs |
| Swipe.ResolveAction | swipe/src/main/java/com/afollestad/recyclical/swipe/SwipeItemTouchListener.kt:72-74 | the item class's action first, then the global one, else none |
| Swipe.SendToCallback | swipe/src/main/java/com/afollestad/recyclical/swipe/SwipeAction.kt:137-143 | what the callback answers, or false without a callback |
| Swipe.OnSwiped | swipe/src/main/java/com/afollestad/recyclical/swipe/SwipeItemTouchListener.kt:64-96 | the row item is read first; the side's action removes the row when its callback answers true and redraws it otherwise; no action does nothing; any other direction fails |
| Swipe.ApplySwipe | swipe/src/main/java/com/afollestad/recyclical/swipe/SwipeItemTouchListener.kt:75-79 | a removal is the source's `removeAt`, a redraw its `invalidateAt` |
| Swipe.GetSwipeDirs | swipe/src/main/java/com/afollestad/recyclical/swipe/SwipeItemTouchListener.kt:98-118 | no directions without a position; otherwise a side is enabled iff the row's class or a global action has one |
| Swipe.OnMove | swipe/src/main/java/com/afollestad/recyclical/swipe/SwipeItemTouchListener.kt:58-62 | dragging rows is never accepted |
| Swipe.RowDirectionsWithinPluginDirections | swipe/src/main/java/com/afollestad/recyclical/swipe/SwipeItemTouchListener.kt:98-118 | a side enabled for a row is a side the plugin enables |
| Swipe.ItemActionPreferred | swipe/src/main/java/com/afollestad/recyclical/swipe/SwipeItemTouchListener.kt:72-79 | with both an item and a global action on a side, the item's action decides |
| LegacySource.LegacySourceOf | library/src/main/java/com/afollestad/recyclical/DataSource.kt:25-30 | a new source holds the items, without adapter or empty view |
| LegacySource.AttachAdapter | library/src/main/java/com/afollestad/recyclical/DataSource.kt:36-38 | the adapter is attached and nothing else changes |
| LegacySource.FinishSetup | library/src/main/java/com/afollestad/recyclical/DataSource.kt:40-42 | the setup's empty view is taken over and nothing else changes |
| LegacySource.EmptyViewUpdate | library/src/main/java/com/afollestad/recyclical/DataSource.kt:132 | the empty view becomes visible iff the list is empty; nothing without one |
| LegacySource.Finish | library/src/main/java/com/afollestad/recyclical/DataSource.kt:134 | without an adapter the edit fails with "Not attached" and reports nothing, the list already changed; with one the adapter gets the block |
| LegacySource.Get | library/src/main/java/com/afollestad/recyclical/DataSource.kt:44 | the item at the index, or an index error |
| LegacySource.Size | library/src/main/java/com/afollestad/recyclical/DataSource.kt:126 | the number of items, and exactly the indices below it can be read |
| LegacySource.IsEmpty | library/src/main/java/com/afollestad/recyclical/DataSource.kt:128 | true iff there are no items, which is when index 0 cannot be read |
| LegacySource.IsNotEmpty | library/src/main/java/com/afollestad/recyclical/DataSource.kt:130 | true iff there is an item, then index 0 reads it; always the opposite of `isEmpty` |
| LegacySource.PlusAssign | library/src/main/java/com/afollestad/recyclical/DataSource.kt:46-50 | appends the item and reports an insert at the new last index, then updates the empty view |
| LegacySource.Set | library/src/main/java/com/afollestad/recyclical/DataSource.kt:54-76 | the contents become the new items; the diff path never fails and dispatches only when attached; the other path needs the adapter |
| LegacySource.Insert | library/src/main/java/com/afollestad/recyclical/DataSource.kt:78-85 | a bad index changes nothing; otherwise insert, report, update the empty view |
| LegacySource.RemoveAt | library/src/main/java/com/afollestad/recyclical/DataSource.kt:87-91 | a bad index changes nothing; otherwise remove, report, update the empty view |
| LegacySource.Remove | library/src/main/java/com/afollestad/recyclical/DataSource.kt:93-97 | the first equal item goes; an absent one changes nothing and does not fail |
| LegacySource.Swap | library/src/main/java/com/afollestad/recyclical/DataSource.kt:99-108 | both items are read before any write, so a bad index changes nothing; the empty view is left alone |
| LegacySource.Move | library/src/main/java/com/afollestad/recyclical/DataSource.kt:110-118 | a bad `to` is found after removal and loses the item; the empty view is left alone |
| LegacySource.Clear | library/src/main/java/com/afollestad/recyclical/DataSource.kt:120-124 | no items, one full invalidate, then the empty view update |
| LegacySource.Apply | library/src/main/java/com/afollestad/recyclical/DataSource.kt:46-124 | an attached source never fails with "Not attached" |
| LegacySource.UnattachedEditsStillChangeTheList | library/src/main/java/com/afollestad/recyclical/DataSource.kt:134 | without an adapter an edit changes the list exactly as it does with one |
| LegacySource.UnattachedEditsFail | library/src/main/java/com/afollestad/recyclical/DataSource.kt:134 | without an adapter an edit that would have reported to the adapter fails with "Not attached", except the diff path of `set` |
| LegacySource.EmptyViewAfterEdits | library/src/main/java/com/afollestad/recyclical/DataSource.kt:46-132 | after a reporting edit the empty view is visible iff the list is empty, except after `swap` and `move`, which leave it alone |
| LegacySource.AgreeOnPlusAssign | library/src/main/java/com/afollestad/recyclical/DataSource.kt:46-50 | attached, `+=` leaves the same items and the same outcome as the current `add` of one item |
| LegacySource.AgreeOnSet | library/src/main/java/com/afollestad/recyclical/DataSource.kt:54-76 | attached, `set` leaves the same items and the same outcome as the current `set` |
| LegacySource.AgreeOnInsert | library/src/main/java/com/afollestad/recyclical/DataSource.kt:78-85 | attached, `insert` leaves the same items and fails on the same indices as the current one |
| LegacySource.AgreeOnRemoveAt | library/src/main/java/com/afollestad/recyclical/DataSource.kt:87-91 | attached, `removeAt` leaves the same items and fails on the same indices as the current one |
| LegacySource.AgreeOnRemove | library/src/main/java/com/afollestad/recyclical/DataSource.kt:93-97 | attached, `remove` takes out the same occurrence as the current one |
| LegacySource.AgreeOnSwap | library/src/main/java/com/afollestad/recyclical/DataSource.kt:99-108 | attached, `swap` leaves the same items and reports the same bad index as the current one |
| LegacySource.AgreeOnMove | library/src/main/java/com/afollestad/recyclical/DataSource.kt:110-118 | attached, `move` leaves the same items, also losing the item on a bad `to`, as the current one |
| LegacySource.AgreeOnClear | library/src/main/java/com/afollestad/recyclical/DataSource.kt:120-124 | attached, `clear` empties the list as the current one does |
| LegacyDefinition.NewDefinition | library/src/main/java/com/afollestad/recyclical/ItemDefinition.kt:30-39 | a new definition for the class has no creator, binder or listeners |
| LegacyDefinition.OnBindEnablesRows | library/src/main/java/com/afollestad/recyclical/ItemDefinition.kt:46-53 | without `onBind` creating a view holder fails; with it creating succeeds with the same listener wiring and binding runs the binder |
| LegacyDefinition.OnClickCalledFirst | library/src/main/java/com/afollestad/recyclical/ItemDefinition.kt:58-61 | with `onClick` the row view gets a click listener, and a click calls the definition's listener first with the position and its item |
| LegacyDefinition.OnLongClickCalledFirst | library/src/main/java/com/afollestad/recyclical/ItemDefinition.kt:66-69 | with `onLongClick` the row view gets a long-click listener, and a long click calls the definition's listener first and is consumed |
| LegacyDefinition.CreateViewHolder | library/src/main/java/com/afollestad/recyclical/ItemDefinition.kt:71-86 | the view gets each listener iff the definition or the setup has one, before a missing creator fails with a message naming the class |
| LegacyDefinition.BindViewHolder | library/src/main/java/com/afollestad/recyclical/ItemDefinition.kt:88-100 | the cast to the definition's item type is erased, so binding never fails: the tag holds the position, the row is bound by this definition with the given item, and the binder runs iff one was given |
| LegacyDefinition.ClickCalls | library/src/main/java/com/afollestad/recyclical/ItemDefinition.kt:102-110 | a missing tag or source fails; otherwise the item listener, then the global one, receive the position and the item |
| LegacyDefinition.OnRowLongClick | library/src/main/java/com/afollestad/recyclical/ItemDefinition.kt:112-121 | the same dispatch with the long-click listeners, and the click is always consumed |
| LegacyDefinition.ClickAfterBindSeesBoundItem | library/src/main/java/com/afollestad/recyclical/ItemDefinition.kt:96-110 | a row bound at a position and then clicked hands that position's item to its listeners, the item listener first |
| LegacyHandle.EmptyViewWrite | library/src/main/java/com/afollestad/recyclical/Util.kt:44-46 | the empty view ends visible when asked to show and gone otherwise; nothing without one |
| LegacyHandle.ShowEmptyViewOf | library/src/main/java/com/afollestad/recyclical/RecyclicalHandle.kt:40 | the empty view ends visible |
| LegacyHandle.HideEmptyViewAsWritten | library/src/main/java/com/afollestad/recyclical/RecyclicalHandle.kt:43 | has exactly the effect of showing the empty view |
| LegacyHandle.ShowOrHideEmptyViewOf | library/src/main/java/com/afollestad/recyclical/RecyclicalHandle.kt:46 | the empty view ends visible iff asked to show |
| LegacyHandle.HideEmptyViewShows | library/src/main/java/com/afollestad/recyclical/RecyclicalHandle.kt:43 | with an empty view, "hiding" leaves it visible, unlike `showOrHideEmptyView(false)` |
| LegacyHandle.ShowEmptyView | library/src/main/java/com/afollestad/recyclical/handle/RealRecyclicalHandle.kt:34-36 | the empty view ends visible |
| LegacyHandle.HideEmptyView | library/src/main/java/com/afollestad/recyclical/handle/RealRecyclicalHandle.kt:38-40 | the empty view ends gone |
| LegacyHandle.ShowOrHideEmptyView | library/src/main/java/com/afollestad/recyclical/handle/RealRecyclicalHandle.kt:42-44 | the empty view ends visible iff asked to show |
| LegacyHandle.HideEmptyViewHides | library/src/main/java/com/afollestad/recyclical/handle/RealRecyclicalHandle.kt:34-44 | hiding equals `showOrHideEmptyView(false)` and undoes a show; the data class's version differs exactly when there is an empty view |
| LegacyHandle.InvalidateList | library/src/main/java/com/afollestad/recyclical/handle/RealRecyclicalHandle.kt:48-51 | the adapter receives exactly the block, then the empty view is shown iff the source is empty |
| LegacyHandle.InvalidateListAsCurrent | library/src/main/java/com/afollestad/recyclical/RecyclicalHandle.kt:56-59 | the older `invalidateList` has exactly the effects of the current handle's |
| LegacyHandle.GetViewTypeForClass | library/src/main/java/com/afollestad/recyclical/handle/RealRecyclicalHandle.kt:53-57 | the registered type, or an error naming the class |
| LegacyHandle.GetDefinitionForType | library/src/main/java/com/afollestad/recyclical/handle/RealRecyclicalHandle.kt:64-68 | the registered definition, or an error whose text names the handle rather than the type |
| LegacyHandle.GetDefinitionForClass | library/src/main/java/com/afollestad/recyclical/handle/RealRecyclicalHandle.kt:59-62 | the class's type, then that type's definition |
| LegacyHandle.LookupsAsCurrent | library/src/main/java/com/afollestad/recyclical/handle/RealRecyclicalHandle.kt:53-68 | the lookups find what the current handle finds in the same maps; every missing type gives the same message |
| LegacyAdapter.NewAdapter | library/src/main/java/com/afollestad/recyclical/internal/DefinitionAdapter.kt:28-34 | construction fails with "Must set a data source." exactly when the setup has none |
| LegacyAdapter.ItemType | library/src/main/java/com/afollestad/recyclical/internal/DefinitionAdapter.kt:62-67 | the layout registered for the item's class, or an error naming the class |
| LegacyAdapter.ItemDefinition | library/src/main/java/com/afollestad/recyclical/internal/DefinitionAdapter.kt:69-73 | the definition registered for the layout, or an error naming the layout |
| LegacyAdapter.ItemCount | library/src/main/java/com/afollestad/recyclical/internal/DefinitionAdapter.kt:50 | the source's size |
| LegacyAdapter.ItemViewType | library/src/main/java/com/afollestad/recyclical/internal/DefinitionAdapter.kt:36-38 | the row item's registered layout; out of range and unknown classes fail |
| LegacyAdapter.CreateViewHolder | library/src/main/java/com/afollestad/recyclical/internal/DefinitionAdapter.kt:40-48 | the layout's definition creates the holder; an unknown layout fails |
| LegacyAdapter.BindViewHolder | library/src/main/java/com/afollestad/recyclical/internal/DefinitionAdapter.kt:52-60 | an out-of-range position, an unregistered class and an unregistered layout each fail with their own error; otherwise the definition registered under the item's layout binds the row item at its position, whichever class it was written for |
| LegacyAdapter.ConsistentRegistryBindsEveryRow | library/src/main/java/com/afollestad/recyclical/internal/DefinitionAdapter.kt:52-73 | when every class's layout leads back to a definition of that class, every row of a registered class is bound at its position by its own class's definition |
| LegacySetup.NewLegacySetup | library/src/main/java/com/afollestad/recyclical/Recyclical.kt:30-38 | a fresh setup has empty maps, no source, no empty view and no click listener |
| LegacySetup.ChosenLayoutManagerIsKept | library/src/main/java/com/afollestad/recyclical/Recyclical.kt:44-47 | `setup` keeps the layout manager given to `withLayoutManager`, and the choice does not change its outcome |
| LegacySetup.EmptyViewTracksTheSource | library/src/main/java/com/afollestad/recyclical/Recyclical.kt:53-56 | with `withEmptyView`, the attached source shows the empty view iff it is empty on every update; without one, updates write nothing |
| LegacySetup.GivenDataSourceIsAttached | library/src/main/java/com/afollestad/recyclical/Recyclical.kt:63-66 | once the registry checks pass, `setup` with `withDataSource` succeeds with the given items attached; without a source it fails with "Must set a data source." |
| LegacySetup.GlobalClickReachesEveryRow | library/src/main/java/com/afollestad/recyclical/Recyclical.kt:72-75 | with `withClickListener`, every registered layout's row view gets a click listener, and a click on a row ends with the global listener receiving the position and its item |
| LegacySetup.WithItem | library/src/main/java/com/afollestad/recyclical/ItemDefinition.kt:129-139 | the class maps to the layout and the layout to the definition, overwriting earlier entries; nothing else changes |
| LegacySetup.RegistryChecks | library/src/main/java/com/afollestad/recyclical/Recyclical.kt:87-92 | "No bindings defined." for no classes, else the size message for maps of unequal size |
| LegacySetup.CorrectedRegistryChecks | library/src/main/java/com/afollestad/recyclical/Recyclical.kt:87-92 | passes exactly when the original checks pass and every class's layout leads to a definition of that class |
| LegacySetup.Finish | library/src/main/java/com/afollestad/recyclical/Recyclical.kt:94-104 | the default layout manager when none; a missing source fails; otherwise the source is attached to an adapter over the setup's maps |
| LegacySetup.SetupList | library/src/main/java/com/afollestad/recyclical/Recyclical.kt:83-107 | the registry checks come first and leave the layout manager alone on failure; then the layout manager, then the data source |
| LegacySetup.CorrectedSetupList | library/src/main/java/com/afollestad/recyclical/Recyclical.kt:83-107 | `setup` with the corrected checks; whatever it accepts, the original accepts the same way |
| LegacySetup.SetupCheckOrder | library/src/main/java/com/afollestad/recyclical/Recyclical.kt:87-99 | no bindings is reported before a missing source, and a missing source only after the default layout manager was installed |
| LegacySetup.SharedLayoutRejected | library/src/main/java/com/afollestad/recyclical/Recyclical.kt:89-91 | two classes on one layout leave two classes and one definition, and `setup` rejects that |
| LegacySetup.CrossedRegistryPassesSetup | library/src/main/java/com/afollestad/recyclical/Recyclical.kt:89-91 | a crossed registry passes `setup`, and row 0 of the first class is then bound by the second class's definition |
| LegacySetup.CorrectedSetupBindsEveryRegisteredRow | library/src/main/java/com/afollestad/recyclical/Recyclical.kt:87-104 | with the corrected checks, after a successful setup every row of a registered class is bound at its position by its own class's definition |
| LegacySetup.CorrectedSetupRejectsCrossedRegistry | library/src/main/java/com/afollestad/recyclical/Recyclical.kt:87-92 | the corrected checks reject the crossed registry |

## Left out

- The Android views themselves are not modelled. This covers inflation, drawing, view holders as objects, the swipe plugin's canvas drawing in `onChildDraw`, haptic feedback, icons, colours and text. View effects appear only as visibility writes in the effect log.
- The diff computation of `set` is left out. `DiffUtil` and `ItemDiffCallback` are library code outside the model, so a dispatched diff is one `DiffDispatched` event.
- User callbacks are left out. A change listener, the selection callback and a click listener each appear as one event or call record. A swipe callback's answer is a parameter.
- Items are opaque values with a class name. Kotlin's `is`/`as?` class tests become class-name equality, so subclassing is not modelled.
- Window attach and detach callbacks are left out (`onAttach`/`onDetach` in `setup`, both versions). So is re-attaching on re-entry.
- Mutable aliasing is left out. The older `DataSource` keeps the caller's `MutableList` when given one, and the core handle and adapter share one source object. The model passes the source value explicitly.
- Type-safe bindings, view-holder creation and binding of the core module (`ItemDefinition.kt`, `RealItemDefinition.kt`, `BindingViewHolder.kt`) are left out. They are not part of this model. Only the older module's definition is modelled.
- The older `RecyclicalHandle` data class's `attachDataSource`/`detachDataSource`, and the older `setup`'s `dataSource.attach(emptyView, adapter)`, call methods the older `DataSource.kt` does not declare. Setup attach is modelled with the methods the older `DataSource` has (`attachAdapter`, `finishSetup`). The handle calls are left out.
- The older `ItemDefinition` reads `setup.globalOnLongClick` and the older adapter reads `setup.currentDataSource`. Neither is declared by the older `RecyclicalSetup`. They are taken as a parameter and as the setup's data source.
- Layout animations and the sample app are left out.
- The core module's global click and long-click listeners are stored by the builder but only read by the core item definition's click dispatch (`itemdefinition/RealItemDefinition.kt`), which is not part of this model.
- A failure inside a user binder is not modelled. The older definition's cast of the item to its item type is erased at run time, so a binder that uses the item as its own class can still throw a `ClassCastException`.
- ItemGraph.NextType: the view type is an unbounded integer. Kotlin's `Int` would wrap past 2^31 - 1, which takes about two billion registrations, so the wrap-around is not modelled.
- Swipe.DirectionMask: the bitwise `or` of the two flags is modelled as their sum, which is equal for two distinct single-bit flags. It is not a general bit operation.
- LegacyHandle.GetDefinitionForType: the handle's text form in the failure message is a parameter, because a class's `toString` is not modelled.
- Setup.GetPluginData: the caller's type argument is erased in Kotlin, so the model returns the stored value. A wrong-type value surfaces only where a caller casts it (`Swipe.WithSwipeAction`).

## Findings

| source | as written | input that shows it | evidently intended | confidence | as-written member | corrected member |
|---|---|---|---|---|---|---|
| library/src/main/java/com/afollestad/recyclical/RecyclicalHandle.kt:43 | `hideEmptyView` passes `true` to `showOrHide`, so it shows the empty view | any handle with an empty view: `hideEmptyView()` leaves it visible | hide the empty view (visibility gone), as the handle class does at library/src/main/java/com/afollestad/recyclical/handle/RealRecyclicalHandle.kt:38-40 | high, not executed | LegacyHandle.HideEmptyViewShows | LegacyHandle.HideEmptyViewHides |
| library/src/main/java/com/afollestad/recyclical/Recyclical.kt:89-91 | the consistency check compares only the sizes of the two registry maps | `withItem<A>(1)`, `withItem<A>(2)`, `withItem<B>(2)` with one item of class A: both maps have two entries, `setup` succeeds, and row 0 of class A is bound by B's definition, whose binder receives the A item | reject registries where a class's layout leads to another class's definition | medium, not executed | LegacySetup.CrossedRegistryPassesSetup | LegacySetup.CorrectedSetupBindsEveryRegisteredRow |
