/**
 * A data source that also keeps a set of selected indices. Selection
 * changes report the touched position like any change, and fire the
 * selection callback whenever the number of selected indices changed.
 * Structural edits rewrite the selected indices before the list changes.
 */
module Selectable {
  import opened Common
  import opened DataSource
  import Lists

  /**
   * A selectable source: the plain source it extends, the selected
   * indices, and whether a selection callback is set.
   */
  datatype SelSource = SelSource(base: Source, selected: set<int>, hasCallback: bool)

  /** The outcome of a selection call: new state, reports, and the Boolean it returns. */
  datatype SelAnswer = SelAnswer(state: SelSource, log: seq<Event>, changed: bool)

  /** The outcome of a structural edit (which may raise after partial work). */
  datatype SelStep = SelStep(state: SelSource, log: seq<Event>, thrown: Option<Error>)

  function Items(s: SelSource): seq<Item> {
    s.base.items
  }

  /** Every selected index names an item. */
  predicate InRange(s: SelSource) {
    forall k :: k in s.selected ==> 0 <= k < |s.base.items|
  }

  /** `selectableDataSourceOf(items)`: nothing selected, no callback, detached. */
  function SelectableDataSourceOf(items: seq<Item>): (s: SelSource)
    ensures Items(s) == items && s.selected == {} && !s.hasCallback
    ensures s.base.handle.None? && s.base.listeners == []
    ensures InRange(s)
  {
    SelSource(DataSourceOf(items), {}, false)
  }

  /** `emptySelectableDataSource()`. */
  function EmptySelectableDataSource(): (s: SelSource)
    ensures Items(s) == [] && s.selected == {}
    ensures InRange(s)
  {
    SelectableDataSourceOf([])
  }

  /**
   * `maybeNotifyCallback`: after the block ran (leaving `after` selected and
   * `log` reported), the call returns true and fires the callback iff the
   * number of selected indices changed.
   */
  function MaybeNotify(s: SelSource, after: set<int>, log: seq<Event>): (r: SelAnswer)
    ensures r.state == s.(selected := after)
    ensures r.changed <==> |after| != |s.selected|
    ensures AdapterEvents(r.log) == AdapterEvents(log)
    ensures ListenerCalls(r.log) == ListenerCalls(log)
    ensures LastVisibility(r.log) == LastVisibility(log)
    ensures CallbackCount(r.log) == CallbackCount(log) + (if r.changed && s.hasCallback then 1 else 0)
  {
    var changed := |after| != |s.selected|;
    var callback := if changed && s.hasCallback then [SelectionChanged] else [];
    AdapterEventsAppend(log, callback);
    ListenerCallsAppend(log, callback);
    LastVisibilityAppend(log, callback);
    CallbackCountAppend(log, callback);
    SelAnswer(s.(selected := after), log + callback, changed)
  }

  /**
   * `selectAt`: an index outside the list is refused. Otherwise the index
   * joins the selection, its position is reported as changed either way, and
   * the call returns true (and fires the callback) iff it was not selected.
   */
  function SelectAt(s: SelSource, index: int): (r: SelAnswer)
    ensures r.state.base == s.base && r.state.hasCallback == s.hasCallback
    ensures !(0 <= index < |s.base.items|) ==> r == SelAnswer(s, [], false)
    ensures 0 <= index < |s.base.items| ==>
      && r.state.selected == s.selected + {index}
      && (r.changed <==> index !in s.selected)
      && Reports(s.base, r.log, [ItemChanged(index)])
      && CallbackCount(r.log) == (if r.changed && s.hasCallback then 1 else 0)
  {
    if index < 0 || index >= Size(s.base) then SelAnswer(s, [], false)
    else
      AddOneGrows(s.selected, index);
      MaybeNotify(s, s.selected + {index}, InvalidateAt(s.base, index))
  }

  /** `deselectAt`: the mirror image of `selectAt`. */
  function DeselectAt(s: SelSource, index: int): (r: SelAnswer)
    ensures r.state.base == s.base && r.state.hasCallback == s.hasCallback
    ensures !(0 <= index < |s.base.items|) ==> r == SelAnswer(s, [], false)
    ensures 0 <= index < |s.base.items| ==>
      && r.state.selected == s.selected - {index}
      && (r.changed <==> index in s.selected)
      && Reports(s.base, r.log, [ItemChanged(index)])
      && CallbackCount(r.log) == (if r.changed && s.hasCallback then 1 else 0)
  {
    if index < 0 || index >= Size(s.base) then SelAnswer(s, [], false)
    else
      RemoveOneShrinks(s.selected, index);
      MaybeNotify(s, s.selected - {index}, InvalidateAt(s.base, index))
  }

  /** Adding one index changes the number of selected indices iff it was not there. */
  lemma AddOneGrows(s: set<int>, k: int)
    ensures |s + {k}| != |s| <==> k !in s
  {
    if k !in s {
      assert |s + {k}| == |s| + 1;
    } else {
      assert s + {k} == s;
    }
  }

  /** Removing one index changes the number of selected indices iff it was there. */
  lemma RemoveOneShrinks(s: set<int>, k: int)
    ensures |s - {k}| != |s| <==> k in s
  {
    if k in s {
      assert |s - {k}| == |s| - 1;
    } else {
      assert s - {k} == s;
    }
  }

  /** `isSelectedAt`: plain membership, with no range check. */
  function IsSelectedAt(s: SelSource, index: int): (b: bool)
    ensures b <==> index in s.selected
  {
    index in s.selected
  }

  /**
   * Within range, `isSelectedAt` is what the selection calls report:
   * `selectAt` returns true exactly when the index was not selected and
   * `deselectAt` exactly when it was; afterwards the index reads as
   * selected and as not selected.
   */
  lemma IsSelectedAtAgreesWithCalls(s: SelSource, index: int)
    requires 0 <= index < |s.base.items|
    ensures SelectAt(s, index).changed <==> !IsSelectedAt(s, index)
    ensures DeselectAt(s, index).changed <==> IsSelectedAt(s, index)
    ensures IsSelectedAt(SelectAt(s, index).state, index)
    ensures !IsSelectedAt(DeselectAt(s, index).state, index)
  {
  }

  /** Adding a set grows the selection iff it was not already contained. */
  lemma UnionGrows(s: set<int>, more: set<int>)
    ensures |s + more| != |s| <==> !(more <= s)
  {
    var extra := more - s;
    assert s + more == s + extra;
    assert |s + extra| == |s| + |extra|;
    assert more <= s <==> extra == {};
  }

  /**
   * `selectAll`: every index of the list becomes selected, with one full
   * invalidate; true iff some index was not selected yet.
   */
  function SelectAll(s: SelSource): (r: SelAnswer)
    ensures r.state.base == s.base && r.state.hasCallback == s.hasCallback
    ensures forall k :: k in r.state.selected <==> k in s.selected || 0 <= k < |s.base.items|
    ensures r.changed <==> exists k :: 0 <= k < |s.base.items| && k !in s.selected
    ensures Reports(s.base, r.log, [DataSetChanged])
    ensures CallbackCount(r.log) == (if r.changed && s.hasCallback then 1 else 0)
  {
    var all := IndexRange(Size(s.base));
    UnionGrows(s.selected, all);
    assert !(all <= s.selected) <==> exists k :: 0 <= k < |s.base.items| && k !in s.selected by {
      if !(all <= s.selected) {
        var extra := all - s.selected;
        assert |extra| > 0;
        var k :| k in extra;
        assert 0 <= k < |s.base.items| && k !in s.selected;
      }
    }
    MaybeNotify(s, s.selected + all, InvalidateAll(s.base))
  }

  /** `deselectAll`: nothing stays selected; true iff something was. */
  function DeselectAll(s: SelSource): (r: SelAnswer)
    ensures r.state.base == s.base && r.state.hasCallback == s.hasCallback
    ensures r.state.selected == {}
    ensures r.changed <==> s.selected != {}
    ensures Reports(s.base, r.log, [DataSetChanged])
    ensures CallbackCount(r.log) == (if r.changed && s.hasCallback then 1 else 0)
  {
    MaybeNotify(s, {}, InvalidateAll(s.base))
  }

  /** `getSelectionCount`. */
  function SelectionCount(s: SelSource): (n: nat)
    ensures n == 0 <==> s.selected == {}
  {
    |s.selected|
  }

  /** `hasSelection`: `getSelectionCount() > 0`, so some index reads as selected. */
  function HasSelection(s: SelSource): (b: bool)
    ensures b <==> exists k :: IsSelectedAt(s, k)
  {
    if SelectionCount(s) > 0 then SomeIndexSelected(s); true else false
  }

  lemma SomeIndexSelected(s: SelSource)
    requires s.selected != {}
    ensures exists k :: IsSelectedAt(s, k)
  {
    if forall k :: k !in s.selected {
      assert false;
    }
    var k :| k in s.selected;
    assert IsSelectedAt(s, k);
  }

  /** `onSelectionChange`: later selection changes fire the callback. */
  function OnSelectionChange(s: SelSource): (r: SelSource)
    ensures r.base == s.base && r.selected == s.selected && r.hasCallback
  {
    s.(hasCallback := true)
  }

  // ---------------------------------------------------------------------
  // Interface defaults
  // ---------------------------------------------------------------------

  /** The state toggling leaves: only the index's membership flips, when it is in range. */
  function Toggled(s: SelSource, index: int): SelSource {
    if !(0 <= index < |s.base.items|) then s
    else if index in s.selected then s.(selected := s.selected - {index})
    else s.(selected := s.selected + {index})
  }

  /** `toggleSelectionAt`: deselect when selected, select otherwise. */
  function ToggleSelectionAt(s: SelSource, index: int): (r: SelAnswer)
    ensures index in s.selected ==> r == DeselectAt(s, index)
    ensures index !in s.selected ==> r == SelectAt(s, index)
    ensures r.state == Toggled(s, index)
    ensures r.changed <==> 0 <= index < |s.base.items|
  {
    if IsSelectedAt(s, index) then DeselectAt(s, index) else SelectAt(s, index)
  }

  /** Flipping the same index twice restores the state. */
  lemma ToggledTwice(s: SelSource, index: int)
    ensures Toggled(Toggled(s, index), index) == s
  {
    if 0 <= index < |s.base.items| {
      if index in s.selected {
        assert (s.selected - {index}) + {index} == s.selected;
      } else {
        assert (s.selected + {index}) - {index} == s.selected;
      }
    }
  }

  /** Toggling the same index twice restores the selection. */
  lemma ToggleTwice(s: SelSource, index: int)
    ensures ToggleSelectionAt(ToggleSelectionAt(s, index).state, index).state == s
  {
    ToggledTwice(s, index);
  }

  /** `select(item)`: select the first equal item's index; false when absent. */
  function Select(s: SelSource, x: Item): (r: SelAnswer)
    ensures x !in Items(s) ==> r == SelAnswer(s, [], false)
    ensures x in Items(s) ==> r == SelectAt(s, IndexOf(s.base, x))
  {
    var index := IndexOf(s.base, x);
    if index == -1 then SelAnswer(s, [], false) else SelectAt(s, index)
  }

  /** `deselect(item)`: deselect the first equal item's index; false when absent. */
  function Deselect(s: SelSource, x: Item): (r: SelAnswer)
    ensures x !in Items(s) ==> r == SelAnswer(s, [], false)
    ensures x in Items(s) ==> r == DeselectAt(s, IndexOf(s.base, x))
  {
    var index := IndexOf(s.base, x);
    if index == -1 then SelAnswer(s, [], false) else DeselectAt(s, index)
  }

  /** `toggleSelection(item)`: toggle the first equal item's index; false when absent. */
  function ToggleSelection(s: SelSource, x: Item): (r: SelAnswer)
    ensures x !in Items(s) ==> r == SelAnswer(s, [], false)
    ensures x in Items(s) ==> r == ToggleSelectionAt(s, IndexOf(s.base, x)) && r.changed
  {
    var index := IndexOf(s.base, x);
    if index == -1 then SelAnswer(s, [], false) else ToggleSelectionAt(s, index)
  }

  /** `isSelected(item)`: whether the first equal item's index is selected. */
  function IsSelected(s: SelSource, x: Item): (b: bool)
    ensures b <==> x in Items(s) && IndexOf(s.base, x) in s.selected
  {
    var index := IndexOf(s.base, x);
    if index == -1 then false else IsSelectedAt(s, index)
  }

  /** Toggling the same item twice restores the selection. */
  lemma ToggleItemTwice(s: SelSource, x: Item)
    ensures ToggleSelection(ToggleSelection(s, x).state, x).state == s
  {
    if x in Items(s) {
      ToggleTwice(s, IndexOf(s.base, x));
    }
  }

  /**
   * The item-based calls act on the first occurrence: with two equal items,
   * selecting the item selects only the earlier index.
   */
  lemma ItemCallsUseFirstOccurrence(s: SelSource, x: Item, i: int, j: int)
    requires 0 <= i < j < |Items(s)| && Items(s)[i] == x && Items(s)[j] == x
    requires forall k :: 0 <= k < i ==> Items(s)[k] != x
    ensures Select(s, x).state.selected == s.selected + {i}
  {
    assert Items(s)[i] in Items(s);
    var k := IndexOf(s.base, x);
    assert forall j :: 0 <= j < k ==> Items(s)[..k][j] == Items(s)[j];
    assert k == i;
    assert Select(s, x) == SelectAt(s, i);
  }

  // ---------------------------------------------------------------------
  // Structural edits
  // ---------------------------------------------------------------------

  /**
   * The selection after `insert(index, _)` as written: indices below `index`
   * stay, each selected index at or above it moves up one, and a moved index
   * is kept only if it is below the size the list had before the insert.
   */
  function ShiftForInsert(selected: set<int>, index: int, size: nat): (r: set<int>)
    ensures forall k :: k in r <==>
      (k in selected && k < index) || (k - 1 in selected && k - 1 >= index && k < size)
  {
    var greater := set k | k in selected && k >= index;
    var shifted := set k | k in greater && k + 1 < size :: k + 1;
    assert forall k :: k in shifted <==> k - 1 in greater && k < size by {
      forall k | k - 1 in greater && k < size
        ensures k in shifted
      {
        var j := k - 1;
        assert j in greater && j + 1 < size;
      }
    }
    (selected - greater) + shifted
  }

  /**
   * `insert(index, item)`: the selection is rewritten first (even when the
   * insert then fails its range check), then the plain insert runs. No
   * selection callback fires.
   */
  function SelInsert(s: SelSource, index: int, x: Item): (r: SelStep)
    ensures r.state.selected == ShiftForInsert(s.selected, index, |s.base.items|)
    ensures r.state.hasCallback == s.hasCallback
    ensures var step := Insert(s.base, index, x);
      r.state.base == step.source && r.log == step.log && r.thrown == step.thrown
    ensures CallbackCount(r.log) == 0
  {
    var step := Insert(s.base, index, x);
    SelStep(SelSource(step.source, ShiftForInsert(s.selected, index, Size(s.base)), s.hasCallback), step.log, step.thrown)
  }

  /**
   * What `selectAt(index)` or `deselectAt(index)` reports to the adapter:
   * the position's change, when it is in range and the source is attached.
   */
  function ChangeReport(s: Source, index: int): seq<Event> {
    if s.handle.Some? && 0 <= index < |s.items| then [ItemChanged(index)] else []
  }

  /** `selectAt` when `on`, `deselectAt` otherwise, as `swap` and `move` use them. */
  function SetSelectedAt(s: SelSource, index: int, on: bool): (r: SelAnswer)
    ensures r.state.base == s.base && r.state.hasCallback == s.hasCallback
    ensures r.state.selected ==
      if !(0 <= index < |s.base.items|) then s.selected
      else if on then s.selected + {index} else s.selected - {index}
    ensures AdapterEvents(r.log) == ChangeReport(s.base, index)
    ensures CallbackCount(r.log) ==
      if s.hasCallback && 0 <= index < |s.base.items| && (index in s.selected) != on then 1 else 0
  {
    if on then SelectAt(s, index) else DeselectAt(s, index)
  }

  /**
   * `swap(left, right)`: first `right` takes `left`'s selection state, then
   * `left` takes `right`'s old state (through `selectAt`/`deselectAt`), then
   * the plain swap runs. Within range the two states are exchanged and no
   * other index changes. The adapter sees the two selection changes (right,
   * then left) before the swap's own reports, and the callback fires once
   * for each of the two calls that changed the selection, which happens
   * exactly when the two states differed.
   */
  function SelSwap(s: SelSource, left: int, right: int): (r: SelStep)
    ensures var step := Swap(s.base, left, right);
      r.state.base == step.source && r.thrown == step.thrown
    ensures r.state.hasCallback == s.hasCallback
    ensures r.state.selected == SetSelectedAt(SetSelectedAt(s, right, left in s.selected).state, left, right in s.selected).state.selected
    ensures 0 <= left < |s.base.items| && 0 <= right < |s.base.items| ==>
      r.state.selected == Exchanged(s.selected, left, right)
    ensures AdapterEvents(r.log) ==
      ChangeReport(s.base, right) + ChangeReport(s.base, left) + AdapterEvents(Swap(s.base, left, right).log)
    ensures CallbackCount(r.log) ==
      if s.hasCallback && (left in s.selected) != (right in s.selected) then
        (if 0 <= right < |s.base.items| then 1 else 0) + (if 0 <= left < |s.base.items| then 1 else 0)
      else 0
  {
    var a := SetSelectedAt(s, right, IsSelectedAt(s, left));
    var b := SetSelectedAt(a.state, left, IsSelectedAt(s, right));
    var step := Swap(b.state.base, left, right);
    AdapterEventsAppend(a.log, b.log);
    AdapterEventsAppend(a.log + b.log, step.log);
    CallbackCountAppend(a.log, b.log);
    CallbackCountAppend(a.log + b.log, step.log);
    SelStep(SelSource(step.source, b.state.selected, s.hasCallback), a.log + b.log + step.log, step.thrown)
  }

  /** Two one-event blocks in a row are the two-event block. */
  lemma JoinChanges(a: Event, b: Event)
    ensures [a] + [b] == [a, b]
  {
  }

  /**
   * Attached and within range, the adapter sees `right` and then `left`
   * change through the selection calls, then the swap's own two changes.
   */
  lemma SwapReportOrder(s: SelSource, left: int, right: int)
    requires s.base.handle.Some? && 0 <= left < |s.base.items| && 0 <= right < |s.base.items|
    ensures AdapterEvents(SelSwap(s, left, right).log) ==
      [ItemChanged(right), ItemChanged(left)] + [ItemChanged(left), ItemChanged(right)]
  {
    var r := SelSwap(s, left, right);
    var step := Swap(s.base, left, right);
    assert AdapterEvents(r.log) == ChangeReport(s.base, right) + ChangeReport(s.base, left) + AdapterEvents(step.log);
    assert AdapterEvents(step.log) == [ItemChanged(left), ItemChanged(right)];
    JoinChanges(ItemChanged(right), ItemChanged(left));
  }

  /** The selection with the states of `left` and `right` exchanged. */
  function Exchanged(selected: set<int>, left: int, right: int): (r: set<int>)
    ensures left in r <==> right in selected
    ensures right in r <==> left in selected
    ensures forall k :: k != left && k != right ==> (k in r <==> k in selected)
  {
    var rightDone := if left in selected then selected + {right} else selected - {right};
    if right in selected then rightDone + {left} else rightDone - {left}
  }

  lemma ExchangedTwice(selected: set<int>, left: int, right: int)
    ensures Exchanged(Exchanged(selected, left, right), left, right) == selected
  {
    var twice := Exchanged(Exchanged(selected, left, right), left, right);
    assert forall k :: k in twice <==> k in selected;
  }

  /**
   * After a swap within range the two positions have exchanged their
   * selection state, and no other index changed.
   */
  lemma SwapExchangesSelection(s: SelSource, left: int, right: int)
    requires 0 <= left < |s.base.items| && 0 <= right < |s.base.items|
    ensures var r := SelSwap(s, left, right);
      && r.thrown.None?
      && Items(r.state) == Lists.SwapAt(Items(s), left, right)
      && r.state.selected == Exchanged(s.selected, left, right)
  {
    var a := SetSelectedAt(s, right, left in s.selected);
    var b := SetSelectedAt(a.state, left, right in s.selected);
    assert SelSwap(s, left, right).state.selected == b.state.selected;
  }

  /**
   * The selection `move` leaves: a selected `from` is dropped and `to` added
   * when in range; every other selected index stays as it is.
   */
  function MovedSelection(s: SelSource, from: int, to: int): (r: set<int>)
    ensures from !in s.selected ==> r == s.selected
    ensures from in s.selected && 0 <= from < |s.base.items| && 0 <= to < |s.base.items| ==>
      r == (s.selected - {from}) + {to}
    ensures forall k :: k != from && k != to ==> (k in r <==> k in s.selected)
  {
    if from in s.selected then
      SetSelectedAt(SetSelectedAt(s, from, false).state, to, true).state.selected
    else s.selected
  }

  /**
   * `move(from, to)`: a selected `from` is deselected and `to` selected
   * (when in range), then the plain move runs. No other index changes. The
   * adapter sees those two selection changes, if any, before the move's own
   * report, and the callback fires once for each call that changed the
   * selection.
   */
  function SelMove(s: SelSource, from: int, to: int): (r: SelStep)
    ensures var step := Move(s.base, from, to);
      r.state.base == step.source && r.thrown == step.thrown
    ensures r.state.hasCallback == s.hasCallback
    ensures r.state.selected == MovedSelection(s, from, to)
    ensures AdapterEvents(r.log) ==
      (if from in s.selected then ChangeReport(s.base, from) + ChangeReport(s.base, to) else [])
      + AdapterEvents(Move(s.base, from, to).log)
    ensures CallbackCount(r.log) ==
      if s.hasCallback && from in s.selected then
        (if 0 <= from < |s.base.items| then 1 else 0)
        + (if 0 <= to < |s.base.items| && (to !in s.selected || (to == from && 0 <= from < |s.base.items|)) then 1 else 0)
      else 0
  {
    if IsSelectedAt(s, from) then
      var a := SetSelectedAt(s, from, false);
      var b := SetSelectedAt(a.state, to, true);
      var step := Move(b.state.base, from, to);
      AdapterEventsAppend(a.log, b.log);
      AdapterEventsAppend(a.log + b.log, step.log);
      CallbackCountAppend(a.log, b.log);
      CallbackCountAppend(a.log + b.log, step.log);
      MoveSelectionCallbacks(s, from, to, a, b);
      SelStep(SelSource(step.source, b.state.selected, s.hasCallback), a.log + b.log + step.log, step.thrown)
    else
      var step := Move(s.base, from, to);
      SelStep(SelSource(step.source, s.selected, s.hasCallback), step.log, step.thrown)
  }

  /**
   * The callbacks of `move`'s two selection calls: deselecting a selected
   * `from` fires when `from` is in range, and selecting `to` then fires when
   * `to` is in range and not selected at that point.
   */
  lemma MoveSelectionCallbacks(s: SelSource, from: int, to: int, a: SelAnswer, b: SelAnswer)
    requires from in s.selected
    requires a == SetSelectedAt(s, from, false) && b == SetSelectedAt(a.state, to, true)
    ensures CallbackCount(a.log) + CallbackCount(b.log) ==
      if s.hasCallback then
        (if 0 <= from < |s.base.items| then 1 else 0)
        + (if 0 <= to < |s.base.items| && (to !in s.selected || (to == from && 0 <= from < |s.base.items|)) then 1 else 0)
      else 0
  {
    assert a.state.base == s.base && a.state.hasCallback == s.hasCallback;
    if 0 <= from < |s.base.items| {
      assert a.state.selected == s.selected - {from};
    } else {
      assert a.state.selected == s.selected;
    }
  }

  /**
   * Attached and within range, the adapter sees `from` and `to` change when
   * `from` was selected, then the move itself.
   */
  lemma MoveReportOrder(s: SelSource, from: int, to: int)
    requires s.base.handle.Some? && 0 <= from < |s.base.items| && 0 <= to < |s.base.items|
    ensures AdapterEvents(SelMove(s, from, to).log) ==
      (if from in s.selected then [ItemChanged(from), ItemChanged(to)] else []) + [ItemMoved(from, to)]
  {
    var r := SelMove(s, from, to);
    var step := Move(s.base, from, to);
    assert AdapterEvents(r.log) ==
      (if from in s.selected then ChangeReport(s.base, from) + ChangeReport(s.base, to) else []) + AdapterEvents(step.log);
    assert AdapterEvents(step.log) == [ItemMoved(from, to)];
    JoinChanges(ItemChanged(from), ItemChanged(to));
  }

  /**
   * `removeAt(index)`: deselect `index`, then the plain removal. The
   * selected indices above it are left as they are.
   */
  function SelRemoveAt(s: SelSource, index: int): (r: SelStep)
    ensures var step := RemoveAt(s.base, index);
      r.state.base == step.source && r.thrown == step.thrown
    ensures r.state.hasCallback == s.hasCallback
    ensures 0 <= index < |s.base.items| ==> r.state.selected == s.selected - {index}
    ensures !(0 <= index < |s.base.items|) ==> r.state.selected == s.selected && r.log == []
    ensures r.log == DeselectAt(s, index).log + RemoveAt(s.base, index).log
  {
    var a := DeselectAt(s, index);
    var step := RemoveAt(s.base, index);
    SelStep(SelSource(step.source, a.state.selected, s.hasCallback), a.log + step.log, step.thrown)
  }

  /** `removeAt` fires the selection callback once exactly when it removed a selected index. */
  lemma SelRemoveAtCallback(s: SelSource, index: int)
    ensures CallbackCount(SelRemoveAt(s, index).log) ==
      (if index in s.selected && 0 <= index < |s.base.items| && s.hasCallback then 1 else 0)
  {
    CallbackCountAppend(DeselectAt(s, index).log, RemoveAt(s.base, index).log);
  }

  /** `clear`: deselect everything, then the plain clear: no items, no selection. */
  function SelClear(s: SelSource): (r: SelStep)
    ensures r.state.base.items == [] && r.state.selected == {}
    ensures r.state.base == Clear(s.base).source && r.thrown.None?
    ensures r.state.hasCallback == s.hasCallback
    ensures CallbackCount(r.log) == (if s.selected != {} && s.hasCallback then 1 else 0)
    ensures r.log == DeselectAll(s).log + Clear(s.base).log
  {
    var a := DeselectAll(s);
    assert a.state.base == s.base && a.state.selected == {};
    var step := Clear(a.state.base);
    assert CallbackCount(step.log) == 0;
    CallbackCountAppend(a.log, step.log);
    SelStep(SelSource(step.source, {}, s.hasCallback), a.log + step.log, step.thrown)
  }

  /** `set` is not overridden: the contents change and the selection stays. */
  function SelSet(s: SelSource, newItems: seq<Item>, hasAreTheSame: bool, hasAreContentsTheSame: bool): (r: SelStep)
    ensures r.state.base.items == newItems
    ensures r.state.selected == s.selected && r.state.hasCallback == s.hasCallback
    ensures var step := Set(s.base, newItems, hasAreTheSame, hasAreContentsTheSame);
      r.state.base == step.source && r.log == step.log && r.thrown.None?
  {
    var step := Set(s.base, newItems, hasAreTheSame, hasAreContentsTheSame);
    SelStep(SelSource(step.source, s.selected, s.hasCallback), step.log, step.thrown)
  }

  /** `add` is not overridden: the items are appended and the selection stays. */
  function SelAdd(s: SelSource, xs: seq<Item>): (r: SelStep)
    ensures r.state.base.items == s.base.items + xs
    ensures r.state.selected == s.selected && r.state.hasCallback == s.hasCallback
    ensures var step := Add(s.base, xs);
      r.state.base == step.source && r.log == step.log && r.thrown.None?
  {
    var step := Add(s.base, xs);
    SelStep(SelSource(step.source, s.selected, s.hasCallback), step.log, step.thrown)
  }

  /** `remove(item)` reaches the overridden `removeAt` at the first equal item. */
  function SelRemove(s: SelSource, x: Item): (r: SelStep)
    ensures x !in Items(s) ==> r == SelStep(s, [], None)
    ensures x in Items(s) ==> r == SelRemoveAt(s, IndexOf(s.base, x))
  {
    var index := IndexOf(s.base, x);
    if index == -1 then SelStep(s, [], None) else SelRemoveAt(s, index)
  }

  // ---------------------------------------------------------------------
  // Properties
  // ---------------------------------------------------------------------

  /**
   * After a successful insert, every selected item that was kept is still
   * selected at its new position: an item at k < index stays at k, an item
   * at k >= index is now at k + 1.
   */
  lemma InsertFollowsItems(s: SelSource, index: int, x: Item, k: int)
    requires 0 <= index <= |s.base.items|
    requires k in s.selected && 0 <= k < |s.base.items|
    requires k < index || k + 1 < |s.base.items|
    ensures var r := SelInsert(s, index, x);
      var moved := if k < index then k else k + 1;
      && r.thrown.None?
      && moved in r.state.selected
      && Items(r.state)[moved] == Items(s)[k]
  {
    var r := SelInsert(s, index, x);
    var items := Lists.InsertAt(Items(s), index, x);
    assert r.thrown.None? && Items(r.state) == items;
    var shifted := ShiftForInsert(s.selected, index, |s.base.items|);
    assert r.state.selected == shifted;
    if k < index {
      assert k in shifted;
      assert items[k] == Items(s)[k];
    } else {
      assert (k + 1) - 1 in s.selected;
      assert k + 1 in shifted;
      assert items[k + 1] == Items(s)[k];
    }
  }

  /**
   * The shift runs against the size before the insert, so a selected last
   * item that moves up is dropped: with four items and index 3 selected,
   * inserting at the front leaves nothing selected although the selected
   * item is now at index 4.
   */
  lemma InsertDropsShiftedLastIndex(a: Item, b: Item, c: Item, d: Item, x: Item)
    ensures var s := SelSource(DataSourceOf([a, b, c, d]), {3}, false);
      var r := SelInsert(s, 0, x);
      && r.thrown.None?
      && Items(r.state)[4] == d
      && r.state.selected == {}
  {
    var s := SelSource(DataSourceOf([a, b, c, d]), {3}, false);
    var shifted := ShiftForInsert({3}, 0, 4);
    assert forall k :: k !in shifted;
    var r := SelInsert(s, 0, x);
    assert Items(r.state) == Lists.InsertAt([a, b, c, d], 0, x);
  }

  /**
   * `removeAt` does not renumber: with three items and index 2 selected,
   * removing index 0 leaves index 2 selected in a two-item list, and the
   * selected item (now at index 1) reads as unselected.
   */
  lemma RemoveAtLeavesStaleIndex(a: Item, b: Item, c: Item)
    ensures var s := SelSource(DataSourceOf([a, b, c]), {2}, false);
      var r := SelRemoveAt(s, 0);
      && r.thrown.None?
      && Items(r.state) == [b, c]
      && IsSelectedAt(r.state, 2)
      && !IsSelectedAt(r.state, 1)
      && !InRange(r.state)
  {
    var s := SelSource(DataSourceOf([a, b, c]), {2}, false);
    var r := SelRemoveAt(s, 0);
    assert Items(r.state) == Lists.RemoveIndex([a, b, c], 0);
  }

  /** `set` is not overridden, so a shorter list keeps indices past its end selected. */
  lemma SetKeepsStaleIndex(a: Item, b: Item)
    ensures var s := SelSource(DataSourceOf([a, b]), {1}, false);
      var r := SelSet(s, [a], false, false);
      && IsSelectedAt(r.state, 1) && !InRange(r.state)
  {
  }

  /** The selection calls keep the selection in range. */
  lemma SelectionCallsKeepRange(s: SelSource, index: int)
    requires InRange(s)
    ensures InRange(SelectAt(s, index).state)
    ensures InRange(DeselectAt(s, index).state)
    ensures InRange(ToggleSelectionAt(s, index).state)
    ensures InRange(SelectAll(s).state)
    ensures InRange(DeselectAll(s).state)
  {
  }

  lemma SetSelectedKeepsRange(s: SelSource, index: int, on: bool)
    requires InRange(s)
    ensures InRange(SetSelectedAt(s, index, on).state)
  {
  }

  /**
   * `insert` keeps the selection in range, whether or not the insert itself
   * succeeds: a shifted index is only kept below the old size.
   */
  lemma InsertKeepsRange(s: SelSource, index: int, x: Item)
    requires InRange(s)
    ensures InRange(SelInsert(s, index, x).state)
  {
    var r := SelInsert(s, index, x);
    assert |Items(r.state)| >= |Items(s)|;
    forall k | k in r.state.selected
      ensures 0 <= k < |Items(s)|
    {
      if !(k in s.selected && k < index) {
        assert k - 1 in s.selected;
      }
    }
  }

  /** `swap` keeps the selection in range, also when an index is out of range. */
  lemma SwapKeepsRange(s: SelSource, left: int, right: int)
    requires InRange(s)
    ensures InRange(SelSwap(s, left, right).state)
  {
    var a := SetSelectedAt(s, right, left in s.selected);
    SetSelectedKeepsRange(s, right, left in s.selected);
    var b := SetSelectedAt(a.state, left, right in s.selected);
    SetSelectedKeepsRange(a.state, left, right in s.selected);
    var r := SelSwap(s, left, right);
    assert r.state.selected == b.state.selected;
    assert |Items(r.state)| == |Items(s)|;
  }

  /** Within range, `move` succeeds and moves the item as the plain move does. */
  lemma MoveInRange(s: SelSource, from: int, to: int)
    requires 0 <= from < |s.base.items| && 0 <= to < |s.base.items|
    ensures var r := SelMove(s, from, to);
      && r.thrown.None?
      && Items(r.state) == Lists.MoveTo(Items(s), from, to)
      && r.state.selected == MovedSelection(s, from, to)
  {
  }

  /** A successful `move` keeps the selection in range. */
  lemma MoveKeepsRange(s: SelSource, from: int, to: int)
    requires InRange(s)
    requires 0 <= from < |s.base.items| && 0 <= to < |s.base.items|
    ensures InRange(SelMove(s, from, to).state)
  {
    MoveInRange(s, from, to);
    var r := SelMove(s, from, to);
    MovedSelectionInRange(s, from, to);
    assert |Items(r.state)| == |Items(s)|;
  }

  lemma MovedSelectionInRange(s: SelSource, from: int, to: int)
    requires InRange(s)
    requires 0 <= from < |s.base.items| && 0 <= to < |s.base.items|
    ensures forall k :: k in MovedSelection(s, from, to) ==> 0 <= k < |s.base.items|
  {
    var moved := MovedSelection(s, from, to);
    forall k | k in moved
      ensures 0 <= k < |s.base.items|
    {
      if k != from && k != to {
        assert k in s.selected;
      }
    }
  }

  /** `clear` keeps the selection in range: nothing is selected afterwards. */
  lemma ClearKeepsRange(s: SelSource)
    ensures InRange(SelClear(s).state)
  {
    var cleared := SelClear(s).state;
    assert cleared.selected == {};
    assert forall k :: k !in cleared.selected;
  }

  /** `add` keeps the selection in range: the list only grows. */
  lemma AddKeepsRange(s: SelSource, xs: seq<Item>)
    requires InRange(s)
    ensures InRange(SelAdd(s, xs).state)
  {
    var added := SelAdd(s, xs).state;
    assert added.selected == s.selected && |added.base.items| == |s.base.items| + |xs|;
  }

  /**
   * `move` does not renumber the indices between `from` and `to`: with
   * items a, b, c and indices 0 and 1 selected, moving index 0 to 2 gives
   * b, c, a with indices 1 and 2 selected, so b is no longer selected and
   * c now is.
   */
  lemma MoveDoesNotRenumber(a: Item, b: Item, c: Item)
    ensures var s := SelSource(DataSourceOf([a, b, c]), {0, 1}, false);
      var r := SelMove(s, 0, 2);
      && r.thrown.None?
      && Items(r.state) == [b, c, a]
      && r.state.selected == {1, 2}
  {
    var s := SelSource(DataSourceOf([a, b, c]), {0, 1}, false);
    MoveInRange(s, 0, 2);
    MoveFrontToBack(a, b, c);
    MovedSelectionOfFront(s);
  }

  /** With 0 and 1 selected in three items, moving 0 to 2 leaves 1 and 2 selected. */
  lemma MovedSelectionOfFront(s: SelSource)
    requires |s.base.items| == 3 && s.selected == {0, 1}
    ensures MovedSelection(s, 0, 2) == {1, 2}
  {
    assert (s.selected - {0}) + {2} == {1, 2};
  }

  /** Swapping twice restores the selection and the items. */
  lemma SwapSelectionTwice(s: SelSource, left: int, right: int)
    requires 0 <= left < |s.base.items| && 0 <= right < |s.base.items|
    ensures var twice := SelSwap(SelSwap(s, left, right).state, left, right).state;
      twice.selected == s.selected && twice.base.items == s.base.items
  {
    var once := SelSwap(s, left, right).state;
    SwapExchangesSelection(s, left, right);
    SwapExchangesSelection(once, left, right);
    ExchangedTwice(s.selected, left, right);
    Lists.SwapTwice(s.base.items, left, right);
  }

  lemma MoveFrontToBack(a: Item, b: Item, c: Item)
    ensures Lists.MoveTo([a, b, c], 0, 2) == [b, c, a]
  {
    var xs := [a, b, c];
    var rest := Lists.RemoveIndex(xs, 0);
    assert rest[0] == xs[1] && rest[1] == xs[2];
    var r := Lists.InsertAt(rest, 2, a);
    assert r[0] == b && r[1] == c && r[2] == a;
    assert r == [b, c, a];
  }
}
