/**
 * The list of items behind a list widget: an ordered sequence with
 * mutators. Each mutator reports what changed to the attached handle (which
 * forwards it to the adapter and refreshes the empty view) and then to each
 * registered change listener.
 */
module DataSource {
  import opened Common
  import opened Handle
  import Lists

  /**
   * A data source: its items, the handle it is attached to (first attach
   * wins) and its change listeners in registration order.
   */
  datatype Source = Source(items: seq<Item>, handle: Option<Handle>, listeners: seq<nat>)

  /**
   * The outcome of a mutator: the new state, what it reported, and the
   * exception it raised, if any (the state is whatever the mutator had done
   * before raising it).
   */
  datatype Step = Step(source: Source, log: seq<Event>, thrown: Option<Error>)

  predicate AdapterOnly(block: seq<Event>) {
    forall i :: 0 <= i < |block| ==> IsAdapterEvent(block[i])
  }

  /**
   * What a report of `block` by source `s` amounts to: the adapter receives
   * exactly `block` when attached and nothing otherwise, every listener is
   * called once in registration order, and the empty view (if any) ends up
   * visible iff the source is empty.
   */
  predicate Reports(s: Source, log: seq<Event>, block: seq<Event>) {
    && AdapterEvents(log) == (if s.handle.Some? then block else [])
    && ListenerCalls(log) == s.listeners
    && LastVisibility(log) ==
         (if s.handle.Some? && s.handle.value.hasEmptyView then Some(VisibilityFor(|s.items| == 0)) else None)
  }

  /** One listener call per listener, in order. */
  function ListenerLog(listeners: seq<nat>): (log: seq<Event>)
    ensures |log| == |listeners|
    ensures forall i :: 0 <= i < |log| ==> log[i] == ListenerNotified(listeners[i])
    ensures ListenerCalls(log) == listeners
    ensures AdapterEvents(log) == []
    ensures LastVisibility(log) == None
    ensures CallbackCount(log) == 0
    decreases |listeners|
  {
    if |listeners| == 0 then []
    else
      var n := |listeners| - 1;
      var front := ListenerLog(listeners[..n]);
      var call := [ListenerNotified(listeners[n])];
      ListenerCallsAppend(front, call);
      AdapterEventsAppend(front, call);
      LastVisibilityAppend(front, call);
      CallbackCountAppend(front, call);
      assert listeners[..n] + [listeners[n]] == listeners;
      front + call
  }

  /**
   * `invalidateList`: the handle first (adapter block, then empty view), then
   * the listeners. Listener calls always come last.
   */
  function Notify(s: Source, block: seq<Event>): (log: seq<Event>)
    requires AdapterOnly(block)
    ensures Reports(s, log, block)
    ensures CallbackCount(log) == 0
    ensures s.handle.None? && s.listeners == [] ==> log == []
  {
    var fromHandle := if s.handle.Some? then InvalidateList(s.handle.value, block, |s.items| == 0) else [];
    var calls := ListenerLog(s.listeners);
    AdapterEventsAppend(fromHandle, calls);
    ListenerCallsAppend(fromHandle, calls);
    LastVisibilityAppend(fromHandle, calls);
    CallbackCountAppend(fromHandle, calls);
    fromHandle + calls
  }

  /**
   * The handle hears of a change before any listener does: a report is the
   * handle's part followed by one call per listener.
   */
  lemma HandleBeforeListeners(s: Source, block: seq<Event>)
    requires AdapterOnly(block)
    ensures var log := Notify(s, block);
      && |log| >= |s.listeners|
      && (forall i :: |log| - |s.listeners| <= i < |log| ==> log[i].ListenerNotified?)
      && (forall i :: 0 <= i < |log| - |s.listeners| ==> !log[i].ListenerNotified?)
  {
    var fromHandle := if s.handle.Some? then InvalidateList(s.handle.value, block, |s.items| == 0) else [];
    var calls := ListenerLog(s.listeners);
    assert Notify(s, block) == fromHandle + calls;
    NoListenerCallsInHandleLog(s, block, fromHandle);
    ListenerCallsLast(fromHandle, s.listeners);
  }

  /** A log without listener calls followed by the listener calls ends in exactly those calls. */
  lemma ListenerCallsLast(front: seq<Event>, listeners: seq<nat>)
    requires forall i :: 0 <= i < |front| ==> !front[i].ListenerNotified?
    ensures var log := front + ListenerLog(listeners);
      && |log| >= |listeners|
      && (forall i :: |log| - |listeners| <= i < |log| ==> log[i].ListenerNotified?)
      && (forall i :: 0 <= i < |log| - |listeners| ==> !log[i].ListenerNotified?)
  {
    var calls := ListenerLog(listeners);
    var log := front + calls;
    forall i | |log| - |listeners| <= i < |log|
      ensures log[i].ListenerNotified?
    {
      assert log[i] == calls[i - |front|];
    }
    forall i | 0 <= i < |log| - |listeners|
      ensures !log[i].ListenerNotified?
    {
      assert log[i] == front[i];
    }
  }

  /** The handle's part of a report holds no listener call. */
  lemma NoListenerCallsInHandleLog(s: Source, block: seq<Event>, fromHandle: seq<Event>)
    requires AdapterOnly(block)
    requires fromHandle == if s.handle.Some? then InvalidateList(s.handle.value, block, |s.items| == 0) else []
    ensures forall i :: 0 <= i < |fromHandle| ==> !fromHandle[i].ListenerNotified?
  {
    if s.handle.Some? {
      var view := ShowOrHideEmptyView(s.handle.value, |s.items| == 0);
      assert fromHandle == block + view;
      forall i | 0 <= i < |fromHandle|
        ensures !fromHandle[i].ListenerNotified?
      {
        if i < |block| {
          assert fromHandle[i] == block[i];
        } else {
          assert fromHandle[i] == view[i - |block|];
        }
      }
    }
  }

  // ---------------------------------------------------------------------
  // Construction, attach and detach
  // ---------------------------------------------------------------------

  /** `dataSourceOf(items)`: a detached source holding a copy of `items`. */
  function DataSourceOf(items: seq<Item>): (s: Source)
    ensures s.items == items
    ensures s.handle.None? && s.listeners == []
  {
    Source(items, None, [])
  }

  /** `emptyDataSource()`. */
  function EmptyDataSource(): (s: Source)
    ensures Size(s) == 0 && IsEmpty(s)
    ensures s.handle.None? && s.listeners == []
  {
    DataSourceOf([])
  }

  /**
   * `attach`: only the first handle is kept; it triggers one full
   * invalidate. Attaching an attached source does nothing.
   */
  function Attach(s: Source, h: Handle): (r: Step)
    ensures r.thrown.None? && r.source.items == s.items && r.source.listeners == s.listeners
    ensures s.handle.Some? ==> r.source == s && r.log == []
    ensures s.handle.None? ==> r.source.handle == Some(h) && Reports(r.source, r.log, [DataSetChanged])
    ensures CallbackCount(r.log) == 0
  {
    if s.handle.Some? then Step(s, [], None)
    else
      var attached := s.(handle := Some(h));
      Step(attached, Notify(attached, [DataSetChanged]), None)
  }

  /** `detach`: forget the handle and every listener; the items stay. */
  function Detach(s: Source): (r: Source)
    ensures r.items == s.items
    ensures r.handle.None? && r.listeners == []
  {
    Source(s.items, None, [])
  }

  /** `addChangedListener`: the listener is called after every later change. */
  function AddChangedListener(s: Source, listener: nat): (r: Source)
    ensures r.items == s.items && r.handle == s.handle
    ensures r.listeners == s.listeners + [listener]
  {
    s.(listeners := s.listeners + [listener])
  }

  // ---------------------------------------------------------------------
  // Mutators
  // ---------------------------------------------------------------------

  /** `add(vararg)` / `addAll`: append in order and report one range insert at the old end. */
  function Add(s: Source, xs: seq<Item>): (r: Step)
    ensures r.thrown.None?
    ensures r.source.items == s.items + xs
    ensures r.source.handle == s.handle && r.source.listeners == s.listeners
    ensures CallbackCount(r.log) == 0
    ensures Reports(r.source, r.log, [ItemRangeInserted(|s.items|, |xs|)])
  {
    var t := s.(items := s.items + xs);
    Step(t, Notify(t, [ItemRangeInserted(|s.items|, |xs|)]), None)
  }

  /**
   * `set`: the contents become `newItems`. A non-empty source given both
   * comparers dispatches a computed diff; otherwise one full invalidate.
   */
  function Set(s: Source, newItems: seq<Item>, hasAreTheSame: bool, hasAreContentsTheSame: bool): (r: Step)
    ensures r.thrown.None?
    ensures r.source.items == newItems
    ensures r.source.handle == s.handle && r.source.listeners == s.listeners
    ensures CallbackCount(r.log) == 0
    ensures |s.items| > 0 && hasAreTheSame && hasAreContentsTheSame ==> Reports(r.source, r.log, [DiffDispatched])
    ensures !(|s.items| > 0 && hasAreTheSame && hasAreContentsTheSame) ==> Reports(r.source, r.log, [DataSetChanged])
  {
    var t := s.(items := newItems);
    if |s.items| > 0 && hasAreTheSame && hasAreContentsTheSame then
      Step(t, Notify(t, [DiffDispatched]), None)
    else
      Step(t, Notify(t, [DataSetChanged]), None)
  }

  /** `insert(index, item)`: the list's range check first, then the insert. */
  function Insert(s: Source, index: int, x: Item): (r: Step)
    ensures r.thrown.None? <==> 0 <= index <= |s.items|
    ensures r.thrown.Some? ==> r.source == s && r.log == [] && r.thrown == Some(IndexOutOfBounds(index, |s.items|))
    ensures r.thrown.None? ==>
      && r.source.items == Lists.InsertAt(s.items, index, x)
      && Reports(r.source, r.log, [ItemInserted(index)])
    ensures r.source.handle == s.handle && r.source.listeners == s.listeners
    ensures CallbackCount(r.log) == 0
  {
    if index < 0 || index > |s.items| then Step(s, [], Some(IndexOutOfBounds(index, |s.items|)))
    else
      var t := s.(items := Lists.InsertAt(s.items, index, x));
      Step(t, Notify(t, [ItemInserted(index)]), None)
  }

  /** `removeAt(index)`: exactly position `index` goes. */
  function RemoveAt(s: Source, index: int): (r: Step)
    ensures r.thrown.None? <==> 0 <= index < |s.items|
    ensures r.thrown.Some? ==> r.source == s && r.log == [] && r.thrown == Some(IndexOutOfBounds(index, |s.items|))
    ensures r.thrown.None? ==>
      && r.source.items == Lists.RemoveIndex(s.items, index)
      && Reports(r.source, r.log, [ItemRemoved(index)])
    ensures r.source.handle == s.handle && r.source.listeners == s.listeners
    ensures CallbackCount(r.log) == 0
  {
    if index < 0 || index >= |s.items| then Step(s, [], Some(IndexOutOfBounds(index, |s.items|)))
    else
      var t := s.(items := Lists.RemoveIndex(s.items, index));
      Step(t, Notify(t, [ItemRemoved(index)]), None)
  }

  /** `remove(item)`: the first equal item goes; an absent item changes and reports nothing. */
  function Remove(s: Source, x: Item): (r: Step)
    ensures r.thrown.None?
    ensures x !in s.items ==> r == Step(s, [], None)
    ensures x in s.items ==>
      var k := IndexOf(s, x);
      && 0 <= k < |s.items| && s.items[k] == x && x !in s.items[..k]
      && r.source.items == Lists.RemoveIndex(s.items, k)
      && Reports(r.source, r.log, [ItemRemoved(k)])
    ensures multiset(r.source.items) == multiset(s.items) - multiset{x}
    ensures CallbackCount(r.log) == 0
  {
    var index := IndexOf(s, x);
    if index == -1 then Step(s, [], None)
    else
      Lists.RemoveIndexCount(s.items, index);
      RemoveAt(s, index)
  }

  /**
   * `swap(left, right)`: the two items change places and both positions are
   * reported as changed; the left index is range-checked first.
   */
  function Swap(s: Source, left: int, right: int): (r: Step)
    ensures r.thrown.None? <==> 0 <= left < |s.items| && 0 <= right < |s.items|
    ensures !(0 <= left < |s.items|) ==> r == Step(s, [], Some(IndexOutOfBounds(left, |s.items|)))
    ensures 0 <= left < |s.items| && !(0 <= right < |s.items|) ==>
      r == Step(s, [], Some(IndexOutOfBounds(right, |s.items|)))
    ensures r.thrown.None? ==>
      && r.source.items == Lists.SwapAt(s.items, left, right)
      && Reports(r.source, r.log, [ItemChanged(left), ItemChanged(right)])
    ensures r.source.handle == s.handle && r.source.listeners == s.listeners
    ensures CallbackCount(r.log) == 0
  {
    if left < 0 || left >= |s.items| then Step(s, [], Some(IndexOutOfBounds(left, |s.items|)))
    else if right < 0 || right >= |s.items| then Step(s, [], Some(IndexOutOfBounds(right, |s.items|)))
    else
      var t := s.(items := Lists.SwapAt(s.items, left, right));
      Step(t, Notify(t, [ItemChanged(left), ItemChanged(right)]), None)
  }

  /**
   * `move(from, to)`: take the item out, then put it back at `to`. A bad
   * `from` changes nothing; a bad `to` is only found after the item was
   * taken out, so the item is lost and nothing is reported.
   */
  function Move(s: Source, from: int, to: int): (r: Step)
    ensures r.thrown.None? <==> 0 <= from < |s.items| && 0 <= to < |s.items|
    ensures !(0 <= from < |s.items|) ==> r == Step(s, [], Some(IndexOutOfBounds(from, |s.items|)))
    ensures 0 <= from < |s.items| && !(0 <= to < |s.items|) ==>
      && r.source.items == Lists.RemoveIndex(s.items, from)
      && r.log == [] && r.thrown == Some(IndexOutOfBounds(to, |s.items| - 1))
    ensures r.thrown.None? ==>
      && r.source.items == Lists.MoveTo(s.items, from, to)
      && Reports(r.source, r.log, [ItemMoved(from, to)])
    ensures r.source.handle == s.handle && r.source.listeners == s.listeners
    ensures CallbackCount(r.log) == 0
  {
    if from < 0 || from >= |s.items| then Step(s, [], Some(IndexOutOfBounds(from, |s.items|)))
    else
      var rest := Lists.RemoveIndex(s.items, from);
      if to < 0 || to > |rest| then Step(s.(items := rest), [], Some(IndexOutOfBounds(to, |rest|)))
      else
        var t := s.(items := Lists.InsertAt(rest, to, s.items[from]));
        Step(t, Notify(t, [ItemMoved(from, to)]), None)
  }

  /** `clear`: no items left, one full invalidate. */
  function Clear(s: Source): (r: Step)
    ensures r.thrown.None?
    ensures r.source.items == []
    ensures r.source.handle == s.handle && r.source.listeners == s.listeners
    ensures CallbackCount(r.log) == 0
    ensures Reports(r.source, r.log, [DataSetChanged])
  {
    var t := s.(items := []);
    Step(t, Notify(t, [DataSetChanged]), None)
  }

  /** `invalidateAt(index)`: report one changed position; no range check. */
  function InvalidateAt(s: Source, index: int): (log: seq<Event>)
    ensures Reports(s, log, [ItemChanged(index)])
    ensures CallbackCount(log) == 0
  {
    Notify(s, [ItemChanged(index)])
  }

  /** `invalidateAll`: report a full change. */
  function InvalidateAll(s: Source): (log: seq<Event>)
    ensures Reports(s, log, [DataSetChanged])
    ensures CallbackCount(log) == 0
  {
    Notify(s, [DataSetChanged])
  }

  /** `plusAssign`: the default delegates to `add` with the single item. */
  function PlusAssign(s: Source, x: Item): (r: Step)
    ensures r.thrown.None?
    ensures r.source.items == s.items + [x]
    ensures r.source.handle == s.handle && r.source.listeners == s.listeners
    ensures CallbackCount(r.log) == 0
    ensures Reports(r.source, r.log, [ItemRangeInserted(|s.items|, 1)])
  {
    Add(s, [x])
  }

  /** `minusAssign`: the default delegates to `remove`. */
  function MinusAssign(s: Source, x: Item): (r: Step)
    ensures r.thrown.None?
    ensures x !in s.items ==> r == Step(s, [], None)
    ensures x in s.items ==>
      var k := IndexOf(s, x);
      && 0 <= k < |s.items| && s.items[k] == x && x !in s.items[..k]
      && r.source.items == Lists.RemoveIndex(s.items, k)
      && Reports(r.source, r.log, [ItemRemoved(k)])
    ensures r.source.handle == s.handle && r.source.listeners == s.listeners
    ensures multiset(r.source.items) == multiset(s.items) - multiset{x}
    ensures CallbackCount(r.log) == 0
  {
    Remove(s, x)
  }

  // ---------------------------------------------------------------------
  // Queries
  // ---------------------------------------------------------------------

  /** `get(index)`. */
  function Get(s: Source, index: int): (r: Result<Item>)
    ensures r.Ok? <==> 0 <= index < |s.items|
    ensures r.Ok? ==> r.value == s.items[index]
    ensures r.Err? ==> r.error == IndexOutOfBounds(index, |s.items|)
  {
    if 0 <= index < |s.items| then Ok(s.items[index]) else Err(IndexOutOfBounds(index, |s.items|))
  }

  /** `size()`: the number of items, which is the range of positions `get` accepts. */
  function Size(s: Source): (n: nat)
    ensures n == |s.items|
    ensures forall i :: Get(s, i).Ok? <==> 0 <= i < n
  {
    |s.items|
  }

  /** `isEmpty()`: `size() == 0`, so no position can be read. */
  function IsEmpty(s: Source): (b: bool)
    ensures b <==> s.items == []
    ensures b <==> Get(s, 0).Err?
  {
    Size(s) == 0
  }

  /** `isNotEmpty()`: the negation of `isEmpty`; the first item can be read. */
  function IsNotEmpty(s: Source): (b: bool)
    ensures b <==> |s.items| > 0
    ensures b ==> Get(s, 0) == Ok(s.items[0])
  {
    !IsEmpty(s)
  }

  /**
   * Emptiness after the edits: `clear` always leaves the source empty,
   * adding or inserting something never does, and removing the only item
   * does.
   */
  lemma EmptinessAfterEdits(s: Source, xs: seq<Item>, index: int, x: Item)
    ensures IsEmpty(Clear(s).source)
    ensures |xs| > 0 ==> IsNotEmpty(Add(s, xs).source)
    ensures Insert(s, index, x).thrown.None? ==> IsNotEmpty(Insert(s, index, x).source)
    ensures |s.items| == 1 ==> IsEmpty(RemoveAt(s, 0).source)
  {
  }

  /** `indexOfFirst(predicate)`: the first matching index, or -1. */
  function IndexOfFirst(items: seq<Item>, p: Item -> bool): (k: int)
    ensures -1 <= k < |items|
    ensures k == -1 <==> forall i :: 0 <= i < |items| ==> !p(items[i])
    ensures k >= 0 ==> p(items[k]) && forall i :: 0 <= i < k ==> !p(items[i])
    decreases |items|
  {
    if |items| == 0 then -1
    else if p(items[0]) then 0
    else
      var k := IndexOfFirst(items[1..], p);
      if k == -1 then -1 else k + 1
  }

  /** `indexOfLast(predicate)`: the last matching index, or -1. */
  function IndexOfLast(items: seq<Item>, p: Item -> bool): (k: int)
    ensures -1 <= k < |items|
    ensures k == -1 <==> forall i :: 0 <= i < |items| ==> !p(items[i])
    ensures k >= 0 ==> p(items[k]) && forall i :: k < i < |items| ==> !p(items[i])
    decreases |items|
  {
    if |items| == 0 then -1
    else if p(items[|items| - 1]) then |items| - 1
    else IndexOfLast(items[..|items| - 1], p)
  }

  /** `indexOf(item)`: the first index holding an equal item, or -1. */
  function IndexOf(s: Source, x: Item): (k: int)
    ensures -1 <= k < |s.items|
    ensures k == -1 <==> x !in s.items
    ensures k >= 0 ==> s.items[k] == x && x !in s.items[..k]
  {
    IndexOfFirst(s.items, y => y == x)
  }

  /** `contains(item)`: whether some position holds an equal item, the one `indexOf` finds. */
  function Contains(s: Source, x: Item): (b: bool)
    ensures b <==> x in s.items
    ensures b ==> Get(s, IndexOf(s, x)) == Ok(x)
  {
    IndexOf(s, x) != -1
  }

  /** `toList()`: a copy of the items, position by position what `get` returns. */
  function ToList(s: Source): (r: seq<Item>)
    ensures |r| == Size(s)
    ensures forall i :: 0 <= i < |r| ==> Get(s, i) == Ok(r[i])
  {
    s.items
  }

  /** `forEachOf<T>`: the items of runtime class `className`, in list order. */
  function ItemsOf(items: seq<Item>, className: string): (r: seq<Item>)
    ensures |r| <= |items|
    ensures forall i :: 0 <= i < |r| ==> ClassName(r[i]) == className
    decreases |items|
  {
    if |items| == 0 then []
    else
      var last := items[|items| - 1];
      ItemsOf(items[..|items| - 1], className) + (if ClassName(last) == className then [last] else [])
  }

  /** `forEachOf` over a data source. */
  function ForEachOf(s: Source, className: string): (r: seq<Item>)
    ensures forall x :: x in r <==> x in s.items && ClassName(x) == className
  {
    ItemsOfMembers(s.items, className);
    ItemsOf(s.items, className)
  }

  /** `forEachOf` visits an item iff it is in the list and of the class. */
  lemma {:induction false} ItemsOfMembers(items: seq<Item>, className: string)
    ensures forall x :: x in ItemsOf(items, className) <==> x in items && ClassName(x) == className
    decreases |items|
  {
    if |items| > 0 {
      var front := items[..|items| - 1];
      ItemsOfMembers(front, className);
      assert items == front + [items[|items| - 1]];
    }
  }

  /** `forEachOf` keeps list order: it distributes over concatenation. */
  lemma {:induction false} ItemsOfAppend(a: seq<Item>, b: seq<Item>, className: string)
    ensures ItemsOf(a + b, className) == ItemsOf(a, className) + ItemsOf(b, className)
    decreases |b|
  {
    if |b| == 0 {
      assert a + b == a;
    } else {
      assert (a + b)[..|a + b| - 1] == a + b[..|b| - 1];
      ItemsOfAppend(a, b[..|b| - 1], className);
    }
  }

  // ---------------------------------------------------------------------
  // Properties
  // ---------------------------------------------------------------------

  /** The first attach reports one full invalidate; a second attach is a no-op. */
  lemma AttachFirstWins(s: Source, h1: Handle, h2: Handle)
    requires s.handle.None?
    ensures var first := Attach(s, h1);
      && first.source.handle == Some(h1)
      && AdapterEvents(first.log) == [DataSetChanged]
      && Attach(first.source, h2) == Step(first.source, [], None)
  {
  }

  /**
   * A detached source still changes its items but reports nothing: no
   * adapter event, no empty-view write, no listener call.
   */
  lemma DetachedReportsNothing(s: Source, block: seq<Event>)
    requires AdapterOnly(block)
    ensures Notify(Detach(s), block) == []
  {
  }

  /** Inserting at i and then removing at i gives the items back. */
  lemma InsertThenRemoveAt(s: Source, i: int, x: Item)
    requires 0 <= i <= |s.items|
    ensures var ins := Insert(s, i, x);
      && ins.thrown.None?
      && RemoveAt(ins.source, i).thrown.None?
      && RemoveAt(ins.source, i).source.items == s.items
  {
    Lists.InsertThenRemove(s.items, i, x);
  }

  /** Removing at i and re-inserting the removed item at i gives the items back. */
  lemma RemoveAtThenInsert(s: Source, i: int)
    requires 0 <= i < |s.items|
    ensures var rem := RemoveAt(s, i);
      && rem.thrown.None?
      && Insert(rem.source, i, s.items[i]).thrown.None?
      && Insert(rem.source, i, s.items[i]).source.items == s.items
  {
    Lists.RemoveThenInsert(s.items, i);
  }

  /** Swapping the same two positions twice restores the items. */
  lemma SwapTwice(s: Source, l: int, r: int)
    requires 0 <= l < |s.items| && 0 <= r < |s.items|
    ensures Swap(Swap(s, l, r).source, l, r).source.items == s.items
  {
    Lists.SwapTwice(s.items, l, r);
  }

  /** Moving from `from` to `to` and back restores the items. */
  lemma MoveAndBack(s: Source, from: int, to: int)
    requires 0 <= from < |s.items| && 0 <= to < |s.items|
    ensures var there := Move(s, from, to);
      && there.thrown.None?
      && Move(there.source, to, from).thrown.None?
      && Move(there.source, to, from).source.items == s.items
  {
    Lists.MoveBack(s.items, from, to);
  }

  /** Every mutator of a source, as one value. */
  datatype Op =
    | AddOp(xs: seq<Item>)
    | SetOp(newItems: seq<Item>, hasAreTheSame: bool, hasAreContentsTheSame: bool)
    | InsertOp(index: int, x: Item)
    | RemoveAtOp(index: int)
    | RemoveOp(x: Item)
    | SwapOp(left: int, right: int)
    | MoveOp(from: int, to: int)
    | ClearOp

  function Apply(s: Source, op: Op): (r: Step)
    ensures r.source.handle == s.handle && r.source.listeners == s.listeners
    ensures CallbackCount(r.log) == 0
  {
    match op
    case AddOp(xs) => Add(s, xs)
    case SetOp(n, a, c) => Set(s, n, a, c)
    case InsertOp(i, x) => Insert(s, i, x)
    case RemoveAtOp(i) => RemoveAt(s, i)
    case RemoveOp(x) => Remove(s, x)
    case SwapOp(l, r) => Swap(s, l, r)
    case MoveOp(f, t) => Move(s, f, t)
    case ClearOp => Clear(s)
  }

  /**
   * The empty view is never stale: after any mutator that reported
   * something, an attached source's empty view is visible iff it is empty.
   */
  lemma EmptyViewFollowsItems(s: Source, op: Op)
    requires s.handle.Some? && s.handle.value.hasEmptyView
    ensures var r := Apply(s, op);
      r.log != [] ==> LastVisibility(r.log) == Some(VisibilityFor(|r.source.items| == 0))
  {
  }

  /**
   * Every mutator reports its change to the listeners, once each and in
   * registration order, whether or not a handle is attached.
   */
  lemma ListenersSeeEveryChange(s: Source, op: Op)
    ensures var r := Apply(s, op);
      r.log != [] ==> ListenerCalls(r.log) == s.listeners
  {
  }
}
