/**
 * The older data source class: the same list edits, but it talks to the
 * widget adapter directly, updates the empty view itself, and fails with
 * "Not attached" when it has no adapter, after the list was already edited.
 */
module LegacySource {
  import opened Common
  import Lists
  import DataSource

  /**
   * The older source: its items, whether an adapter is attached, and
   * whether the finished setup gave it an empty view.
   */
  datatype LegacySource = LegacySource(items: seq<Item>, attached: bool, hasEmptyView: bool)

  /** The source after an edit, the effects in order, and the exception raised, if any. */
  datatype LegacyStep = LegacyStep(source: LegacySource, log: seq<Event>, thrown: Option<Error>)

  const NotAttached: Error := IllegalState("Not attached")

  /** A source over `items` with no adapter and no empty view. */
  function LegacySourceOf(items: seq<Item>): (s: LegacySource)
    ensures s.items == items && !s.attached && !s.hasEmptyView
  {
    LegacySource(items, false, false)
  }

  /** `attachAdapter`. */
  function AttachAdapter(s: LegacySource): (r: LegacySource)
    ensures r.attached && r.items == s.items && r.hasEmptyView == s.hasEmptyView
  {
    s.(attached := true)
  }

  /** `finishSetup`: the setup's empty view is taken over. */
  function FinishSetup(s: LegacySource, hasEmptyView: bool): (r: LegacySource)
    ensures r.hasEmptyView == hasEmptyView && r.items == s.items && r.attached == s.attached
  {
    s.(hasEmptyView := hasEmptyView)
  }

  /** `invalidateEmptyView`: shown iff the list is empty; nothing without an empty view. */
  function EmptyViewUpdate(s: LegacySource): (log: seq<Event>)
    ensures s.hasEmptyView ==> LastVisibility(log) == Some(VisibilityFor(|s.items| == 0))
    ensures !s.hasEmptyView ==> log == []
    ensures AdapterEvents(log) == []
  {
    var log := if s.hasEmptyView then [EmptyViewSet(VisibilityFor(|s.items| == 0))] else [];
    LastVisibilityAppend([], log);
    log
  }

  /**
   * The common tail of every notifying edit, run on the already edited
   * source: without an adapter it fails; otherwise the adapter receives
   * `block` and, for the edits that do so, the empty view is updated.
   */
  function Finish(s: LegacySource, block: seq<Event>, updatesView: bool): (r: LegacyStep)
    requires forall i :: 0 <= i < |block| ==> IsAdapterEvent(block[i])
    ensures r.source == s
    ensures !s.attached ==> r.log == [] && r.thrown == Some(NotAttached)
    ensures s.attached ==>
      && r.thrown.None?
      && AdapterEvents(r.log) == block
      && LastVisibility(r.log) == (if updatesView && s.hasEmptyView then Some(VisibilityFor(|s.items| == 0)) else None)
  {
    if !s.attached then LegacyStep(s, [], Some(NotAttached))
    else
      var view := if updatesView then EmptyViewUpdate(s) else [];
      AdapterEventsAppend(block, view);
      AdapterEventsOfAdapterLog(block);
      LastVisibilityAppend(block, view);
      AdapterLogIsQuiet(block);
      LegacyStep(s, block + view, None)
  }

  /** `get(index)`. */
  function Get(s: LegacySource, index: int): (r: Result<Item>)
    ensures r.Ok? <==> 0 <= index < |s.items|
    ensures r.Ok? ==> r.value == s.items[index]
    ensures r.Err? ==> r.error == IndexOutOfBounds(index, |s.items|)
  {
    if 0 <= index < |s.items| then Ok(s.items[index]) else Err(IndexOutOfBounds(index, |s.items|))
  }

  /** `size()`: the number of items, which is the range of positions `get` accepts. */
  function Size(s: LegacySource): (n: nat)
    ensures n == |s.items|
    ensures forall i :: Get(s, i).Ok? <==> 0 <= i < n
  {
    |s.items|
  }

  /** `isEmpty()`: no position can be read. */
  function IsEmpty(s: LegacySource): (b: bool)
    ensures b <==> s.items == []
    ensures b <==> Get(s, 0).Err?
  {
    Size(s) == 0
  }

  /** `isNotEmpty()`: the first item can be read. */
  function IsNotEmpty(s: LegacySource): (b: bool)
    ensures b <==> |s.items| > 0
    ensures b ==> Get(s, 0) == Ok(s.items[0])
    ensures b != IsEmpty(s)
  {
    Size(s) != 0
  }

  /** `plusAssign(item)`: appended, then an insert at the new last index. */
  function PlusAssign(s: LegacySource, x: Item): (r: LegacyStep)
    ensures r.source.items == s.items + [x]
    ensures r == Finish(r.source, [ItemInserted(|s.items|)], true)
  {
    var t := s.(items := s.items + [x]);
    Finish(t, [ItemInserted(|t.items| - 1)], true)
  }

  /**
   * `set(newItems, areTheSame, areContentsTheSame)`: the contents become
   * `newItems`. With a non-empty old list and both comparers the diff is
   * dispatched to the adapter if there is one, and nothing can fail;
   * otherwise it is one full invalidate that needs the adapter.
   */
  function Set(s: LegacySource, newItems: seq<Item>, hasAreTheSame: bool, hasAreContentsTheSame: bool): (r: LegacyStep)
    ensures r.source.items == newItems
    ensures |s.items| > 0 && hasAreTheSame && hasAreContentsTheSame ==>
      && r.thrown.None?
      && AdapterEvents(r.log) == (if s.attached then [DiffDispatched] else [])
      && (s.hasEmptyView ==> LastVisibility(r.log) == Some(VisibilityFor(|newItems| == 0)))
    ensures !(|s.items| > 0 && hasAreTheSame && hasAreContentsTheSame) ==>
      r == Finish(r.source, [DataSetChanged], true)
  {
    var t := s.(items := newItems);
    if |s.items| > 0 && hasAreTheSame && hasAreContentsTheSame then DiffPath(t)
    else Finish(t, [DataSetChanged], true)
  }

  /**
   * The diff path of `set`, on the already edited source: the diff goes to
   * the adapter when there is one, then the empty view is updated.
   */
  function DiffPath(t: LegacySource): (r: LegacyStep)
    ensures r.source == t && r.thrown.None?
    ensures AdapterEvents(r.log) == (if t.attached then [DiffDispatched] else [])
    ensures t.hasEmptyView ==> LastVisibility(r.log) == Some(VisibilityFor(|t.items| == 0))
  {
    var diff := if t.attached then [DiffDispatched] else [];
    var view := EmptyViewUpdate(t);
    AdapterEventsAppend(diff, view);
    AdapterEventsOfAdapterLog(diff);
    LastVisibilityAppend(diff, view);
    LegacyStep(t, diff + view, None)
  }

  /** `insert(index, item)`: the list's range check, the insert, then the report. */
  function Insert(s: LegacySource, index: int, x: Item): (r: LegacyStep)
    ensures !(0 <= index <= |s.items|) ==> r == LegacyStep(s, [], Some(IndexOutOfBounds(index, |s.items|)))
    ensures 0 <= index <= |s.items| ==>
      && r.source.items == Lists.InsertAt(s.items, index, x)
      && r == Finish(r.source, [ItemInserted(index)], true)
  {
    if index < 0 || index > |s.items| then LegacyStep(s, [], Some(IndexOutOfBounds(index, |s.items|)))
    else Finish(s.(items := Lists.InsertAt(s.items, index, x)), [ItemInserted(index)], true)
  }

  /** `removeAt(index)`. */
  function RemoveAt(s: LegacySource, index: int): (r: LegacyStep)
    ensures !(0 <= index < |s.items|) ==> r == LegacyStep(s, [], Some(IndexOutOfBounds(index, |s.items|)))
    ensures 0 <= index < |s.items| ==>
      && r.source.items == Lists.RemoveIndex(s.items, index)
      && r == Finish(r.source, [ItemRemoved(index)], true)
  {
    if index < 0 || index >= |s.items| then LegacyStep(s, [], Some(IndexOutOfBounds(index, |s.items|)))
    else Finish(s.(items := Lists.RemoveIndex(s.items, index)), [ItemRemoved(index)], true)
  }

  /** `remove(item)`: the first equal item goes; an absent item changes nothing and reports nothing. */
  function Remove(s: LegacySource, x: Item): (r: LegacyStep)
    ensures x !in s.items ==> r == LegacyStep(s, [], None)
    ensures x in s.items ==>
      exists k :: 0 <= k < |s.items| && s.items[k] == x && x !in s.items[..k] && r == RemoveAt(s, k)
    ensures multiset(r.source.items) == multiset(s.items) - multiset{x}
  {
    var k := DataSource.IndexOf(DataSource.DataSourceOf(s.items), x);
    if k == -1 then LegacyStep(s, [], None)
    else
      Lists.RemoveIndexCount(s.items, k);
      RemoveAt(s, k)
  }

  /**
   * `swap(left, right)`: both reads happen before any write, so a bad index
   * changes nothing; the two changes are reported and the empty view is not
   * touched.
   */
  function Swap(s: LegacySource, left: int, right: int): (r: LegacyStep)
    ensures !(0 <= left < |s.items|) ==> r == LegacyStep(s, [], Some(IndexOutOfBounds(left, |s.items|)))
    ensures 0 <= left < |s.items| && !(0 <= right < |s.items|) ==>
      r == LegacyStep(s, [], Some(IndexOutOfBounds(right, |s.items|)))
    ensures 0 <= left < |s.items| && 0 <= right < |s.items| ==>
      && r.source.items == Lists.SwapAt(s.items, left, right)
      && r == Finish(r.source, [ItemChanged(left), ItemChanged(right)], false)
  {
    if left < 0 || left >= |s.items| then LegacyStep(s, [], Some(IndexOutOfBounds(left, |s.items|)))
    else if right < 0 || right >= |s.items| then LegacyStep(s, [], Some(IndexOutOfBounds(right, |s.items|)))
    else Finish(s.(items := Lists.SwapAt(s.items, left, right)), [ItemChanged(left), ItemChanged(right)], false)
  }

  /**
   * `move(from, to)`: read, remove, re-insert; a bad `to` is found after the
   * removal and loses the item. The empty view is not touched.
   */
  function Move(s: LegacySource, from: int, to: int): (r: LegacyStep)
    ensures !(0 <= from < |s.items|) ==> r == LegacyStep(s, [], Some(IndexOutOfBounds(from, |s.items|)))
    ensures 0 <= from < |s.items| && !(0 <= to < |s.items|) ==>
      r == LegacyStep(s.(items := Lists.RemoveIndex(s.items, from)), [], Some(IndexOutOfBounds(to, |s.items| - 1)))
    ensures 0 <= from < |s.items| && 0 <= to < |s.items| ==>
      && r.source.items == Lists.MoveTo(s.items, from, to)
      && r == Finish(r.source, [ItemMoved(from, to)], false)
  {
    if from < 0 || from >= |s.items| then LegacyStep(s, [], Some(IndexOutOfBounds(from, |s.items|)))
    else
      var rest := Lists.RemoveIndex(s.items, from);
      if to < 0 || to > |rest| then LegacyStep(s.(items := rest), [], Some(IndexOutOfBounds(to, |rest|)))
      else Finish(s.(items := Lists.InsertAt(rest, to, s.items[from])), [ItemMoved(from, to)], false)
  }

  /** `clear()`. */
  function Clear(s: LegacySource): (r: LegacyStep)
    ensures r.source.items == []
    ensures r == Finish(r.source, [DataSetChanged], true)
  {
    Finish(s.(items := []), [DataSetChanged], true)
  }

  // ---------------------------------------------------------------------
  // Properties
  // ---------------------------------------------------------------------

  /** The edits of the older source. */
  datatype LegacyOp =
    | PlusAssignOp(x: Item)
    | SetOp(newItems: seq<Item>, hasAreTheSame: bool, hasAreContentsTheSame: bool)
    | InsertOp(index: int, x: Item)
    | RemoveAtOp(index: int)
    | RemoveOp(x: Item)
    | SwapOp(left: int, right: int)
    | MoveOp(from: int, to: int)
    | ClearOp

  function Apply(s: LegacySource, op: LegacyOp): (r: LegacyStep)
    ensures r.source.attached == s.attached && r.source.hasEmptyView == s.hasEmptyView
    ensures s.attached ==> r.thrown != Some(NotAttached)
  {
    match op
    case PlusAssignOp(x) => PlusAssign(s, x)
    case SetOp(n, a, c) => Set(s, n, a, c)
    case InsertOp(i, x) => Insert(s, i, x)
    case RemoveAtOp(i) => RemoveAt(s, i)
    case RemoveOp(x) => Remove(s, x)
    case SwapOp(l, r) => Swap(s, l, r)
    case MoveOp(f, t) => Move(s, f, t)
    case ClearOp => Clear(s)
  }

  /** Without an adapter an edit still changes the list exactly as it would with one. */
  lemma UnattachedEditsStillChangeTheList(s: LegacySource, op: LegacyOp)
    ensures Apply(s.(attached := false), op).source.items == Apply(s.(attached := true), op).source.items
  {
  }

  /**
   * Without an adapter an edit that would have succeeded and reported
   * something to the adapter fails with "Not attached", unless it took the
   * diff path of `set`.
   */
  lemma UnattachedEditsFail(s: LegacySource, op: LegacyOp)
    ensures var with := Apply(s.(attached := true), op);
      with.thrown.None? && with.log != [] && AdapterEvents(with.log) != [DiffDispatched] ==>
        Apply(s.(attached := false), op).thrown == Some(NotAttached)
  {
  }

  /**
   * The edits that update the empty view leave it visible iff the list is
   * empty; `swap` and `move` leave it alone.
   */
  lemma EmptyViewAfterEdits(s: LegacySource, op: LegacyOp)
    requires s.attached && s.hasEmptyView
    ensures var r := Apply(s, op);
      r.thrown.None? && r.log != [] ==>
        if op.SwapOp? || op.MoveOp? then LastVisibility(r.log) == None
        else LastVisibility(r.log) == Some(VisibilityFor(|r.source.items| == 0))
  {
  }

  /**
   * The same items afterwards and the same exception: on an attached
   * source each edit of the older class below agrees with the current
   * source's edit of the same name (`plusAssign` with `add` of one item).
   */
  predicate Agree(prior: LegacyStep, cur: DataSource.Step) {
    prior.source.items == cur.source.items && prior.thrown == cur.thrown
  }

  lemma AgreeOnPlusAssign(s: LegacySource, c: DataSource.Source, x: Item)
    requires s.attached && s.items == c.items
    ensures Agree(PlusAssign(s, x), DataSource.Add(c, [x]))
  {
  }

  lemma AgreeOnSet(s: LegacySource, c: DataSource.Source, n: seq<Item>, a: bool, b: bool)
    requires s.attached && s.items == c.items
    ensures Agree(Set(s, n, a, b), DataSource.Set(c, n, a, b))
  {
  }

  lemma AgreeOnInsert(s: LegacySource, c: DataSource.Source, i: int, x: Item)
    requires s.attached && s.items == c.items
    ensures Agree(Insert(s, i, x), DataSource.Insert(c, i, x))
  {
  }

  lemma AgreeOnRemoveAt(s: LegacySource, c: DataSource.Source, i: int)
    requires s.attached && s.items == c.items
    ensures Agree(RemoveAt(s, i), DataSource.RemoveAt(c, i))
  {
  }

  lemma AgreeOnRemove(s: LegacySource, c: DataSource.Source, x: Item)
    requires s.attached && s.items == c.items
    ensures Agree(Remove(s, x), DataSource.Remove(c, x))
  {
  }

  lemma AgreeOnSwap(s: LegacySource, c: DataSource.Source, l: int, r: int)
    requires s.attached && s.items == c.items
    ensures Agree(Swap(s, l, r), DataSource.Swap(c, l, r))
  {
  }

  lemma AgreeOnMove(s: LegacySource, c: DataSource.Source, f: int, t: int)
    requires s.attached && s.items == c.items
    ensures Agree(Move(s, f, t), DataSource.Move(c, f, t))
  {
  }

  lemma AgreeOnClear(s: LegacySource, c: DataSource.Source)
    requires s.attached && s.items == c.items
    ensures Agree(Clear(s), DataSource.Clear(c))
  {
  }
}
