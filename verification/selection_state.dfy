/**
 * The selection accessors handed to item callbacks: a provider is tied to
 * one position of the list and either answers from a selectable source or,
 * for a plain source, answers false to everything. A closed provider is
 * disposed of.
 */
module SelectionState {
  import opened Common
  import opened DataSource
  import opened Selectable

  /** The five selection calls a provider offers. */
  datatype Query = IsSelectedQuery | SelectQuery | DeselectQuery | ToggleQuery | HasSelectionQuery

  // ---------------------------------------------------------------------
  // The provider for a plain source
  // ---------------------------------------------------------------------

  /** A provider over a plain source; `source` is None once closed. */
  datatype NoSelection = NoSelection(source: Option<Source>, index: int)

  /** `item`: the item at the captured position, until the provider is closed. */
  function NoSelectionItem(p: NoSelection): (r: Result<Item>)
    ensures p.source.None? ==> r == Err(IllegalState("Already disposed"))
    ensures p.source.Some? ==>
      && (r.Ok? <==> 0 <= p.index < |p.source.value.items|)
      && (r.Ok? ==> r.value == p.source.value.items[p.index])
      && (r.Err? ==> r.error == IndexOutOfBounds(p.index, |p.source.value.items|))
  {
    match p.source
    case None => Err(IllegalState("Already disposed"))
    case Some(s) => Get(s, p.index)
  }

  /** Every selection call answers false, whether or not the provider is closed. */
  function NoSelectionAsk(p: NoSelection, q: Query): (b: bool)
    ensures !b
  {
    false
  }

  /** `close` drops the source. */
  function CloseNoSelection(p: NoSelection): (r: NoSelection)
    ensures r.source.None? && r.index == p.index
  {
    p.(source := None)
  }

  /** Closing twice is closing once, and a closed provider's `item` fails. */
  lemma NoSelectionCloseIdempotent(p: NoSelection)
    ensures CloseNoSelection(CloseNoSelection(p)) == CloseNoSelection(p)
    ensures NoSelectionItem(CloseNoSelection(p)) == Err(IllegalState("Already disposed"))
  {
  }

  // ---------------------------------------------------------------------
  // The provider for a selectable source
  // ---------------------------------------------------------------------

  /** A provider over a selectable source; `source` is None once closed. */
  datatype RealSelection = RealSelection(source: Option<SelSource>, index: int)

  /** The provider afterwards (its source may have changed), the reports, and the answer. */
  datatype ProviderAnswer = ProviderAnswer(provider: RealSelection, log: seq<Event>, value: bool)

  const Disposed: Error := IllegalState("Already disposed.")

  /** `item`: the item at the captured position of the live source. */
  function RealItem(p: RealSelection): (r: Result<Item>)
    ensures p.source.None? ==> r == Err(Disposed)
    ensures p.source.Some? ==>
      && (r.Ok? <==> 0 <= p.index < |Items(p.source.value)|)
      && (r.Ok? ==> r.value == Items(p.source.value)[p.index])
      && (r.Err? ==> r.error == IndexOutOfBounds(p.index, |Items(p.source.value)|))
  {
    match p.source
    case None => Err(Disposed)
    case Some(s) => Get(s.base, p.index)
  }

  /** The provider with its source replaced by the outcome of a selection call. */
  function After(p: RealSelection, a: SelAnswer): (r: ProviderAnswer)
    ensures r.provider == RealSelection(Some(a.state), p.index)
    ensures r.log == a.log && r.value == a.changed
  {
    ProviderAnswer(RealSelection(Some(a.state), p.index), a.log, a.changed)
  }

  /**
   * The selection calls: each goes to the live source at the captured
   * position, except `hasSelection`, which asks about the whole source.
   */
  function RealAsk(p: RealSelection, q: Query): (r: Result<ProviderAnswer>)
    ensures p.source.None? <==> r.Err?
    ensures r.Err? ==> r.error == Disposed
    ensures r.Ok? ==> r.value.provider.index == p.index && r.value.provider.source.Some?
    ensures r.Ok? && (q.IsSelectedQuery? || q.HasSelectionQuery?) ==>
      r.value.provider == p && r.value.log == []
    ensures r.Ok? && q.IsSelectedQuery? ==> (r.value.value <==> p.index in p.source.value.selected)
    ensures r.Ok? && q.HasSelectionQuery? ==> (r.value.value <==> p.source.value.selected != {})
    ensures r.Ok? && q.SelectQuery? ==> r.value == After(p, SelectAt(p.source.value, p.index))
    ensures r.Ok? && q.DeselectQuery? ==> r.value == After(p, DeselectAt(p.source.value, p.index))
    ensures r.Ok? && q.ToggleQuery? ==> r.value == After(p, ToggleSelectionAt(p.source.value, p.index))
  {
    match p.source
    case None => Err(Disposed)
    case Some(s) =>
      match q
      case IsSelectedQuery => Ok(ProviderAnswer(p, [], IsSelectedAt(s, p.index)))
      case HasSelectionQuery => Ok(ProviderAnswer(p, [], HasSelection(s)))
      case SelectQuery => Ok(After(p, SelectAt(s, p.index)))
      case DeselectQuery => Ok(After(p, DeselectAt(s, p.index)))
      case ToggleQuery => Ok(After(p, ToggleSelectionAt(s, p.index)))
  }

  /** `close` drops the source. */
  function CloseRealSelection(p: RealSelection): (r: RealSelection)
    ensures r.source.None? && r.index == p.index
  {
    p.(source := None)
  }

  /** After `close` every call fails with the disposal error; closing again changes nothing. */
  lemma ClosedRealSelectionFails(p: RealSelection, q: Query)
    ensures CloseRealSelection(CloseRealSelection(p)) == CloseRealSelection(p)
    ensures RealAsk(CloseRealSelection(p), q) == Err(Disposed)
    ensures RealItem(CloseRealSelection(p)) == Err(Disposed)
  {
  }

  /**
   * Selecting through a provider within range leaves its position selected,
   * and the provider then reports it as selected.
   */
  lemma SelectThenIsSelected(p: RealSelection)
    requires p.source.Some? && 0 <= p.index < |Items(p.source.value)|
    ensures var sel := RealAsk(p, SelectQuery);
      && sel.Ok?
      && (sel.value.value <==> p.index !in p.source.value.selected)
      && RealAsk(sel.value.provider, IsSelectedQuery).Ok?
      && RealAsk(sel.value.provider, IsSelectedQuery).value.value
  {
  }

  /** Toggling twice through a provider restores the source it started from. */
  lemma ToggleTwiceThroughProvider(p: RealSelection)
    requires p.source.Some?
    ensures var once := RealAsk(p, ToggleQuery);
      && once.Ok?
      && RealAsk(once.value.provider, ToggleQuery).Ok?
      && RealAsk(once.value.provider, ToggleQuery).value.provider == p
  {
    ToggleTwice(p.source.value, p.index);
  }

  /**
   * `hasSelection` does not depend on the captured position: two providers
   * over the same source give the same answer.
   */
  lemma HasSelectionIsAboutTheSource(s: SelSource, i: int, j: int)
    ensures RealAsk(RealSelection(Some(s), i), HasSelectionQuery).value.value
        == RealAsk(RealSelection(Some(s), j), HasSelectionQuery).value.value
    ensures RealAsk(RealSelection(Some(s), i), HasSelectionQuery).value.value <==> s.selected != {}
  {
  }

  // ---------------------------------------------------------------------
  // The older providers and the per-definition selection helpers
  // ---------------------------------------------------------------------

  /** The older no-op provider has no state at all. */
  datatype NoOp = NoOp

  function NoOpAsk(p: NoOp, q: Query): (b: bool)
    ensures !b
  {
    false
  }

  function CloseNoOp(p: NoOp): (r: NoOp)
    ensures r == p
  {
    p
  }

  /**
   * Closing the older no-op provider leaves it answering false to every
   * call, where a closed real provider fails every call.
   */
  lemma NoOpStaysUsableAfterClose(p: NoOp, q: Query, rp: RealSelection)
    ensures !NoOpAsk(CloseNoOp(p), q)
    ensures CloseNoOp(CloseNoOp(p)) == CloseNoOp(p)
    ensures RealAsk(CloseRealSelection(rp), q).Err?
  {
  }

  /**
   * What the per-definition helpers find behind the setup: no source, a
   * source that is not selectable, or a selectable one.
   */
  datatype CurrentSource = NoSource | PlainSource(plain: Source) | SelectableSource(selectable: SelSource)

  /**
   * The per-definition helpers `isSelectedAt`, `selectAt`, `deselectAt`,
   * `toggleSelectionAt` and `hasSelection`: they look the source up again on
   * each call and answer false unless it is selectable.
   */
  function DefinitionAsk(current: CurrentSource, index: int, q: Query): (r: (CurrentSource, bool))
    ensures !current.SelectableSource? ==> r == (current, false)
    ensures current.SelectableSource? ==>
      var p := RealSelection(Some(current.selectable), index);
      var a := RealAsk(p, q).value;
      r.0 == SelectableSource(a.provider.source.value) && r.1 == a.value
  {
    match current
    case SelectableSource(s) =>
      var a := RealAsk(RealSelection(Some(s), index), q).value;
      (SelectableSource(a.provider.source.value), a.value)
    case _ => (current, false)
  }

  /** Without a selectable source the helpers never change anything and answer false. */
  lemma DefinitionHelpersFallBack(current: CurrentSource, index: int, q: Query)
    requires !current.SelectableSource?
    ensures !DefinitionAsk(current, index, q).1
    ensures DefinitionAsk(current, index, q).0 == current
  {
  }
}
