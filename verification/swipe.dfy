/**
 * The swipe plugin: swipe actions are registered per side, either for all
 * items or for one item class, and a swipe on a row resolves the action to
 * run and whether the row is removed or just redrawn.
 */
module Swipe {
  import opened Common
  import opened Setup
  import DataSource

  /** The name the plugin stores its data under. */
  const PluginName: string := "swipe_plugin"

  /** The platform's direction flags for a swipe to the left and to the right. */
  const LeftFlag: int := 4
  const RightFlag: int := 8

  /**
   * A set of directions as the platform's bit mask. The two flags are
   * distinct single bits, so the bitwise or of the source is their sum.
   */
  function DirectionMask(left: bool, right: bool): (d: int)
    ensures d == 0 <==> !left && !right
    ensures d == LeftFlag + RightFlag <==> left && right
    ensures d == LeftFlag <==> left && !right
    ensures d == RightFlag <==> !left && right
  {
    (if right then RightFlag else 0) + (if left then LeftFlag else 0)
  }

  /** Some key in the table is for `location`. */
  predicate AnyActionOn(actions: map<ActionKey, SwipeAction>, location: SwipeLocation) {
    exists key | key in actions :: key.location == location
  }

  /** The directions the plugin enables: a side is enabled iff some action is configured for it. */
  function SwipeDirections(actions: map<ActionKey, SwipeAction>): (d: int)
    ensures d == DirectionMask(AnyActionOn(actions, Left), AnyActionOn(actions, Right))
    ensures actions == map[] ==> d == 0
  {
    var result := if AnyActionOn(actions, Right) then RightFlag else 0;
    result + if AnyActionOn(actions, Left) then LeftFlag else 0
  }

  /** The swipe actions stored in a setup (none when the plugin has no data yet). */
  function StoredActions(s: Setup): map<ActionKey, SwipeAction> {
    if PluginName in s.plugins && s.plugins[PluginName].SwipePluginData? then s.plugins[PluginName].actions
    else map[]
  }

  /** One action stored under (location, class) for each listed location. */
  function AddActions(actions: map<ActionKey, SwipeAction>, locations: seq<SwipeLocation>,
                      forClass: Option<string>, action: SwipeAction): (r: map<ActionKey, SwipeAction>)
    ensures forall key :: key in r <==>
      key in actions || (key.itemClassName == forClass && key.location in locations)
    ensures forall key :: key in r && key.itemClassName == forClass && key.location in locations ==> r[key] == action
    ensures forall key :: key in actions && !(key.itemClassName == forClass && key.location in locations) ==>
      r[key] == actions[key]
    decreases |locations|
  {
    if |locations| == 0 then actions
    else
      var front := AddActions(actions, locations[..|locations| - 1], forClass, action);
      assert forall l :: l in locations <==> l in locations[..|locations| - 1] || l == locations[|locations| - 1];
      front[ActionKey(locations[|locations| - 1], forClass) := action]
  }

  /**
   * `withSwipeAction(locations, forItemClassName, block)`: extend the stored
   * swipe data (or start from none) with the action for each location, then
   * store it again. Another plugin's data under the swipe plugin's name
   * fails the cast to the swipe data.
   */
  function WithSwipeAction(s: Setup, locations: seq<SwipeLocation>, forClass: Option<string>,
                           action: SwipeAction): (r: Result<Setup>)
    ensures r.Err? <==> PluginName in s.plugins && s.plugins[PluginName].OtherPluginData?
    ensures r.Err? ==> r.error == ClassCast
    ensures r.Ok? ==>
      && PluginName in r.value.plugins
      && r.value.plugins[PluginName] == SwipePluginData(AddActions(StoredActions(s), locations, forClass, action))
      && (forall name :: name != PluginName ==> (name in r.value.plugins <==> name in s.plugins))
      && r.value.graph == s.graph && r.value.source == s.source
  {
    var existing := GetPluginData(s, PluginName);
    if existing.Some? && existing.value.OtherPluginData? then Err(ClassCast)
    else
      var before := if existing.Some? then existing.value.actions else map[];
      Ok(SetPluginData(s, PluginName, SwipePluginData(AddActions(before, locations, forClass, action))))
  }

  /** `withSwipeActionOn<IT>`: `withSwipeAction` with IT's class name in every key. */
  function WithSwipeActionOn(s: Setup, locations: seq<SwipeLocation>, className: string,
                             action: SwipeAction): (r: Result<Setup>)
    ensures r.Ok? ==>
      forall l :: l in locations ==>
        var key := ActionKey(l, Some(className));
        key in StoredActions(r.value) && StoredActions(r.value)[key] == action
    ensures r.Ok? ==> forall key :: key in StoredActions(r.value) && key.itemClassName.None? ==>
      key in StoredActions(s) && StoredActions(r.value)[key] == StoredActions(s)[key]
  {
    WithSwipeAction(s, locations, Some(className), action)
  }

  /**
   * Registering twice for the same key keeps only the later action, and
   * what was registered for other keys stays.
   */
  lemma LaterRegistrationReplaces(s: Setup, l: SwipeLocation, forClass: Option<string>, first: SwipeAction,
                                  second: SwipeAction, other: ActionKey)
    requires !(PluginName in s.plugins && s.plugins[PluginName].OtherPluginData?)
    requires other != ActionKey(l, forClass)
    ensures var once := WithSwipeAction(s, [l], forClass, first);
      && once.Ok?
      && var twice := WithSwipeAction(once.value, [l], forClass, second);
      && twice.Ok?
      && StoredActions(twice.value)[ActionKey(l, forClass)] == second
      && (other in StoredActions(twice.value) <==> other in StoredActions(once.value))
      && (other in StoredActions(twice.value) ==> StoredActions(twice.value)[other] == StoredActions(once.value)[other])
  {
  }

  // ---------------------------------------------------------------------
  // The touch listener
  // ---------------------------------------------------------------------

  /** The action for a side: the item class's own action first, then the global one. */
  function ResolveAction(actions: map<ActionKey, SwipeAction>, location: SwipeLocation, className: string): (r: Option<SwipeAction>)
    ensures ActionKey(location, Some(className)) in actions ==> r == Some(actions[ActionKey(location, Some(className))])
    ensures ActionKey(location, Some(className)) !in actions && ActionKey(location, None) in actions ==>
      r == Some(actions[ActionKey(location, None)])
    ensures r.None? <==> ActionKey(location, Some(className)) !in actions && ActionKey(location, None) !in actions
  {
    var forItem := ActionKey(location, Some(className));
    var global := ActionKey(location, None);
    if forItem in actions then Some(actions[forItem])
    else if global in actions then Some(actions[global])
    else None
  }

  /**
   * `sendToCallback`: what the action's callback answered, or false when
   * there is no callback. `answer` is what the user's callback returns.
   */
  function SendToCallback(action: SwipeAction, answer: bool): (b: bool)
    ensures b <==> action.hasCallback && answer
    ensures !action.hasCallback ==> !b
  {
    if action.hasCallback then answer else false
  }

  /** What a completed swipe does to the data source. */
  datatype SwipeOutcome = NoAction | RemoveRow(index: int) | RedrawRow(index: int)

  /**
   * `onSwiped(holder, direction)`: the row's item is read first; a side's
   * resolved action decides between removal (callback answered true) and a
   * redraw; no action means nothing happens; any other direction fails.
   */
  function OnSwiped(actions: map<ActionKey, SwipeAction>, s: DataSource.Source, index: int,
                    direction: int, answer: bool): (r: Result<SwipeOutcome>)
    ensures !(0 <= index < |s.items|) ==> r == Err(IndexOutOfBounds(index, |s.items|))
    ensures 0 <= index < |s.items| && direction != LeftFlag && direction != RightFlag ==>
      r == Err(IllegalState("Unknown direction: " + IntToString(direction)))
    ensures 0 <= index < |s.items| && (direction == LeftFlag || direction == RightFlag) ==>
      var action := ResolveAction(actions, if direction == LeftFlag then Left else Right, ClassName(s.items[index]));
      && r.Ok?
      && (action.None? ==> r.value == NoAction)
      && (action.Some? && SendToCallback(action.value, answer) ==> r.value == RemoveRow(index))
      && (action.Some? && !SendToCallback(action.value, answer) ==> r.value == RedrawRow(index))
  {
    var item :- DataSource.Get(s, index);
    if direction == LeftFlag || direction == RightFlag then
      var location := if direction == LeftFlag then Left else Right;
      match ResolveAction(actions, location, ClassName(item))
      case None => Ok(NoAction)
      case Some(action) =>
        if SendToCallback(action, answer) then Ok(RemoveRow(index)) else Ok(RedrawRow(index))
    else Err(IllegalState("Unknown direction: " + IntToString(direction)))
  }

  /** Carrying out a swipe's outcome on the data source. */
  function ApplySwipe(s: DataSource.Source, outcome: SwipeOutcome): (r: DataSource.Step)
    ensures outcome.NoAction? ==> r == DataSource.Step(s, [], None)
    ensures outcome.RemoveRow? ==> r == DataSource.RemoveAt(s, outcome.index)
    ensures outcome.RedrawRow? ==> r.source == s && DataSource.Reports(s, r.log, [ItemChanged(outcome.index)])
  {
    match outcome
    case NoAction => DataSource.Step(s, [], None)
    case RemoveRow(index) => DataSource.RemoveAt(s, index)
    case RedrawRow(index) => DataSource.Step(s, DataSource.InvalidateAt(s, index), None)
  }

  /**
   * `getSwipeDirs(holder)`: no directions for a row without a position;
   * otherwise a side is enabled iff an action for the row's class or a
   * global action exists for it.
   */
  function GetSwipeDirs(actions: map<ActionKey, SwipeAction>, s: DataSource.Source, adapterPosition: int): (r: Result<int>)
    ensures adapterPosition == -1 ==> r == Ok(0)
    ensures adapterPosition != -1 && !(0 <= adapterPosition < |s.items|) ==>
      r == Err(IndexOutOfBounds(adapterPosition, |s.items|))
    ensures adapterPosition != -1 && 0 <= adapterPosition < |s.items| ==>
      var c := ClassName(s.items[adapterPosition]);
      r == Ok(DirectionMask(ResolveAction(actions, Left, c).Some?, ResolveAction(actions, Right, c).Some?))
  {
    if adapterPosition == -1 then Ok(0)
    else
      var item :- DataSource.Get(s, adapterPosition);
      var c := ClassName(item);
      var directions := if ActionKey(Left, Some(c)) in actions || ActionKey(Left, None) in actions then LeftFlag else 0;
      Ok(directions + if ActionKey(Right, Some(c)) in actions || ActionKey(Right, None) in actions then RightFlag else 0)
  }

  /** `onMove`: dragging rows is never accepted. */
  function OnMove(from: int, to: int): (accepted: bool)
    ensures !accepted
  {
    false
  }

  /**
   * A row's enabled directions are among the plugin's: a side enabled for
   * a row has some action configured for it.
   */
  lemma RowDirectionsWithinPluginDirections(actions: map<ActionKey, SwipeAction>, s: DataSource.Source, p: int)
    requires 0 <= p < |s.items|
    ensures var c := ClassName(s.items[p]);
      && (ResolveAction(actions, Left, c).Some? ==> AnyActionOn(actions, Left))
      && (ResolveAction(actions, Right, c).Some? ==> AnyActionOn(actions, Right))
  {
    var c := ClassName(s.items[p]);
    if ResolveAction(actions, Left, c).Some? {
      if ActionKey(Left, Some(c)) in actions {
        assert ActionKey(Left, Some(c)).location == Left;
      } else {
        assert ActionKey(Left, None).location == Left;
      }
    }
    if ResolveAction(actions, Right, c).Some? {
      if ActionKey(Right, Some(c)) in actions {
        assert ActionKey(Right, Some(c)).location == Right;
      } else {
        assert ActionKey(Right, None).location == Right;
      }
    }
  }

  /**
   * An item-specific action wins over a global one on the same side: with
   * both registered, a swipe whose callback answers true removes the row
   * only if the item-specific action has a callback.
   */
  lemma ItemActionPreferred(actions: map<ActionKey, SwipeAction>, s: DataSource.Source, index: int,
                            location: SwipeLocation)
    requires 0 <= index < |s.items|
    requires ActionKey(location, Some(ClassName(s.items[index]))) in actions
    requires ActionKey(location, None) in actions
    ensures var direction := if location == Left then LeftFlag else RightFlag;
      var own := actions[ActionKey(location, Some(ClassName(s.items[index])))];
      OnSwiped(actions, s, index, direction, true) == Ok(if own.hasCallback then RemoveRow(index) else RedrawRow(index))
  {
  }
}
