/**
 * Values shared by every part of the list library's model: items, failures,
 * empty-view visibility and the log of notifications the library emits.
 */
module Common {

  /** Kotlin's nullable reference. */
  datatype Option<+T> = None | Some(value: T)

  /**
   * An exception the library (or the platform list it uses) raises.
   * `IllegalState` is Kotlin's `error(..)`/`check(..)`/`IllegalStateException`,
   * `IllegalArgument` is `require(..)`, `IndexOutOfBounds` is the platform
   * list's range check, `NullDereference` is a failed `!!`, `ClassCast` a failed
   * checked cast.
   */
  datatype Error =
    | IllegalState(message: string)
    | IllegalArgument(message: string)
    | IndexOutOfBounds(index: int, size: int)
    | NullDereference
    | ClassCast

  /** Either a value or the exception that replaced it. */
  datatype Result<+T> = Ok(value: T) | Err(error: Error) {
    predicate IsFailure() { Err? }

    function PropagateFailure<U>(): Result<U>
      requires Err?
    {
      Err(error)
    }

    function Extract(): T
      requires Ok?
    {
      value
    }
  }

  /**
   * A model object shown in the list. Items are opaque values compared by
   * equality; the only thing the library asks of one is its runtime class name.
   */
  datatype Item = Item(className: string, payload: int)

  function ClassName(x: Item): string {
    x.className
  }

  /** The three visibility states of an Android view. */
  datatype Visibility = Visible | Invisible | Gone

  /** The visibility the library gives the empty view: shown iff `show`. */
  function VisibilityFor(show: bool): (v: Visibility)
    ensures v == Visible <==> show
    ensures v != Invisible
  {
    if show then Visible else Gone
  }

  /**
   * One observable effect of a library call: a notification the widget
   * adapter receives, an empty-view visibility write, a change-listener call
   * or a selection-changed callback.
   */
  datatype Event =
    | ItemRangeInserted(start: int, count: int)
    | ItemInserted(position: int)
    | ItemRemoved(position: int)
    | ItemChanged(position: int)
    | ItemMoved(fromPosition: int, toPosition: int)
    | DataSetChanged
    | DiffDispatched
    | EmptyViewSet(visibility: Visibility)
    | ListenerNotified(listener: nat)
    | SelectionChanged

  /** True of the events that reach the widget adapter. */
  predicate IsAdapterEvent(e: Event) {
    !e.EmptyViewSet? && !e.ListenerNotified? && !e.SelectionChanged?
  }

  /** The visibility the last empty-view write in `log` left behind, if any. */
  function LastVisibility(log: seq<Event>): (v: Option<Visibility>)
  {
    if |log| == 0 then None
    else if log[|log| - 1].EmptyViewSet? then Some(log[|log| - 1].visibility)
    else LastVisibility(log[..|log| - 1])
  }

  /** The events of `log` that reach the widget adapter, in order. */
  function AdapterEvents(log: seq<Event>): (r: seq<Event>)
    ensures |r| <= |log|
  {
    if |log| == 0 then []
    else AdapterEvents(log[..|log| - 1]) + (if IsAdapterEvent(log[|log| - 1]) then [log[|log| - 1]] else [])
  }

  /** The change listeners `log` calls, in call order. */
  function ListenerCalls(log: seq<Event>): (r: seq<nat>)
    ensures |r| <= |log|
  {
    if |log| == 0 then []
    else ListenerCalls(log[..|log| - 1]) + (if log[|log| - 1].ListenerNotified? then [log[|log| - 1].listener] else [])
  }

  lemma {:induction false} AdapterEventsAppend(a: seq<Event>, b: seq<Event>)
    ensures AdapterEvents(a + b) == AdapterEvents(a) + AdapterEvents(b)
    decreases |b|
  {
    if |b| == 0 {
      assert a + b == a;
    } else {
      assert (a + b)[..|a + b| - 1] == a + b[..|b| - 1];
      AdapterEventsAppend(a, b[..|b| - 1]);
    }
  }

  lemma {:induction false} ListenerCallsAppend(a: seq<Event>, b: seq<Event>)
    ensures ListenerCalls(a + b) == ListenerCalls(a) + ListenerCalls(b)
    decreases |b|
  {
    if |b| == 0 {
      assert a + b == a;
    } else {
      assert (a + b)[..|a + b| - 1] == a + b[..|b| - 1];
      ListenerCallsAppend(a, b[..|b| - 1]);
    }
  }

  /** A log of adapter events only passes through the adapter filter unchanged. */
  lemma {:induction false} AdapterEventsOfAdapterLog(log: seq<Event>)
    requires forall i :: 0 <= i < |log| ==> IsAdapterEvent(log[i])
    ensures AdapterEvents(log) == log
    decreases |log|
  {
    if |log| > 0 {
      AdapterEventsOfAdapterLog(log[..|log| - 1]);
    }
  }

  /** A log of adapter events only calls no listener and writes no visibility. */
  lemma {:induction false} AdapterLogIsQuiet(log: seq<Event>)
    requires forall i :: 0 <= i < |log| ==> IsAdapterEvent(log[i])
    ensures ListenerCalls(log) == []
    ensures LastVisibility(log) == None
    decreases |log|
  {
    if |log| > 0 {
      AdapterLogIsQuiet(log[..|log| - 1]);
    }
  }

  /** How many times the selection-changed callback fires in `log`. */
  function CallbackCount(log: seq<Event>): nat {
    if |log| == 0 then 0
    else CallbackCount(log[..|log| - 1]) + (if log[|log| - 1].SelectionChanged? then 1 else 0)
  }

  lemma {:induction false} CallbackCountAppend(a: seq<Event>, b: seq<Event>)
    ensures CallbackCount(a + b) == CallbackCount(a) + CallbackCount(b)
    decreases |b|
  {
    if |b| == 0 {
      assert a + b == a;
    } else {
      assert (a + b)[..|a + b| - 1] == a + b[..|b| - 1];
      CallbackCountAppend(a, b[..|b| - 1]);
    }
  }

  lemma {:induction false} LastVisibilityAppend(a: seq<Event>, b: seq<Event>)
    ensures LastVisibility(b).Some? ==> LastVisibility(a + b) == LastVisibility(b)
    ensures LastVisibility(b).None? ==> LastVisibility(a + b) == LastVisibility(a)
    decreases |b|
  {
    if |b| == 0 {
      assert a + b == a;
    } else {
      assert (a + b)[..|a + b| - 1] == a + b[..|b| - 1];
      if !b[|b| - 1].EmptyViewSet? {
        LastVisibilityAppend(a, b[..|b| - 1]);
      }
    }
  }

  /** The indices 0 .. n-1 of a list of size n, as a set. */
  function IndexRange(n: nat): (r: set<int>)
    ensures forall k :: k in r <==> 0 <= k < n
    ensures |r| == n
  {
    if n == 0 then {} else IndexRange(n - 1) + {n - 1}
  }

  function DigitChar(d: int): (c: char)
    requires 0 <= d < 10
    ensures '0' <= c <= '9'
  {
    "0123456789"[d]
  }

  /** Decimal text of a non-negative number, as Kotlin's string templates print it. */
  function NatToString(n: nat): (s: string)
    ensures |s| >= 1
    ensures forall i :: 0 <= i < |s| ==> '0' <= s[i] <= '9'
    decreases n
  {
    if n < 10 then [DigitChar(n)] else NatToString(n / 10) + [DigitChar(n % 10)]
  }

  /** Decimal text of an integer, with a leading '-' when negative. */
  function IntToString(i: int): (s: string)
    ensures |s| >= 1
  {
    if i < 0 then "-" + NatToString(-i) else NatToString(i)
  }
}
