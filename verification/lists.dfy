/**
 * The positional list edits the data sources perform, each described by
 * where every old element ends up.
 */
module Lists {

  /** `add(index, x)` on a list: x lands at `index`, later elements move up one. */
  function InsertAt<T>(xs: seq<T>, index: nat, x: T): (r: seq<T>)
    requires index <= |xs|
    ensures |r| == |xs| + 1
    ensures r[index] == x
    ensures forall k :: 0 <= k < index ==> r[k] == xs[k]
    ensures forall k :: index <= k < |xs| ==> r[k + 1] == xs[k]
  {
    xs[..index] + [x] + xs[index..]
  }

  /** Inserting adds exactly the one element to the list's contents. */
  lemma InsertAtCount<T>(xs: seq<T>, index: nat, x: T)
    requires index <= |xs|
    ensures multiset(InsertAt(xs, index, x)) == multiset(xs) + multiset{x}
  {
    assert xs == xs[..index] + xs[index..];
  }

  /** `removeAt(index)` on a list: that element goes, later elements move down one. */
  function RemoveIndex<T>(xs: seq<T>, index: nat): (r: seq<T>)
    requires index < |xs|
    ensures |r| == |xs| - 1
    ensures forall k :: 0 <= k < index ==> r[k] == xs[k]
    ensures forall k :: index < k < |xs| ==> r[k - 1] == xs[k]
  {
    xs[..index] + xs[index + 1..]
  }

  /** Removing takes exactly the one element out of the list's contents. */
  lemma RemoveIndexCount<T>(xs: seq<T>, index: nat)
    requires index < |xs|
    ensures multiset(RemoveIndex(xs, index)) == multiset(xs) - multiset{xs[index]}
  {
    assert xs == xs[..index] + [xs[index]] + xs[index + 1..];
  }

  /** The two positions exchange their elements; every other position keeps its own. */
  function SwapAt<T>(xs: seq<T>, left: nat, right: nat): (r: seq<T>)
    requires left < |xs| && right < |xs|
    ensures |r| == |xs|
    ensures r[left] == xs[right] && r[right] == xs[left]
    ensures forall k :: 0 <= k < |xs| && k != left && k != right ==> r[k] == xs[k]
  {
    xs[left := xs[right]][right := xs[left]]
  }

  /**
   * Take the element at `from` out and put it back at `to`: it ends up at
   * `to` and the others keep their relative order.
   */
  function MoveTo<T>(xs: seq<T>, from: nat, to: nat): (r: seq<T>)
    requires from < |xs| && to < |xs|
    ensures |r| == |xs|
    ensures r[to] == xs[from]
    ensures RemoveIndex(r, to) == RemoveIndex(xs, from)
  {
    var rest := RemoveIndex(xs, from);
    var r := InsertAt(rest, to, xs[from]);
    InsertThenRemove(rest, to, xs[from]);
    r
  }

  /** Moving permutes the list: its contents stay the same. */
  lemma MoveToPermutes<T>(xs: seq<T>, from: nat, to: nat)
    requires from < |xs| && to < |xs|
    ensures multiset(MoveTo(xs, from, to)) == multiset(xs)
  {
    var rest := RemoveIndex(xs, from);
    RemoveIndexCount(xs, from);
    InsertAtCount(rest, to, xs[from]);
  }

  lemma InsertThenRemove<T>(xs: seq<T>, index: nat, x: T)
    requires index <= |xs|
    ensures RemoveIndex(InsertAt(xs, index, x), index) == xs
  {
    var r := RemoveIndex(InsertAt(xs, index, x), index);
    assert |r| == |xs|;
    forall k | 0 <= k < |xs|
      ensures r[k] == xs[k]
    {
      if k >= index {
        assert r[k] == InsertAt(xs, index, x)[k + 1];
      }
    }
  }

  lemma RemoveThenInsert<T>(xs: seq<T>, index: nat)
    requires index < |xs|
    ensures InsertAt(RemoveIndex(xs, index), index, xs[index]) == xs
  {
    var rest := RemoveIndex(xs, index);
    var r := InsertAt(rest, index, xs[index]);
    forall k | 0 <= k < |xs|
      ensures r[k] == xs[k]
    {
      if k > index {
        assert r[k] == rest[k - 1];
      }
    }
  }

  lemma SwapTwice<T>(xs: seq<T>, left: nat, right: nat)
    requires left < |xs| && right < |xs|
    ensures SwapAt(SwapAt(xs, left, right), left, right) == xs
  {
    var r := SwapAt(SwapAt(xs, left, right), left, right);
    assert forall k :: 0 <= k < |xs| ==> r[k] == xs[k];
  }

  /** Moving an element and moving it back restores the list. */
  lemma MoveBack<T>(xs: seq<T>, from: nat, to: nat)
    requires from < |xs| && to < |xs|
    ensures MoveTo(MoveTo(xs, from, to), to, from) == xs
  {
    var there := MoveTo(xs, from, to);
    var back := MoveTo(there, to, from);
    assert RemoveIndex(there, to) == RemoveIndex(xs, from);
    RemoveThenInsert(xs, from);
  }
}
