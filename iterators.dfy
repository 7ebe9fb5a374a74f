/** `hash_map_iterator`: a position in the slot table together with the iterator's own
    copy of the tombstone flags, taken when the iterator was made. */
module Iterators {
  import opened Slots

  /** The first index at or after i whose slot is non-null and not tombstoned in the
      snapshot, or the table size when there is none. An index already past the end
      is left where it is. */
  function Scan<V>(s: seq<Slot<V>>, snap: seq<bool>, i: nat): (r: nat)
    requires |s| == |snap|
    ensures r >= i
    ensures i <= |s| ==> r <= |s|
    ensures i >= |s| ==> r == i
    ensures r < |s| ==> Live(s, snap, r)
    ensures forall x :: i <= x < r && x < |s| ==> !Live(s, snap, x)
    decreases |s| - i
  {
    if i >= |s| then i
    else if Live(s, snap, i) then i
    else Scan(s, snap, i + 1)
  }

  /** The indices a loop `for (it = ...; it != end(); ++it)` visits when `it` starts
      at index i: i itself, then every index ++ reaches before the table size. */
  function Traversal<V>(s: seq<Slot<V>>, snap: seq<bool>, i: nat): seq<nat>
    requires |s| == |snap|
    decreases |s| - i
  {
    if i >= |s| then []
    else [i] + Traversal(s, snap, Scan(s, snap, i + 1))
  }

  /** A traversal that starts where a scan from i lands visits exactly the live slots
      at or above i; from begin() (a scan from 0) that is every live slot. */
  lemma {:induction false} TraversalVisitsLive<V>(s: seq<Slot<V>>, snap: seq<bool>, i: nat, x: nat)
    requires |s| == |snap| && i <= |s|
    ensures x in Traversal(s, snap, Scan(s, snap, i)) <==> i <= x < |s| && Live(s, snap, x)
    decreases |s| - i
  {
    if i < |s| {
      TraversalVisitsLive(s, snap, i + 1, x);
    }
  }

  /** A traversal from any index j visits indices at or above j, in increasing
      order, so no slot twice. */
  lemma {:induction false} TraversalAscends<V>(s: seq<Slot<V>>, snap: seq<bool>, j: nat)
    requires |s| == |snap|
    ensures forall a :: 0 <= a < |Traversal(s, snap, j)| ==> j <= Traversal(s, snap, j)[a]
    ensures forall a, b :: 0 <= a < b < |Traversal(s, snap, j)| ==> Traversal(s, snap, j)[a] < Traversal(s, snap, j)[b]
    decreases |s| - j
  {
    if j < |s| {
      var next := Scan(s, snap, j + 1);
      TraversalAscends(s, snap, next);
      var rest := Traversal(s, snap, next);
      var path := Traversal(s, snap, j);
      assert path == [j] + rest;
      assert j < next;
      assert forall a :: 0 <= a < |rest| ==> next <= rest[a];
      forall a, b | 0 <= a < b < |path| ensures path[a] < path[b] {
        assert path[b] == rest[b - 1];
        if a > 0 {
          assert path[a] == rest[a - 1];
        }
      }
    }
  }

  /** The number of entries a traversal visits is the live count at or above i; from
      begin() it is what size() returns. */
  lemma {:induction false} TraversalCountsLive<V>(s: seq<Slot<V>>, snap: seq<bool>, i: nat)
    requires |s| == |snap| && i <= |s|
    ensures |Traversal(s, snap, Scan(s, snap, i))| == CountLiveFrom(s, snap, i)
    decreases |s| - i
  {
    if i < |s| {
      TraversalCountsLive(s, snap, i + 1);
    }
  }

  class Iterator<V> {
    /** The table the iterator points into; with index it is the source's `point`. */
    const table: array<Slot<V>>
    /** The iterator's private copy of `deleted`. */
    const snapshot: seq<bool>
    /** `cur_index`; the source's `size` is the table length. */
    var index: nat

    ghost predicate Valid()
      reads this
    {
      |snapshot| == table.Length
    }

    /** Copies the tombstone flags as the source's constructor does. */
    constructor (table: array<Slot<V>>, deleted: seq<bool>, index: nat)
      requires |deleted| == table.Length
      ensures Valid() && this.table == table && snapshot == deleted && this.index == index
    {
      this.table := table;
      snapshot := deleted;
      this.index := index;
    }

    /** The copy constructor: a separate iterator at the same position with the same
      snapshot. */
    constructor Copy(other: Iterator<V>)
      requires other.Valid()
      ensures Valid() && table == other.table && snapshot == other.snapshot && index == other.index
    {
      table := other.table;
      snapshot := other.snapshot;
      index := other.index;
    }

    /** Prefix ++: step forward at least once, then keep stepping while the slot is
      null or tombstoned in the snapshot, stopping at the table size. */
    method Next()
      requires Valid()
      modifies this
      ensures Valid()
      ensures index == Scan(table[..], snapshot, old(index) + 1)
    {
      index := index + 1;
      while index < table.Length
        invariant old(index) + 1 <= index
        invariant Scan(table[..], snapshot, index) == Scan(table[..], snapshot, old(index) + 1)
        decreases table.Length - index
      {
        if table[index].Some? && !snapshot[index] {
          return;
        }
        index := index + 1;
      }
    }

    /** `*it`: the entry the iterator points at. */
    function Current(): (e: Entry<V>)
      reads this, table
      requires index < table.Length && table[index].Some?
      ensures Some(e) == table[index]
    {
      table[index].value
    }

    /** `==`: iterators are equal when they point at the same slot of the same table. */
    predicate Same(other: Iterator<V>)
      reads this, other
    {
      table == other.table && index == other.index
    }
  }
}
