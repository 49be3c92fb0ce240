/**
 * The order of the ranges a reconciliation pass records for deletion. When
 * the committed cache places the previous tree, every range a pass records
 * lies in the old flat text, and the ranges come out in ascending order
 * without overlapping: each ends at or before the start of the next. So the
 * last-first order in which `updateEditorState` sends them never shifts a
 * range still to be deleted.
 *
 * The ranges each function of `ReconcileSpec` appends to the delete list do
 * not depend on the pass it starts from, so they are written out a second
 * time here, on their own (`DestroyRanges`, `ReconcileRanges`, `ScanRanges`),
 * and the `...Appends` lemmas show that each function appends exactly those
 * ranges. The `...InOrder` lemmas then bound the ranges by the old span of
 * the node or children they come from.
 */
module ReconcileDeletes {
  import opened Types
  import opened Children
  import opened Ranges
  import opened ReconcileSpec
  import opened ReconcileLemmas

  // ---------------------------------------------------------------- ranges in order

  /**
   * Where a run of ranges ends when each starts at or after the end of the
   * one before it, the first at or after `lo`; `None` when one starts too
   * early.
   */
  function OrderedEnd(ranges: seq<Range>, lo: int): (e: Option<int>)
    ensures e.Some? ==> lo <= e.value
  {
    if ranges == [] then Some(lo)
    else if ranges[0].location < lo then None
    else OrderedEnd(ranges[1..], ranges[0].location + ranges[0].length)
  }

  /** The ranges follow each other in order from `lo` and the last ends by `hi`. */
  predicate InOrderWithin(ranges: seq<Range>, lo: int, hi: int)
  {
    OrderedEnd(ranges, lo).Some? && OrderedEnd(ranges, lo).value <= hi
  }

  /** Ranges in order within `[lo, hi]` lie inside it, and each ends at or before the start of every later one. */
  lemma {:induction false} InOrderWithinMeans(ranges: seq<Range>, lo: int, hi: int)
    requires InOrderWithin(ranges, lo, hi)
    ensures forall i :: 0 <= i < |ranges| ==> lo <= ranges[i].location && ranges[i].location + ranges[i].length <= hi
    ensures forall i, j :: 0 <= i < j < |ranges| ==> ranges[i].location + ranges[i].length <= ranges[j].location
  {
    if ranges != [] {
      var rest := ranges[1..];
      var end := ranges[0].location + ranges[0].length;
      InOrderWithinMeans(rest, end, hi);
      assert forall i :: 1 <= i < |ranges| ==> ranges[i] == rest[i - 1];
    }
  }

  /** Starting a run earlier never makes it fail or end later. */
  lemma {:induction false} OrderedEndEarlier(ranges: seq<Range>, lo: int, mid: int)
    requires lo <= mid && OrderedEnd(ranges, mid).Some?
    ensures OrderedEnd(ranges, lo).Some? && OrderedEnd(ranges, lo).value <= OrderedEnd(ranges, mid).value
  {
  }

  /** A run of `a` then `b` ends where `b` ends when started at the end of `a`. */
  lemma {:induction false} OrderedEndAppend(a: seq<Range>, b: seq<Range>, lo: int)
    requires OrderedEnd(a, lo).Some?
    ensures OrderedEnd(a + b, lo) == OrderedEnd(b, OrderedEnd(a, lo).value)
  {
    if a == [] {
      assert a + b == b;
    } else {
      OrderedEndAppend(a[1..], b, a[0].location + a[0].length);
      assert (a + b)[1..] == a[1..] + b;
    }
  }

  /** Ranges in order within `[lo, mid]` followed by ranges in order within `[mid, hi]` are in order within `[lo, hi]`. */
  lemma AppendInOrder(a: seq<Range>, b: seq<Range>, lo: int, mid: int, hi: int)
    requires InOrderWithin(a, lo, mid) && InOrderWithin(b, mid, hi)
    ensures InOrderWithin(a + b, lo, hi)
  {
    OrderedEndAppend(a, b, lo);
    OrderedEndEarlier(b, OrderedEnd(a, lo).value, mid);
  }

  /** Three runs of ranges in order within consecutive bounds are in order within the whole. */
  lemma Append3InOrder(a: seq<Range>, b: seq<Range>, c: seq<Range>, lo: int, m1: int, m2: int, hi: int)
    requires InOrderWithin(a, lo, m1) && InOrderWithin(b, m1, m2) && InOrderWithin(c, m2, hi)
    ensures InOrderWithin(a + b + c, lo, hi)
  {
    AppendInOrder(a, b, lo, m1, m2);
    AppendInOrder(a + b, c, lo, m2, hi);
  }

  // ---------------------------------------------------------------- the ranges each function records

  /** What `createAddRemoveRanges` records for deletion: the old range of the part, if it was not empty. */
  function AddRemoveRanges(prevLocation: nat, prevLength: nat): seq<Range>
  {
    if prevLength > 0 then [Range(prevLocation, prevLength)] else []
  }

  /** The range of a part lies within the part's old span. */
  lemma AddRemoveInOrder(prevLocation: nat, prevLength: nat)
    ensures InOrderWithin(AddRemoveRanges(prevLocation, prevLength), prevLocation, prevLocation + prevLength)
  {
    if prevLength > 0 {
      OneInOrder(Range(prevLocation, prevLength), prevLocation, prevLocation + prevLength);
    }
  }

  /** The ranges `destroyNode(key)` records: preamble, the children's ranges, text, postamble. */
  ghost function DestroyRanges(env: Env, key: Key): seq<Range>
    requires env.Valid()
    decreases RankOf(env.prevRank, key), 1
  {
    if key !in env.prev || key !in env.prevCache then []
    else
      var item := env.prevCache[key];
      var cs := ChildKeys(env.prev, key);
      [Range(item.location, item.preambleLength)]
        + (if env.prev[key].IsElement() && |cs| > 0 then DestroyChildrenRanges(env, key, cs, 0) else [])
        + [TextRange(item), PostambleRangeOf(item)]
  }

  /** The ranges `destroyChildren(cs, i, |cs| - 1)` records, child by child. */
  ghost function DestroyChildrenRanges(env: Env, parent: Key, cs: seq<Key>, i: nat): seq<Range>
    requires env.Valid() && cs == ChildKeys(env.prev, parent) && i <= |cs|
    decreases RankOf(env.prevRank, parent), 0, |cs| - i
  {
    if i == |cs| then []
    else
      ChildBelow(env.prev, env.prevRank, parent, cs[i]);
      DestroyRanges(env, cs[i]) + DestroyChildrenRanges(env, parent, cs, i + 1)
  }

  /**
   * The ranges `reconcileNode(key)` records: none on the fast path and for a
   * restamped node; otherwise the old preamble, the children's ranges, the
   * old text and the old postamble, each only if it was not empty.
   */
  ghost function ReconcileRanges(env: Env, key: Key): seq<Range>
    requires env.Valid()
    decreases RankOf(env.prevRank, key), 2
  {
    if key !in env.prev || key !in env.next || key !in env.prevCache then []
    else if env.prev[key] == env.next[key] && !env.IsDirty(key) then []
    else
      var item := env.prevCache[key];
      var textStart := item.location + item.preambleLength + item.childrenLength;
      AddRemoveRanges(item.location, item.preambleLength)
        + ChildrenRanges(env, key)
        + (AddRemoveRanges(textStart, item.textLength) + AddRemoveRanges(textStart + item.textLength, item.postambleLength))
  }

  /** The ranges `reconcileChildren(key)` records. */
  ghost function ChildrenRanges(env: Env, key: Key): seq<Range>
    requires env.Valid()
    decreases RankOf(env.prevRank, key), 1
  {
    if key !in env.prev || key !in env.next || !env.prev[key].IsElement() || !env.next[key].IsElement() then []
    else ScanRanges(env, key, ChildKeys(env.prev, key), ChildKeys(env.next, key), 0, 0)
  }

  /** The ranges the two-pointer scan records from `prevIndex` and `nextIndex` on. */
  ghost function ScanRanges(env: Env, parent: Key, prevChildren: seq<Key>, nextChildren: seq<Key>,
                            prevIndex: nat, nextIndex: nat): seq<Range>
    requires env.Valid()
    requires prevChildren == ChildKeys(env.prev, parent) && nextChildren == ChildKeys(env.next, parent)
    requires prevIndex <= |prevChildren| && nextIndex <= |nextChildren|
    decreases RankOf(env.prevRank, parent), 0, |prevChildren| - prevIndex + |nextChildren| - nextIndex
  {
    if prevIndex < |prevChildren| && nextIndex < |nextChildren| then
      var prevKey := prevChildren[prevIndex];
      var nextKey := nextChildren[nextIndex];
      ChildBelow(env.prev, env.prevRank, parent, prevKey);
      if prevKey == nextKey then
        ReconcileRanges(env, prevKey) + ScanRanges(env, parent, prevChildren, nextChildren, prevIndex + 1, nextIndex + 1)
      else if prevKey !in nextChildren then
        DestroyRanges(env, prevKey) + ScanRanges(env, parent, prevChildren, nextChildren, prevIndex + 1, nextIndex)
      else if nextKey !in prevChildren then
        ScanRanges(env, parent, prevChildren, nextChildren, prevIndex, nextIndex + 1)
      else
        DestroyRanges(env, prevKey) + ScanRanges(env, parent, prevChildren, nextChildren, prevIndex + 1, nextIndex + 1)
    else if nextIndex >= |nextChildren| && prevIndex < |prevChildren| then
      DestroyChildrenRanges(env, parent, prevChildren, prevIndex)
    else []
  }

  // ---------------------------------------------------------------- each function appends those ranges

  /** `destroyNode(key)` appends `DestroyRanges(env, key)` to the delete list, whatever the pass. */
  lemma {:induction false} DestroyAppends(env: Env, p: Pass, key: Key)
    requires env.Valid()
    ensures Destroy(env, p, key).deletes == p.deletes + DestroyRanges(env, key)
    decreases RankOf(env.prevRank, key), 1
  {
    if key in env.prev && key in env.prevCache {
      var item := env.prevCache[key];
      var cs := ChildKeys(env.prev, key);
      var preamble := [Range(item.location, item.preambleLength)];
      var tail := [TextRange(item), PostambleRangeOf(item)];
      var p1 := DeleteRange(p, Range(item.location, item.preambleLength));
      if env.prev[key].IsElement() && |cs| > 0 {
        var p2 := DestroyChildren(env, p1, key, cs, 0);
        DestroyChildrenAppends(env, p1, key, cs, 0);
        assert Destroy(env, p, key) == DestroyTail(p2, key, item, key !in env.next);
        assert DestroyRanges(env, key) == preamble + DestroyChildrenRanges(env, key, cs, 0) + tail;
        Assoc3(p.deletes, preamble, DestroyChildrenRanges(env, key, cs, 0), tail);
      } else {
        assert Destroy(env, p, key) == DestroyTail(p1, key, item, key !in env.next);
        assert DestroyRanges(env, key) == preamble + [] + tail;
        Assoc3(p.deletes, preamble, [], tail);
      }
    }
  }

  /** `destroyChildren(cs, i, |cs| - 1)` appends `DestroyChildrenRanges(env, parent, cs, i)`. */
  lemma {:induction false} DestroyChildrenAppends(env: Env, p: Pass, parent: Key, cs: seq<Key>, i: nat)
    requires env.Valid() && cs == ChildKeys(env.prev, parent) && i <= |cs|
    ensures DestroyChildren(env, p, parent, cs, i).deletes == p.deletes + DestroyChildrenRanges(env, parent, cs, i)
    decreases RankOf(env.prevRank, parent), 0, |cs| - i
  {
    if i < |cs| {
      ChildBelow(env.prev, env.prevRank, parent, cs[i]);
      var q := Destroy(env, p, cs[i]);
      DestroyAppends(env, p, cs[i]);
      DestroyChildrenAppends(env, q, parent, cs, i + 1);
      assert DestroyChildren(env, p, parent, cs, i) == DestroyChildren(env, q, parent, cs, i + 1);
      assert DestroyChildrenRanges(env, parent, cs, i)
          == DestroyRanges(env, cs[i]) + DestroyChildrenRanges(env, parent, cs, i + 1);
      Assoc(p.deletes, DestroyRanges(env, cs[i]), DestroyChildrenRanges(env, parent, cs, i + 1));
    }
  }

  /** `reconcileNode(key)` appends `ReconcileRanges(env, key)` to the delete list, whatever the pass. */
  lemma {:induction false} ReconcileAppends(env: Env, p: Pass, key: Key)
    requires env.Valid()
    ensures Reconcile(env, p, key).deletes == p.deletes + ReconcileRanges(env, key)
    decreases RankOf(env.prevRank, key), 3
  {
    if key in env.prev && key in env.next && key in env.prevCache
       && !(env.prev[key] == env.next[key] && !env.IsDirty(key)) {
      assert Reconcile(env, p, key) == ReconcileChanged(env, p, key);
      ChangedAppends(env, p, key);
    }
  }

  /** The changed path of `reconcileNode(key)`: preamble, children, text, postamble. */
  lemma {:induction false} ChangedAppends(env: Env, p: Pass, key: Key)
    requires env.Valid() && key in env.prev && key in env.next && key in env.prevCache
    requires !(env.prev[key] == env.next[key] && !env.IsDirty(key))
    ensures ReconcileChanged(env, p, key).deletes == p.deletes + ReconcileRanges(env, key)
    decreases RankOf(env.prevRank, key), 2
  {
    var item := env.prevCache[key];
    var n := env.next[key];
    var textStart := item.location + item.preambleLength + item.childrenLength;
    var p1 := AddRemove(p, key, item.location, item.preambleLength, |n.preamble|, Preamble);
    var a := AddRemoveRanges(item.location, item.preambleLength);
    var c := ChildrenRanges(env, key);
    var t := AddRemoveRanges(textStart, item.textLength) + AddRemoveRanges(textStart + item.textLength, item.postambleLength);
    assert p1.deletes == p.deletes + a;
    var p2 := if n.IsElement() then ReconcileChildren(env, p1, key) else p1;
    MiddleAppends(env, p1, key);
    assert ReconcileChanged(env, p, key) == ReconcileTail(p2, key, item, n, p.cursor, p1.cursor);
    TailAppends(p2, key, item, n, p.cursor, p1.cursor);
    assert ReconcileRanges(env, key) == a + c + t;
    Assoc3(p.deletes, a, c, t);
  }

  /** The children step of a changed `reconcileNode` appends the children's ranges, none for a non-element. */
  lemma MiddleAppends(env: Env, p1: Pass, key: Key)
    requires env.Valid() && key in env.next
    ensures (if env.next[key].IsElement() then ReconcileChildren(env, p1, key) else p1).deletes
         == p1.deletes + ChildrenRanges(env, key)
    decreases RankOf(env.prevRank, key), 2, 0
  {
    if env.next[key].IsElement() {
      ChildrenAppends(env, p1, key);
    } else {
      assert p1.deletes + [] == p1.deletes;
    }
  }

  /** The end of a changed `reconcileNode` records the old text and postamble, each only if it was not empty. */
  lemma TailAppends(p: Pass, key: Key, item: RangeCacheItem, n: Node, location: nat, childrenStart: nat)
    requires childrenStart <= p.cursor
    ensures var textStart := item.location + item.preambleLength + item.childrenLength;
      ReconcileTail(p, key, item, n, location, childrenStart).deletes
        == p.deletes + (AddRemoveRanges(textStart, item.textLength) + AddRemoveRanges(textStart + item.textLength, item.postambleLength))
  {
    var textStart := item.location + item.preambleLength + item.childrenLength;
    Assoc(p.deletes, AddRemoveRanges(textStart, item.textLength), AddRemoveRanges(textStart + item.textLength, item.postambleLength));
  }

  /** `reconcileChildren(key)` appends `ChildrenRanges(env, key)`. */
  lemma {:induction false} ChildrenAppends(env: Env, p: Pass, key: Key)
    requires env.Valid()
    ensures ReconcileChildren(env, p, key).deletes == p.deletes + ChildrenRanges(env, key)
    decreases RankOf(env.prevRank, key), 1
  {
    if key in env.prev && key in env.next && env.prev[key].IsElement() && env.next[key].IsElement() {
      ScanAppends(env, p, key, ChildKeys(env.prev, key), ChildKeys(env.next, key), 0, 0);
    }
  }

  /** The scan from `prevIndex` and `nextIndex` appends `ScanRanges` from the same pointers. */
  lemma {:induction false} ScanAppends(env: Env, p: Pass, parent: Key, prevChildren: seq<Key>, nextChildren: seq<Key>,
                                       prevIndex: nat, nextIndex: nat)
    requires env.Valid()
    requires prevChildren == ChildKeys(env.prev, parent) && nextChildren == ChildKeys(env.next, parent)
    requires prevIndex <= |prevChildren| && nextIndex <= |nextChildren|
    ensures ScanChildren(env, p, parent, prevChildren, nextChildren, prevIndex, nextIndex).deletes
         == p.deletes + ScanRanges(env, parent, prevChildren, nextChildren, prevIndex, nextIndex)
    decreases RankOf(env.prevRank, parent), 0, |prevChildren| - prevIndex + |nextChildren| - nextIndex, 1
  {
    if prevIndex < |prevChildren| && nextIndex < |nextChildren| {
      var prevKey := prevChildren[prevIndex];
      var nextKey := nextChildren[nextIndex];
      if prevKey == nextKey {
        KeptAppends(env, p, parent, prevChildren, nextChildren, prevIndex, nextIndex);
      } else if prevKey !in nextChildren {
        RemovedAppends(env, p, parent, prevChildren, nextChildren, prevIndex, nextIndex);
      } else if nextKey !in prevChildren {
        InsertedAppends(env, p, parent, prevChildren, nextChildren, prevIndex, nextIndex);
      } else {
        MovedAppends(env, p, parent, prevChildren, nextChildren, prevIndex, nextIndex);
      }
    } else if nextIndex >= |nextChildren| && prevIndex < |prevChildren| {
      DestroyChildrenAppends(env, p, parent, prevChildren, prevIndex);
      assert ScanChildren(env, p, parent, prevChildren, nextChildren, prevIndex, nextIndex)
          == DestroyChildren(env, p, parent, prevChildren, prevIndex);
    } else if prevIndex >= |prevChildren| && nextIndex < |nextChildren| {
      assert ScanChildren(env, p, parent, prevChildren, nextChildren, prevIndex, nextIndex)
          == CreateChildren(env, p, parent, nextChildren, nextIndex);
    }
  }

  /** A turn on a shared key: the child's ranges, then the rest of the scan's. */
  lemma {:induction false} KeptAppends(env: Env, p: Pass, parent: Key, prevChildren: seq<Key>, nextChildren: seq<Key>,
                                       prevIndex: nat, nextIndex: nat)
    requires env.Valid()
    requires prevChildren == ChildKeys(env.prev, parent) && nextChildren == ChildKeys(env.next, parent)
    requires prevIndex < |prevChildren| && nextIndex < |nextChildren|
    requires prevChildren[prevIndex] == nextChildren[nextIndex]
    ensures ScanChildren(env, p, parent, prevChildren, nextChildren, prevIndex, nextIndex).deletes
         == p.deletes + ScanRanges(env, parent, prevChildren, nextChildren, prevIndex, nextIndex)
    decreases RankOf(env.prevRank, parent), 0, |prevChildren| - prevIndex + |nextChildren| - nextIndex, 0
  {
    var key := prevChildren[prevIndex];
    ChildBelow(env.prev, env.prevRank, parent, key);
    var q := Reconcile(env, p, key);
    ReconcileAppends(env, p, key);
    ScanAppends(env, q, parent, prevChildren, nextChildren, prevIndex + 1, nextIndex + 1);
    assert ScanChildren(env, p, parent, prevChildren, nextChildren, prevIndex, nextIndex)
        == ScanChildren(env, q, parent, prevChildren, nextChildren, prevIndex + 1, nextIndex + 1);
    var a := ReconcileRanges(env, key);
    var b := ScanRanges(env, parent, prevChildren, nextChildren, prevIndex + 1, nextIndex + 1);
    assert ScanRanges(env, parent, prevChildren, nextChildren, prevIndex, nextIndex) == a + b;
    Assoc(p.deletes, a, b);
  }

  /** A turn that destroys an old child: its ranges, then the rest of the scan's. */
  lemma {:induction false} RemovedAppends(env: Env, p: Pass, parent: Key, prevChildren: seq<Key>, nextChildren: seq<Key>,
                                          prevIndex: nat, nextIndex: nat)
    requires env.Valid()
    requires prevChildren == ChildKeys(env.prev, parent) && nextChildren == ChildKeys(env.next, parent)
    requires prevIndex < |prevChildren| && nextIndex < |nextChildren|
    requires prevChildren[prevIndex] != nextChildren[nextIndex] && prevChildren[prevIndex] !in nextChildren
    ensures ScanChildren(env, p, parent, prevChildren, nextChildren, prevIndex, nextIndex).deletes
         == p.deletes + ScanRanges(env, parent, prevChildren, nextChildren, prevIndex, nextIndex)
    decreases RankOf(env.prevRank, parent), 0, |prevChildren| - prevIndex + |nextChildren| - nextIndex, 0
  {
    var key := prevChildren[prevIndex];
    ChildBelow(env.prev, env.prevRank, parent, key);
    var q := Destroy(env, p, key);
    DestroyAppends(env, p, key);
    ScanAppends(env, q, parent, prevChildren, nextChildren, prevIndex + 1, nextIndex);
    assert ScanChildren(env, p, parent, prevChildren, nextChildren, prevIndex, nextIndex)
        == ScanChildren(env, q, parent, prevChildren, nextChildren, prevIndex + 1, nextIndex);
    var a := DestroyRanges(env, key);
    var b := ScanRanges(env, parent, prevChildren, nextChildren, prevIndex + 1, nextIndex);
    assert ScanRanges(env, parent, prevChildren, nextChildren, prevIndex, nextIndex) == a + b;
    Assoc(p.deletes, a, b);
  }

  /** A turn that creates a new child records nothing. */
  lemma {:induction false} InsertedAppends(env: Env, p: Pass, parent: Key, prevChildren: seq<Key>, nextChildren: seq<Key>,
                                           prevIndex: nat, nextIndex: nat)
    requires env.Valid()
    requires prevChildren == ChildKeys(env.prev, parent) && nextChildren == ChildKeys(env.next, parent)
    requires prevIndex < |prevChildren| && nextIndex < |nextChildren|
    requires prevChildren[prevIndex] != nextChildren[nextIndex] && prevChildren[prevIndex] in nextChildren
    requires nextChildren[nextIndex] !in prevChildren
    ensures ScanChildren(env, p, parent, prevChildren, nextChildren, prevIndex, nextIndex).deletes
         == p.deletes + ScanRanges(env, parent, prevChildren, nextChildren, prevIndex, nextIndex)
    decreases RankOf(env.prevRank, parent), 0, |prevChildren| - prevIndex + |nextChildren| - nextIndex, 0
  {
    var q := Create(env, p, nextChildren[nextIndex]);
    ScanAppends(env, q, parent, prevChildren, nextChildren, prevIndex, nextIndex + 1);
    assert ScanChildren(env, p, parent, prevChildren, nextChildren, prevIndex, nextIndex)
        == ScanChildren(env, q, parent, prevChildren, nextChildren, prevIndex, nextIndex + 1);
    assert ScanRanges(env, parent, prevChildren, nextChildren, prevIndex, nextIndex)
        == ScanRanges(env, parent, prevChildren, nextChildren, prevIndex, nextIndex + 1);
  }

  /** A move turn destroys the old child, whose ranges come first, and creates the new one, which records nothing. */
  lemma {:induction false} MovedAppends(env: Env, p: Pass, parent: Key, prevChildren: seq<Key>, nextChildren: seq<Key>,
                                        prevIndex: nat, nextIndex: nat)
    requires env.Valid()
    requires prevChildren == ChildKeys(env.prev, parent) && nextChildren == ChildKeys(env.next, parent)
    requires prevIndex < |prevChildren| && nextIndex < |nextChildren|
    requires prevChildren[prevIndex] != nextChildren[nextIndex] && prevChildren[prevIndex] in nextChildren
    requires nextChildren[nextIndex] in prevChildren
    ensures ScanChildren(env, p, parent, prevChildren, nextChildren, prevIndex, nextIndex).deletes
         == p.deletes + ScanRanges(env, parent, prevChildren, nextChildren, prevIndex, nextIndex)
    decreases RankOf(env.prevRank, parent), 0, |prevChildren| - prevIndex + |nextChildren| - nextIndex, 0
  {
    var key := prevChildren[prevIndex];
    ChildBelow(env.prev, env.prevRank, parent, key);
    var d := Destroy(env, p, key);
    var q := Create(env, d, nextChildren[nextIndex]);
    DestroyAppends(env, p, key);
    ScanAppends(env, q, parent, prevChildren, nextChildren, prevIndex + 1, nextIndex + 1);
    assert ScanChildren(env, p, parent, prevChildren, nextChildren, prevIndex, nextIndex)
        == ScanChildren(env, q, parent, prevChildren, nextChildren, prevIndex + 1, nextIndex + 1);
    var a := DestroyRanges(env, key);
    var b := ScanRanges(env, parent, prevChildren, nextChildren, prevIndex + 1, nextIndex + 1);
    assert ScanRanges(env, parent, prevChildren, nextChildren, prevIndex, nextIndex) == a + b;
    Assoc(p.deletes, a, b);
  }

  /** Concatenation of ranges is associative. */
  lemma Assoc(s: seq<Range>, a: seq<Range>, b: seq<Range>)
    ensures s + a + b == s + (a + b)
  {
  }

  /** Three runs appended one after the other. */
  lemma Assoc3(s: seq<Range>, a: seq<Range>, b: seq<Range>, c: seq<Range>)
    ensures s + a + b + c == s + (a + b + c)
  {
  }

  // ---------------------------------------------------------------- the ranges lie in order

  /** The entry of a node placed at `location` holds `location` and the node's own lengths. */
  lemma PlacedItem(nodeMap: Snapshot, rank: map<Key, nat>, cache: RangeCache, key: Key, location: nat)
    requires WellFormed(nodeMap, rank) && key in nodeMap && PlacedAt(nodeMap, rank, cache, key, location)
    ensures key in cache
    ensures cache[key] == RangeCacheItem(location, |nodeMap[key].preamble|, ChildrenLength(nodeMap, rank, key),
                                         |nodeMap[key].text|, |nodeMap[key].postamble|)
    ensures ChildrenPlacedAt(nodeMap, rank, cache, key, ChildKeys(nodeMap, key), 0, location + |nodeMap[key].preamble|)
  {
  }

  /** The flat text of a node is its preamble, its children's text, its text and its postamble. */
  lemma {:induction false} FlatTextLength(nodeMap: Snapshot, rank: map<Key, nat>, key: Key)
    requires WellFormed(nodeMap, rank) && key in nodeMap
    ensures |FlatText(nodeMap, rank, key)|
         == |nodeMap[key].preamble| + ChildrenLength(nodeMap, rank, key) + |nodeMap[key].text| + |nodeMap[key].postamble|
  {
  }

  /** The old child at `i` is placed at `location`, the ones after it right behind its flat text. */
  lemma OldChildStep(env: Env, parent: Key, cs: seq<Key>, i: nat, location: nat)
    requires env.Valid() && cs == ChildKeys(env.prev, parent) && i < |cs|
    ensures ChildrenPlacedAt(env.prev, env.prevRank, env.prevCache, parent, cs, i, location) ==>
      && PlacedAt(env.prev, env.prevRank, env.prevCache, cs[i], location)
      && ChildrenPlacedAt(env.prev, env.prevRank, env.prevCache, parent, cs, i + 1,
                          location + |FlatText(env.prev, env.prevRank, cs[i])|)
    ensures |ChildrenText(env.prev, env.prevRank, parent, cs, i)|
         == |FlatText(env.prev, env.prevRank, cs[i])| + |ChildrenText(env.prev, env.prevRank, parent, cs, i + 1)|
  {
    assert ChildrenText(env.prev, env.prevRank, parent, cs, i)
        == FlatText(env.prev, env.prevRank, cs[i]) + ChildrenText(env.prev, env.prevRank, parent, cs, i + 1);
  }

  /** A single range inside `[lo, hi]` is in order within it. */
  lemma OneInOrder(r: Range, lo: int, hi: int)
    requires lo <= r.location && r.location + r.length <= hi
    ensures InOrderWithin([r], lo, hi)
  {
    assert [r][1..] == [];
  }

  /** Two ranges inside `[lo, hi]`, the first ending by the start of the second, are in order within it. */
  lemma TwoInOrder(r1: Range, r2: Range, lo: int, hi: int)
    requires lo <= r1.location && r1.location + r1.length <= r2.location && r2.location + r2.length <= hi
    ensures InOrderWithin([r1, r2], lo, hi)
  {
    OneInOrder(r2, r1.location + r1.length, hi);
    assert [r1, r2][1..] == [r2];
  }

  /**
   * The ranges `destroyNode(key)` records for a subtree placed at `location`
   * lie in order within the old span of the subtree.
   */
  lemma {:induction false} DestroyRangesInOrder(env: Env, key: Key, location: nat)
    requires env.Valid()
    ensures PlacedAt(env.prev, env.prevRank, env.prevCache, key, location) ==>
      InOrderWithin(DestroyRanges(env, key), location, location + |FlatText(env.prev, env.prevRank, key)|)
    decreases RankOf(env.prevRank, key), 1
  {
    if key in env.prev && PlacedAt(env.prev, env.prevRank, env.prevCache, key, location) {
      var n := env.prev[key];
      var cs := ChildKeys(env.prev, key);
      PlacedItem(env.prev, env.prevRank, env.prevCache, key, location);
      FlatTextLength(env.prev, env.prevRank, key);
      var item := env.prevCache[key];
      var childrenStart := location + |n.preamble|;
      var childrenEnd := childrenStart + ChildrenLength(env.prev, env.prevRank, key);
      var hi := location + |FlatText(env.prev, env.prevRank, key)|;
      var preamble := [Range(item.location, item.preambleLength)];
      var tail := [TextRange(item), PostambleRangeOf(item)];
      OneInOrder(Range(item.location, item.preambleLength), location, childrenStart);
      TwoInOrder(TextRange(item), PostambleRangeOf(item), childrenEnd, hi);
      var middle := if n.IsElement() && |cs| > 0 then DestroyChildrenRanges(env, key, cs, 0) else [];
      if n.IsElement() && |cs| > 0 {
        DestroyChildrenRangesInOrder(env, key, cs, 0, childrenStart);
      }
      Append3InOrder(preamble, middle, tail, location, childrenStart, childrenEnd, hi);
      assert DestroyRanges(env, key) == preamble + middle + tail;
    }
  }

  /** The ranges `destroyChildren(cs, i, |cs| - 1)` records lie in order within the old span of `cs[i..]`. */
  lemma {:induction false} DestroyChildrenRangesInOrder(env: Env, parent: Key, cs: seq<Key>, i: nat, location: nat)
    requires env.Valid() && cs == ChildKeys(env.prev, parent) && i <= |cs|
    ensures ChildrenPlacedAt(env.prev, env.prevRank, env.prevCache, parent, cs, i, location) ==>
      InOrderWithin(DestroyChildrenRanges(env, parent, cs, i),
                    location, location + |ChildrenText(env.prev, env.prevRank, parent, cs, i)|)
    decreases RankOf(env.prevRank, parent), 0, |cs| - i
  {
    if i < |cs| && ChildrenPlacedAt(env.prev, env.prevRank, env.prevCache, parent, cs, i, location) {
      ChildBelow(env.prev, env.prevRank, parent, cs[i]);
      var after := location + |FlatText(env.prev, env.prevRank, cs[i])|;
      var hi := after + |ChildrenText(env.prev, env.prevRank, parent, cs, i + 1)|;
      OldChildStep(env, parent, cs, i, location);
      var a := DestroyRanges(env, cs[i]);
      var b := DestroyChildrenRanges(env, parent, cs, i + 1);
      DestroyRangesInOrder(env, cs[i], location);
      DestroyChildrenRangesInOrder(env, parent, cs, i + 1, after);
      AppendInOrder(a, b, location, after, hi);
      assert DestroyChildrenRanges(env, parent, cs, i) == a + b;
    }
  }

  /**
   * The ranges `reconcileNode(key)` records for a subtree placed at
   * `location` lie in order within the old span of the subtree.
   */
  lemma {:induction false} ReconcileRangesInOrder(env: Env, key: Key, location: nat)
    requires env.Valid()
    ensures PlacedAt(env.prev, env.prevRank, env.prevCache, key, location) ==>
      InOrderWithin(ReconcileRanges(env, key), location, location + |FlatText(env.prev, env.prevRank, key)|)
    decreases RankOf(env.prevRank, key), 2
  {
    if PlacedAt(env.prev, env.prevRank, env.prevCache, key, location) {
      if key in env.prev && key in env.next && key in env.prevCache
         && !(env.prev[key] == env.next[key] && !env.IsDirty(key)) {
        PlacedItem(env.prev, env.prevRank, env.prevCache, key, location);
        FlatTextLength(env.prev, env.prevRank, key);
        var item := env.prevCache[key];
        ChildrenRangesInOrder(env, key, item.location + item.preambleLength);
        ChangedInOrder(item, ChildrenRanges(env, key));
        ChangedRanges(env, key);
      } else {
        UnchangedRanges(env, key);
      }
    }
  }

  /**
   * The ranges of a changed node lie in order within its entire range when
   * its children's ranges lie in order within its children's range.
   */
  lemma ChangedInOrder(item: RangeCacheItem, children: seq<Range>)
    requires InOrderWithin(children, item.location + item.preambleLength,
                           item.location + item.preambleLength + item.childrenLength)
    ensures var textStart := item.location + item.preambleLength + item.childrenLength;
      InOrderWithin(AddRemoveRanges(item.location, item.preambleLength) + children
                      + (AddRemoveRanges(textStart, item.textLength)
                         + AddRemoveRanges(textStart + item.textLength, item.postambleLength)),
                    item.location, item.location + Total(item))
  {
    var childrenStart := item.location + item.preambleLength;
    var textStart := childrenStart + item.childrenLength;
    var postambleStart := textStart + item.textLength;
    var t := AddRemoveRanges(textStart, item.textLength);
    var q := AddRemoveRanges(postambleStart, item.postambleLength);
    AddRemoveInOrder(item.location, item.preambleLength);
    AddRemoveInOrder(textStart, item.textLength);
    AddRemoveInOrder(postambleStart, item.postambleLength);
    AppendInOrder(t, q, textStart, postambleStart, postambleStart + item.postambleLength);
    Append3InOrder(AddRemoveRanges(item.location, item.preambleLength), children, t + q,
                   item.location, childrenStart, textStart, item.location + Total(item));
  }

  /** A node missing from either tree or the committed cache, or unchanged and clean, records no ranges. */
  lemma UnchangedRanges(env: Env, key: Key)
    requires env.Valid()
    requires !(key in env.prev && key in env.next && key in env.prevCache
               && !(env.prev[key] == env.next[key] && !env.IsDirty(key)))
    ensures ReconcileRanges(env, key) == []
  {
  }

  /** The ranges of a changed node: its old preamble, its children's ranges, its old text and postamble. */
  lemma ChangedRanges(env: Env, key: Key)
    requires env.Valid() && key in env.prev && key in env.next && key in env.prevCache
    requires !(env.prev[key] == env.next[key] && !env.IsDirty(key))
    ensures var item := env.prevCache[key];
      var textStart := item.location + item.preambleLength + item.childrenLength;
      ReconcileRanges(env, key)
        == AddRemoveRanges(item.location, item.preambleLength) + ChildrenRanges(env, key)
           + (AddRemoveRanges(textStart, item.textLength) + AddRemoveRanges(textStart + item.textLength, item.postambleLength))
  {
  }

  /** The ranges `reconcileChildren(key)` records lie in order within the old span of the children of `key`. */
  lemma {:induction false} ChildrenRangesInOrder(env: Env, key: Key, location: nat)
    requires env.Valid() && key in env.prev
    ensures ChildrenPlacedAt(env.prev, env.prevRank, env.prevCache, key, ChildKeys(env.prev, key), 0, location) ==>
      InOrderWithin(ChildrenRanges(env, key), location, location + ChildrenLength(env.prev, env.prevRank, key))
    decreases RankOf(env.prevRank, key), 1
  {
    if key in env.next && env.prev[key].IsElement() && env.next[key].IsElement() {
      ScanRangesInOrder(env, key, ChildKeys(env.prev, key), ChildKeys(env.next, key), 0, 0, location);
    }
  }

  /**
   * The ranges the scan records from `prevIndex` on lie in order within the
   * old span of the old children from `prevIndex` on, which are placed from
   * `location`: the old pointer only moves forward.
   */
  lemma {:induction false} ScanRangesInOrder(env: Env, parent: Key, prevChildren: seq<Key>, nextChildren: seq<Key>,
                                             prevIndex: nat, nextIndex: nat, location: nat)
    requires env.Valid()
    requires prevChildren == ChildKeys(env.prev, parent) && nextChildren == ChildKeys(env.next, parent)
    requires prevIndex <= |prevChildren| && nextIndex <= |nextChildren|
    ensures ChildrenPlacedAt(env.prev, env.prevRank, env.prevCache, parent, prevChildren, prevIndex, location) ==>
      InOrderWithin(ScanRanges(env, parent, prevChildren, nextChildren, prevIndex, nextIndex),
                    location, location + |ChildrenText(env.prev, env.prevRank, parent, prevChildren, prevIndex)|)
    decreases RankOf(env.prevRank, parent), 0, |prevChildren| - prevIndex + |nextChildren| - nextIndex, 1
  {
    if prevIndex < |prevChildren| && nextIndex < |nextChildren| {
      var prevKey := prevChildren[prevIndex];
      var nextKey := nextChildren[nextIndex];
      if prevKey == nextKey {
        KeptInOrder(env, parent, prevChildren, nextChildren, prevIndex, nextIndex, location);
      } else if prevKey !in nextChildren {
        RemovedInOrder(env, parent, prevChildren, nextChildren, prevIndex, nextIndex, location);
      } else if nextKey !in prevChildren {
        ScanRangesInOrder(env, parent, prevChildren, nextChildren, prevIndex, nextIndex + 1, location);
        assert ScanRanges(env, parent, prevChildren, nextChildren, prevIndex, nextIndex)
            == ScanRanges(env, parent, prevChildren, nextChildren, prevIndex, nextIndex + 1);
      } else {
        MovedInOrder(env, parent, prevChildren, nextChildren, prevIndex, nextIndex, location);
      }
    } else if nextIndex >= |nextChildren| && prevIndex < |prevChildren| {
      DestroyChildrenRangesInOrder(env, parent, prevChildren, prevIndex, location);
      assert ScanRanges(env, parent, prevChildren, nextChildren, prevIndex, nextIndex)
          == DestroyChildrenRanges(env, parent, prevChildren, prevIndex);
    }
  }

  /** A turn on a shared key: the child's ranges lie in its old span, the rest after it. */
  lemma {:induction false} KeptInOrder(env: Env, parent: Key, prevChildren: seq<Key>, nextChildren: seq<Key>,
                                       prevIndex: nat, nextIndex: nat, location: nat)
    requires env.Valid()
    requires prevChildren == ChildKeys(env.prev, parent) && nextChildren == ChildKeys(env.next, parent)
    requires prevIndex < |prevChildren| && nextIndex < |nextChildren|
    requires prevChildren[prevIndex] == nextChildren[nextIndex]
    ensures ChildrenPlacedAt(env.prev, env.prevRank, env.prevCache, parent, prevChildren, prevIndex, location) ==>
      InOrderWithin(ScanRanges(env, parent, prevChildren, nextChildren, prevIndex, nextIndex),
                    location, location + |ChildrenText(env.prev, env.prevRank, parent, prevChildren, prevIndex)|)
    decreases RankOf(env.prevRank, parent), 0, |prevChildren| - prevIndex + |nextChildren| - nextIndex, 0
  {
    if ChildrenPlacedAt(env.prev, env.prevRank, env.prevCache, parent, prevChildren, prevIndex, location) {
      var key := prevChildren[prevIndex];
      ChildBelow(env.prev, env.prevRank, parent, key);
      var after := location + |FlatText(env.prev, env.prevRank, key)|;
      var hi := after + |ChildrenText(env.prev, env.prevRank, parent, prevChildren, prevIndex + 1)|;
      OldChildStep(env, parent, prevChildren, prevIndex, location);
      var a := ReconcileRanges(env, key);
      var b := ScanRanges(env, parent, prevChildren, nextChildren, prevIndex + 1, nextIndex + 1);
      ReconcileRangesInOrder(env, key, location);
      ScanRangesInOrder(env, parent, prevChildren, nextChildren, prevIndex + 1, nextIndex + 1, after);
      AppendInOrder(a, b, location, after, hi);
      KeptStep(env, parent, prevChildren, nextChildren, prevIndex, nextIndex);
    }
  }

  /** A turn on a shared key records the child's `reconcileNode` ranges, then the rest of the scan. */
  lemma KeptStep(env: Env, parent: Key, prevChildren: seq<Key>, nextChildren: seq<Key>, prevIndex: nat, nextIndex: nat)
    requires env.Valid()
    requires prevChildren == ChildKeys(env.prev, parent) && nextChildren == ChildKeys(env.next, parent)
    requires prevIndex < |prevChildren| && nextIndex < |nextChildren|
    requires prevChildren[prevIndex] == nextChildren[nextIndex]
    ensures ScanRanges(env, parent, prevChildren, nextChildren, prevIndex, nextIndex)
         == ReconcileRanges(env, prevChildren[prevIndex]) + ScanRanges(env, parent, prevChildren, nextChildren, prevIndex + 1, nextIndex + 1)
  {
  }

  /** A turn that destroys an old child: its ranges lie in its old span, the rest after it. */
  lemma {:induction false} RemovedInOrder(env: Env, parent: Key, prevChildren: seq<Key>, nextChildren: seq<Key>,
                                          prevIndex: nat, nextIndex: nat, location: nat)
    requires env.Valid()
    requires prevChildren == ChildKeys(env.prev, parent) && nextChildren == ChildKeys(env.next, parent)
    requires prevIndex < |prevChildren| && nextIndex < |nextChildren|
    requires prevChildren[prevIndex] != nextChildren[nextIndex] && prevChildren[prevIndex] !in nextChildren
    ensures ChildrenPlacedAt(env.prev, env.prevRank, env.prevCache, parent, prevChildren, prevIndex, location) ==>
      InOrderWithin(ScanRanges(env, parent, prevChildren, nextChildren, prevIndex, nextIndex),
                    location, location + |ChildrenText(env.prev, env.prevRank, parent, prevChildren, prevIndex)|)
    decreases RankOf(env.prevRank, parent), 0, |prevChildren| - prevIndex + |nextChildren| - nextIndex, 0
  {
    if ChildrenPlacedAt(env.prev, env.prevRank, env.prevCache, parent, prevChildren, prevIndex, location) {
      var key := prevChildren[prevIndex];
      ChildBelow(env.prev, env.prevRank, parent, key);
      var after := location + |FlatText(env.prev, env.prevRank, key)|;
      var hi := after + |ChildrenText(env.prev, env.prevRank, parent, prevChildren, prevIndex + 1)|;
      OldChildStep(env, parent, prevChildren, prevIndex, location);
      var a := DestroyRanges(env, key);
      var b := ScanRanges(env, parent, prevChildren, nextChildren, prevIndex + 1, nextIndex);
      DestroyRangesInOrder(env, key, location);
      ScanRangesInOrder(env, parent, prevChildren, nextChildren, prevIndex + 1, nextIndex, after);
      AppendInOrder(a, b, location, after, hi);
      RemovedStep(env, parent, prevChildren, nextChildren, prevIndex, nextIndex);
    }
  }

  /** A turn on an old key the new list lacks records its `destroyNode` ranges, then the rest of the scan. */
  lemma RemovedStep(env: Env, parent: Key, prevChildren: seq<Key>, nextChildren: seq<Key>, prevIndex: nat, nextIndex: nat)
    requires env.Valid()
    requires prevChildren == ChildKeys(env.prev, parent) && nextChildren == ChildKeys(env.next, parent)
    requires prevIndex < |prevChildren| && nextIndex < |nextChildren|
    requires prevChildren[prevIndex] != nextChildren[nextIndex] && prevChildren[prevIndex] !in nextChildren
    ensures ScanRanges(env, parent, prevChildren, nextChildren, prevIndex, nextIndex)
         == DestroyRanges(env, prevChildren[prevIndex]) + ScanRanges(env, parent, prevChildren, nextChildren, prevIndex + 1, nextIndex)
  {
  }

  /** A move turn: the destroyed old child's ranges lie in its old span, the rest after it. */
  lemma {:induction false} MovedInOrder(env: Env, parent: Key, prevChildren: seq<Key>, nextChildren: seq<Key>,
                                        prevIndex: nat, nextIndex: nat, location: nat)
    requires env.Valid()
    requires prevChildren == ChildKeys(env.prev, parent) && nextChildren == ChildKeys(env.next, parent)
    requires prevIndex < |prevChildren| && nextIndex < |nextChildren|
    requires prevChildren[prevIndex] != nextChildren[nextIndex] && prevChildren[prevIndex] in nextChildren
    requires nextChildren[nextIndex] in prevChildren
    ensures ChildrenPlacedAt(env.prev, env.prevRank, env.prevCache, parent, prevChildren, prevIndex, location) ==>
      InOrderWithin(ScanRanges(env, parent, prevChildren, nextChildren, prevIndex, nextIndex),
                    location, location + |ChildrenText(env.prev, env.prevRank, parent, prevChildren, prevIndex)|)
    decreases RankOf(env.prevRank, parent), 0, |prevChildren| - prevIndex + |nextChildren| - nextIndex, 0
  {
    if ChildrenPlacedAt(env.prev, env.prevRank, env.prevCache, parent, prevChildren, prevIndex, location) {
      var key := prevChildren[prevIndex];
      ChildBelow(env.prev, env.prevRank, parent, key);
      var after := location + |FlatText(env.prev, env.prevRank, key)|;
      var hi := after + |ChildrenText(env.prev, env.prevRank, parent, prevChildren, prevIndex + 1)|;
      OldChildStep(env, parent, prevChildren, prevIndex, location);
      var a := DestroyRanges(env, key);
      var b := ScanRanges(env, parent, prevChildren, nextChildren, prevIndex + 1, nextIndex + 1);
      DestroyRangesInOrder(env, key, location);
      ScanRangesInOrder(env, parent, prevChildren, nextChildren, prevIndex + 1, nextIndex + 1, after);
      AppendInOrder(a, b, location, after, hi);
      MovedStep(env, parent, prevChildren, nextChildren, prevIndex, nextIndex);
    }
  }

  /** A move turn records the `destroyNode` ranges of the old key, then the rest of the scan from both next keys. */
  lemma MovedStep(env: Env, parent: Key, prevChildren: seq<Key>, nextChildren: seq<Key>, prevIndex: nat, nextIndex: nat)
    requires env.Valid()
    requires prevChildren == ChildKeys(env.prev, parent) && nextChildren == ChildKeys(env.next, parent)
    requires prevIndex < |prevChildren| && nextIndex < |nextChildren|
    requires prevChildren[prevIndex] != nextChildren[nextIndex] && prevChildren[prevIndex] in nextChildren
    requires nextChildren[nextIndex] in prevChildren
    ensures ScanRanges(env, parent, prevChildren, nextChildren, prevIndex, nextIndex)
         == DestroyRanges(env, prevChildren[prevIndex]) + ScanRanges(env, parent, prevChildren, nextChildren, prevIndex + 1, nextIndex + 1)
  {
  }

  // ---------------------------------------------------------------- what the pass sends

  /**
   * `destroyNode(key)` on a placed subtree appends ranges that lie inside the
   * entire range of the committed entry of `key`, in ascending order and
   * without overlapping.
   */
  lemma DestroyDeletesInOrder(env: Env, p: Pass, key: Key)
    requires env.Valid() && key in env.prev && Placed(env.prev, env.prevRank, env.prevCache, key)
    ensures Destroy(env, p, key).deletes == p.deletes + DestroyRanges(env, key)
    ensures forall i :: 0 <= i < |DestroyRanges(env, key)| ==>
      && EntireRange(env.prevCache[key]).location <= DestroyRanges(env, key)[i].location
      && DestroyRanges(env, key)[i].location + DestroyRanges(env, key)[i].length
         <= EntireRange(env.prevCache[key]).location + EntireRange(env.prevCache[key]).length
    ensures forall i, j :: 0 <= i < j < |DestroyRanges(env, key)| ==>
      DestroyRanges(env, key)[i].location + DestroyRanges(env, key)[i].length <= DestroyRanges(env, key)[j].location
  {
    var location := env.prevCache[key].location;
    DestroyAppends(env, p, key);
    DestroyRangesInOrder(env, key, location);
    EntireRangePlaced(env.prev, env.prevRank, env.prevCache, key, location);
    InOrderWithinMeans(DestroyRanges(env, key), location, location + |FlatText(env.prev, env.prevRank, key)|);
  }

  /**
   * If the committed cache places the previous tree from the root at offset
   * 0, the delete list of a pass from the root lies within the old flat text
   * in ascending order, and no two of its ranges overlap.
   */
  lemma PassDeletesInOrder(env: Env)
    requires env.Valid() && PlacedAt(env.prev, env.prevRank, env.prevCache, RootKey, 0)
    ensures var d := Reconcile(env, InitialPass(env.prevCache), RootKey).deletes;
      && (forall i :: 0 <= i < |d| ==> d[i].location + d[i].length <= |FlatText(env.prev, env.prevRank, RootKey)|)
      && (forall i, j :: 0 <= i < j < |d| ==> d[i].location + d[i].length <= d[j].location)
  {
    PassRanges(env);
    ReconcileRangesInOrder(env, RootKey, 0);
    InOrderWithinMeans(ReconcileRanges(env, RootKey), 0, |FlatText(env.prev, env.prevRank, RootKey)|);
  }

  /** A pass from the root deletes exactly the ranges `reconcileNode(root)` records. */
  lemma PassRanges(env: Env)
    requires env.Valid()
    ensures Reconcile(env, InitialPass(env.prevCache), RootKey).deletes == ReconcileRanges(env, RootKey)
  {
    var p := InitialPass(env.prevCache);
    ReconcileAppends(env, p, RootKey);
    assert p.deletes + ReconcileRanges(env, RootKey) == ReconcileRanges(env, RootKey);
  }
}
