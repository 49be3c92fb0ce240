/**
 * The reconciliation walk as functions on values. A `Pass` is the part of
 * the reconciler state that a pass changes (cursor, delete list, insertion
 * list, next range cache); an `Env` is the part it only reads. Each function
 * here gives the state after one of the reconciler's procedures; the
 * procedures themselves, in `Reconciler`, are proved to reach exactly it.
 */
module ReconcileSpec {
  import opened Types
  import opened Children
  import opened Ranges

  /**
   * The read-only inputs of a pass. The two rank maps are ghost witnesses
   * that the snapshots are trees; the TypeScript reconciler keeps no such thing.
   */
  datatype Env = Env(
    prev: Snapshot,
    next: Snapshot,
    prevCache: RangeCache,
    dirtyLeaves: set<Key>,
    dirtyElements: map<Key, bool>,
    prevRank: map<Key, nat>,
    nextRank: map<Key, nat>)
  {
    ghost predicate Valid()
    {
      WellFormed(prev, prevRank) && WellFormed(next, nextRank)
    }

    /** `dirtyElements.get(key) !== undefined || dirtyLeaves.has(key)`: the flag's value plays no part. */
    predicate IsDirty(key: Key)
    {
      key in dirtyElements || key in dirtyLeaves
    }
  }

  datatype Pass = Pass(cursor: nat, deletes: seq<Range>, inserts: seq<Insertion>, cache: RangeCache)

  /** `m1` and `m2` agree at `k`: both lack it or both map it to the same item. */
  predicate SameAt(m1: RangeCache, m2: RangeCache, k: Key)
  {
    (k in m1 <==> k in m2) && (k in m1 ==> m1[k] == m2[k])
  }

  /** `createAddRemoveRanges`. */
  function AddRemove(p: Pass, key: Key, prevLocation: nat, prevLength: nat, nextLength: nat, part: NodePart): Pass
  {
    p.(deletes := if prevLength > 0 then p.deletes + [Range(prevLocation, prevLength)] else p.deletes,
       inserts := if nextLength > 0 then p.inserts + [Insertion(p.cursor, key, part)] else p.inserts,
       cursor := p.cursor + nextLength)
  }

  // ---------------------------------------------------------------- updateLocationOfNonDirtyNode

  /** `updateLocationOfNonDirtyNode(key)`. */
  ghost function Restamp(env: Env, p: Pass, key: Key): (r: Pass)
    requires env.Valid()
    ensures r.cursor >= p.cursor && r.deletes == p.deletes && r.inserts == p.inserts
    ensures key in env.prevCache ==> key in r.cache && r.cache[key] == env.prevCache[key].(location := p.cursor)
    ensures forall k :: !SameAt(p.cache, r.cache, k) ==> k == key || Below(env.nextRank, key, k)
    decreases RankOf(env.nextRank, key), 2
  {
    if key !in env.prevCache then p
    else
      var p1 := Relocate(p, key, env.prevCache[key]);
      if key !in env.next then p1
      else
        var p2 := Advance(p1, env.prevCache[key].preambleLength);
        var r := RestampAfterPreamble(env, key, p2);
        assert SameAt(p2.cache, r.cache, key);
        r
  }

  /** Stores `item`, moved to the cursor, as the next cache entry of `key`. */
  function Relocate(p: Pass, key: Key, item: RangeCacheItem): (r: Pass)
    ensures r.cursor == p.cursor && r.deletes == p.deletes && r.inserts == p.inserts
    ensures r.cache == p.cache[key := item.(location := p.cursor)]
  {
    p.(cache := p.cache[key := item.(location := p.cursor)])
  }

  /** Moves the cursor on by `length`. */
  function Advance(p: Pass, length: nat): (r: Pass)
    ensures r.cursor == p.cursor + length && r.deletes == p.deletes && r.inserts == p.inserts && r.cache == p.cache
  {
    p.(cursor := p.cursor + length)
  }

  /**
   * The rest of `updateLocationOfNonDirtyNode(key)` once the entry of `key`
   * is restamped and the cursor is past its preamble: the children, then the
   * text and the postamble.
   */
  ghost function RestampAfterPreamble(env: Env, key: Key, p: Pass): (r: Pass)
    requires env.Valid() && key in env.next && key in env.prevCache
    ensures r.cursor >= p.cursor && r.deletes == p.deletes && r.inserts == p.inserts
    ensures forall k :: !SameAt(p.cache, r.cache, k) ==> Below(env.nextRank, key, k)
    decreases RankOf(env.nextRank, key), 1
  {
    var item := env.prevCache[key];
    var p3 := if env.next[key].IsElement() then RestampChildren(env, p, key, ChildKeys(env.next, key), 0) else p;
    p3.(cursor := p3.cursor + item.textLength + item.postambleLength)
  }

  /** The loop of `updateLocationOfNonDirtyNode` over the children `cs[i..]` of `parent`. */
  ghost function RestampChildren(env: Env, p: Pass, parent: Key, cs: seq<Key>, i: nat): (r: Pass)
    requires env.Valid()
    requires cs == ChildKeys(env.next, parent) && i <= |cs|
    ensures r.cursor >= p.cursor && r.deletes == p.deletes && r.inserts == p.inserts
    ensures forall k :: !SameAt(p.cache, r.cache, k) ==> Below(env.nextRank, parent, k)
    decreases RankOf(env.nextRank, parent), 0, |cs| - i
  {
    if i == |cs| then p
    else
      ChildBelow(env.next, env.nextRank, parent, cs[i]);
      var q := Restamp(env, p, cs[i]);
      var r := RestampChildren(env, q, parent, cs, i + 1);
      assert forall k :: !SameAt(p.cache, r.cache, k) ==> Below(env.nextRank, parent, k) by {
        forall k | !SameAt(p.cache, r.cache, k) ensures Below(env.nextRank, parent, k) {
          assert !SameAt(p.cache, q.cache, k) || !SameAt(q.cache, r.cache, k);
        }
      }
      r
  }

  // ---------------------------------------------------------------- createNode

  /** Pushes the insertion of one part of `key` at the cursor and moves the cursor over it. */
  function Push(p: Pass, key: Key, part: NodePart, length: nat): (r: Pass)
    ensures r.cursor == p.cursor + length && r.deletes == p.deletes && r.cache == p.cache
    ensures r.inserts == p.inserts + [Insertion(p.cursor, key, part)]
  {
    p.(inserts := p.inserts + [Insertion(p.cursor, key, part)], cursor := p.cursor + length)
  }

  /** `createNode(key)`: inserts the whole subtree of `key` of the next snapshot at the cursor. */
  ghost function Create(env: Env, p: Pass, key: Key): (r: Pass)
    requires env.Valid()
    ensures r.cursor >= p.cursor && r.deletes == p.deletes && p.inserts <= r.inserts
    decreases RankOf(env.nextRank, key), 2
  {
    if key !in env.next then p
    else CreateAfterPreamble(env, p, key, Push(p, key, Preamble, |env.next[key].preamble|))
  }

  /** The rest of `createNode(key)` once the preamble is inserted and the state is `p1`. */
  ghost function CreateAfterPreamble(env: Env, p: Pass, key: Key, p1: Pass): (r: Pass)
    requires env.Valid() && key in env.next && p1.cursor >= p.cursor
    ensures r.cursor >= p1.cursor && r.deletes == p1.deletes && p1.inserts <= r.inserts
    decreases RankOf(env.nextRank, key), 1
  {
    var n := env.next[key];
    var cs := ChildKeys(env.next, key);
    var p2 := if n.IsElement() && |cs| > 0 then CreateChildren(env, p1, key, cs, 0) else p1;
    CreateTail(p2, key, n, p.cursor, p1.cursor)
  }

  /** The end of `createNode`: text and postamble insertions, then the new cache entry. */
  function CreateTail(p: Pass, key: Key, n: Node, location: nat, childrenStart: nat): (r: Pass)
    requires childrenStart <= p.cursor
    ensures r.cursor == p.cursor + |n.text| + |n.postamble| && r.deletes == p.deletes
    ensures r.inserts == p.inserts + [Insertion(p.cursor, key, TextPart), Insertion(p.cursor + |n.text|, key, Postamble)]
  {
    var childrenLength := p.cursor - childrenStart;
    var p4 := Push(Push(p, key, TextPart, |n.text|), key, Postamble, |n.postamble|);
    p4.(cache := p4.cache[key := RangeCacheItem(location, |n.preamble|, childrenLength, |n.text|, |n.postamble|)])
  }

  /** `createChildren(cs, i, |cs| - 1)`. */
  ghost function CreateChildren(env: Env, p: Pass, parent: Key, cs: seq<Key>, i: nat): (r: Pass)
    requires env.Valid()
    requires cs == ChildKeys(env.next, parent) && i <= |cs|
    ensures r.cursor >= p.cursor && r.deletes == p.deletes && p.inserts <= r.inserts
    decreases RankOf(env.nextRank, parent), 0, |cs| - i
  {
    if i == |cs| then p
    else
      ChildBelow(env.next, env.nextRank, parent, cs[i]);
      CreateChildren(env, Create(env, p, cs[i]), parent, cs, i + 1)
  }

  // ---------------------------------------------------------------- destroyNode

  /** `destroyNode(key)`: deletes the ranges of the subtree of `key` of the previous snapshot. */
  ghost function Destroy(env: Env, p: Pass, key: Key): (r: Pass)
    requires env.Valid()
    ensures r.cursor == p.cursor && r.inserts == p.inserts && p.deletes <= r.deletes
    ensures forall k :: k in r.cache ==> k in p.cache && r.cache[k] == p.cache[k]
    ensures forall k :: k in p.cache && k !in r.cache ==> k !in env.next && (k == key || Below(env.prevRank, key, k))
    decreases RankOf(env.prevRank, key), 1
  {
    if key !in env.prev || key !in env.prevCache then p
    else
      var item := env.prevCache[key];
      var p1 := DeleteRange(p, Range(item.location, item.preambleLength));
      var cs := ChildKeys(env.prev, key);
      var p2 := if env.prev[key].IsElement() && |cs| > 0 then DestroyChildren(env, p1, key, cs, 0) else p1;
      DestroyTail(p2, key, item, key !in env.next)
  }

  /**
   * The end of `destroyNode`: the text and postamble ranges of the old entry
   * `item`, then the entry is dropped if the node is `gone` from the next snapshot.
   */
  function DestroyTail(p: Pass, key: Key, item: RangeCacheItem, gone: bool): (r: Pass)
    ensures r.cursor == p.cursor && r.inserts == p.inserts
    ensures r.deletes == p.deletes + [TextRange(item), PostambleRangeOf(item)]
    ensures r.cache == if gone then p.cache - {key} else p.cache
  {
    Forget(DeleteRange(DeleteRange(p, TextRange(item)), PostambleRangeOf(item)), key, gone)
  }

  /** Where the postamble of the entry `item` was. */
  function PostambleRangeOf(item: RangeCacheItem): Range
  {
    Range(item.location + item.preambleLength + item.childrenLength + item.textLength, item.postambleLength)
  }

  /** Drops the next cache entry of `key` when `gone` holds. */
  function Forget(p: Pass, key: Key, gone: bool): (r: Pass)
    ensures r.cursor == p.cursor && r.deletes == p.deletes && r.inserts == p.inserts
    ensures r.cache == if gone then p.cache - {key} else p.cache
  {
    if gone then p.(cache := p.cache - {key}) else p
  }

  /** Records `range` for deletion. */
  function DeleteRange(p: Pass, range: Range): (r: Pass)
    ensures r.cursor == p.cursor && r.inserts == p.inserts && r.cache == p.cache
    ensures r.deletes == p.deletes + [range]
  {
    p.(deletes := p.deletes + [range])
  }

  /** `destroyChildren(cs, i, |cs| - 1)`. */
  ghost function DestroyChildren(env: Env, p: Pass, parent: Key, cs: seq<Key>, i: nat): (r: Pass)
    requires env.Valid()
    requires cs == ChildKeys(env.prev, parent) && i <= |cs|
    ensures r.cursor == p.cursor && r.inserts == p.inserts && p.deletes <= r.deletes
    ensures forall k :: k in r.cache ==> k in p.cache && r.cache[k] == p.cache[k]
    ensures forall k :: k in p.cache && k !in r.cache ==> k !in env.next && Below(env.prevRank, parent, k)
    decreases RankOf(env.prevRank, parent), 0, |cs| - i
  {
    if i == |cs| then p
    else
      ChildBelow(env.prev, env.prevRank, parent, cs[i]);
      DestroyChildren(env, Destroy(env, p, cs[i]), parent, cs, i + 1)
  }

  // ---------------------------------------------------------------- reconcileNode

  /** `reconcileNode(key)`. */
  ghost function Reconcile(env: Env, p: Pass, key: Key): (r: Pass)
    requires env.Valid()
    ensures r.cursor >= p.cursor
    decreases RankOf(env.prevRank, key), 4
  {
    if key !in env.prev || key !in env.next || key !in env.prevCache then p
    else if env.prev[key] == env.next[key] && !env.IsDirty(key) then
      var prevRange := env.prevCache[key];
      if prevRange.location != p.cursor then Restamp(env, p, key)
      else p.(cursor := p.cursor + Total(prevRange))
    else ReconcileChanged(env, p, key)
  }

  /** The part of `reconcileNode` after its fast path: the node is dirty or was replaced. */
  ghost function ReconcileChanged(env: Env, p: Pass, key: Key): (r: Pass)
    requires env.Valid() && key in env.next && key in env.prevCache
    ensures r.cursor >= p.cursor
    decreases RankOf(env.prevRank, key), 3
  {
    var prevRange := env.prevCache[key];
    var p1 := AddRemove(p, key, prevRange.location, prevRange.preambleLength, |env.next[key].preamble|, Preamble);
    ReconcileAfterPreamble(env, p, key, p1)
  }

  /** `ReconcileChanged` once the preamble is done and the state is `p1`: children, then the tail. */
  ghost function ReconcileAfterPreamble(env: Env, p: Pass, key: Key, p1: Pass): (r: Pass)
    requires env.Valid() && key in env.next && key in env.prevCache
    requires p1.cursor >= p.cursor
    ensures r.cursor >= p1.cursor
    decreases RankOf(env.prevRank, key), 2
  {
    var p2 := if env.next[key].IsElement() then ReconcileChildren(env, p1, key) else p1;
    ReconcileTail(p2, key, env.prevCache[key], env.next[key], p.cursor, p1.cursor)
  }

  /**
   * The end of `reconcileNode` for a changed node: text and postamble ranges,
   * then the new cache entry.
   */
  function ReconcileTail(p: Pass, key: Key, prevRange: RangeCacheItem, n: Node, location: nat, childrenStart: nat): (r: Pass)
    requires childrenStart <= p.cursor
    ensures r.cursor == p.cursor + |n.text| + |n.postamble|
  {
    var childrenLength := p.cursor - childrenStart;
    var textStart := prevRange.location + prevRange.preambleLength + prevRange.childrenLength;
    var p3 := AddRemove(p, key, textStart, prevRange.textLength, |n.text|, TextPart);
    var p4 := AddRemove(p3, key, textStart + prevRange.textLength, prevRange.postambleLength, |n.postamble|, Postamble);
    p4.(cache := p4.cache[key := RangeCacheItem(location, |n.preamble|, childrenLength, |n.text|, |n.postamble|)])
  }

  /** `reconcileChildren(key)`: diffs the child lists when the node is an element in both snapshots. */
  ghost function ReconcileChildren(env: Env, p: Pass, key: Key): (r: Pass)
    requires env.Valid()
    ensures r.cursor >= p.cursor
    decreases RankOf(env.prevRank, key), 1
  {
    if key !in env.prev || key !in env.next || !env.prev[key].IsElement() || !env.next[key].IsElement() then p
    else ScanChildren(env, p, key, ChildKeys(env.prev, key), ChildKeys(env.next, key), 0, 0)
  }

  /**
   * `reconcileNodeChildren` from pointers `prevIndex` and `nextIndex` on:
   * one turn of the two-pointer loop, or the tail once either list is used up.
   * Membership is tested against the whole child lists, as `reconcileNodeChildren` does.
   */
  ghost function ScanChildren(env: Env, p: Pass, parent: Key, prevChildren: seq<Key>, nextChildren: seq<Key>,
                              prevIndex: nat, nextIndex: nat): (r: Pass)
    requires env.Valid()
    requires prevChildren == ChildKeys(env.prev, parent) && nextChildren == ChildKeys(env.next, parent)
    requires prevIndex <= |prevChildren| && nextIndex <= |nextChildren|
    ensures r.cursor >= p.cursor
    decreases RankOf(env.prevRank, parent), 0, |prevChildren| - prevIndex + |nextChildren| - nextIndex
  {
    if prevIndex < |prevChildren| && nextIndex < |nextChildren| then
      var prevKey := prevChildren[prevIndex];
      var nextKey := nextChildren[nextIndex];
      if prevKey == nextKey then
        ChildBelow(env.prev, env.prevRank, parent, prevKey);
        ScanChildren(env, Reconcile(env, p, nextKey), parent, prevChildren, nextChildren, prevIndex + 1, nextIndex + 1)
      else if prevKey !in nextChildren then
        ScanChildren(env, Destroy(env, p, prevKey), parent, prevChildren, nextChildren, prevIndex + 1, nextIndex)
      else if nextKey !in prevChildren then
        ScanChildren(env, Create(env, p, nextKey), parent, prevChildren, nextChildren, prevIndex, nextIndex + 1)
      else
        ScanChildren(env, Create(env, Destroy(env, p, prevKey), nextKey), parent, prevChildren, nextChildren,
                     prevIndex + 1, nextIndex + 1)
    else
      var appendNewChildren := prevIndex >= |prevChildren|;
      var removeOldChildren := nextIndex >= |nextChildren|;
      if appendNewChildren && !removeOldChildren then CreateChildren(env, p, parent, nextChildren, nextIndex)
      else if removeOldChildren && !appendNewChildren then DestroyChildren(env, p, parent, prevChildren, prevIndex)
      else p
  }

  // ---------------------------------------------------------------- updateEditorState

  /** What the frontend sees and when the range cache is committed, in order. */
  datatype Event =
    | StartEditing
    | Delete(location: nat, length: nat)
    | Insert(s: Utf16, location: nat)
    | CommitRangeCache
    | EndEditing

  /** `stringFromInsertion`: the part of the node the insertion names, or the empty string for a missing node. */
  function StringFromInsertion(insertion: Insertion, nodeMap: Snapshot): (s: Utf16)
    ensures insertion.nodeKey !in nodeMap ==> s == []
    ensures insertion.nodeKey in nodeMap ==>
      var node := nodeMap[insertion.nodeKey];
      && (insertion.part == Preamble ==> s == node.preamble)
      && (insertion.part == TextPart ==> s == node.text)
      && (insertion.part == Postamble ==> s == node.postamble)
  {
    if insertion.nodeKey !in nodeMap then []
    else
      var node := nodeMap[insertion.nodeKey];
      match insertion.part
      case Preamble => node.preamble
      case TextPart => node.text
      case Postamble => node.postamble
  }

  function Reverse<T>(s: seq<T>): seq<T>
  {
    if s == [] then [] else Reverse(s[1..]) + [s[0]]
  }

  /** The delete calls for `ranges`, in the given order, skipping empty ranges. */
  function DeleteCalls(ranges: seq<Range>): seq<Event>
  {
    if ranges == [] then []
    else
      var last := ranges[|ranges| - 1];
      DeleteCalls(ranges[..|ranges| - 1]) + (if last.length > 0 then [Delete(last.location, last.length)] else [])
  }

  /** The insert calls for `insertions`, in the given order, skipping empty strings. */
  function InsertCalls(insertions: seq<Insertion>, nodeMap: Snapshot): seq<Event>
  {
    if insertions == [] then []
    else
      var last := insertions[|insertions| - 1];
      var s := StringFromInsertion(last, nodeMap);
      InsertCalls(insertions[..|insertions| - 1], nodeMap) + (if |s| > 0 then [Insert(s, last.location)] else [])
  }

  /** The delete calls for one more range: those for the prefix, then the call for the range if it is not empty. */
  lemma DeleteCallsSnoc(ranges: seq<Range>, i: nat)
    requires i < |ranges|
    ensures DeleteCalls(ranges[..i + 1])
         == DeleteCalls(ranges[..i]) + (if ranges[i].length > 0 then [Delete(ranges[i].location, ranges[i].length)] else [])
  {
    assert ranges[..i + 1][..i] == ranges[..i];
  }

  /** The insert calls for one more insertion: those for the prefix, then the call for its string if it is not empty. */
  lemma InsertCallsSnoc(insertions: seq<Insertion>, i: nat, nodeMap: Snapshot)
    requires i < |insertions|
    ensures var s := StringFromInsertion(insertions[i], nodeMap);
      InsertCalls(insertions[..i + 1], nodeMap)
         == InsertCalls(insertions[..i], nodeMap) + (if |s| > 0 then [Insert(s, insertions[i].location)] else [])
  {
    assert insertions[..i + 1][..i] == insertions[..i];
  }

  /** The state a pass starts from: cursor 0, nothing recorded, the next cache a copy of the committed one. */
  function InitialPass(committed: RangeCache): (p: Pass)
  {
    Pass(0, [], [], committed)
  }

  /** The events of `updateEditorState` once the root has been reconciled into `p`. */
  function Replay(p: Pass, next: Snapshot): (events: seq<Event>)
  {
    [StartEditing] + DeleteCalls(Reverse(p.deletes)) + InsertCalls(p.inserts, next) + [CommitRangeCache, EndEditing]
  }
}
