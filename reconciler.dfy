/**
 * The reconciler as the TypeScript code runs it: a `ReconcilerState` object whose
 * procedures move `locationCursor`, push onto `rangesToDelete` and
 * `rangesToAdd` and update `nextRangeCache` in place. Each procedure is
 * proved to leave the state that the matching function of `ReconcileSpec`
 * computes from the state it started in.
 */
module Reconciler {
  import opened Types
  import opened Children
  import opened Ranges
  import opened ReconcileSpec

  class ReconcilerState {
    const prevEditorState: Snapshot
    const nextEditorState: Snapshot
    const prevRangeCache: RangeCache
    var nextRangeCache: RangeCache
    var locationCursor: nat
    var rangesToDelete: seq<Range>
    var rangesToAdd: seq<Insertion>
    const dirtyLeaves: set<Key>
    const dirtyElements: map<Key, bool>
    ghost const prevRank: map<Key, nat>
    ghost const nextRank: map<Key, nat>

    /** The part of the state a pass only reads. */
    ghost function Inputs(): Env
    {
      ReconcileSpec.Env(prevEditorState, nextEditorState, prevRangeCache, dirtyLeaves, dirtyElements, prevRank, nextRank)
    }

    ghost predicate Valid()
    {
      Inputs().Valid()
    }

    /** The part of the state a pass changes. */
    ghost function Current(): Pass
      reads this
    {
      Pass(locationCursor, rangesToDelete, rangesToAdd, nextRangeCache)
    }

    /** The state `updateEditorState` sets up: the next cache starts as a copy of the committed one. */
    constructor (prevEditorState: Snapshot, nextEditorState: Snapshot, rangeCache: RangeCache,
                 dirtyLeaves: set<Key>, dirtyElements: map<Key, bool>,
                 ghost prevRank: map<Key, nat>, ghost nextRank: map<Key, nat>)
      ensures Inputs() == ReconcileSpec.Env(prevEditorState, nextEditorState, rangeCache, dirtyLeaves, dirtyElements, prevRank, nextRank)
      ensures Current() == InitialPass(rangeCache)
    {
      this.prevEditorState := prevEditorState;
      this.nextEditorState := nextEditorState;
      this.prevRangeCache := rangeCache;
      this.nextRangeCache := rangeCache;
      this.locationCursor := 0;
      this.rangesToDelete := [];
      this.rangesToAdd := [];
      this.dirtyLeaves := dirtyLeaves;
      this.dirtyElements := dirtyElements;
      this.prevRank := prevRank;
      this.nextRank := nextRank;
    }

    /** `createAddRemoveRanges`. */
    method CreateAddRemoveRanges(key: Key, prevLocation: nat, prevLength: nat, nextLength: nat, part: NodePart)
      modifies this
      ensures Current() == AddRemove(old(Current()), key, prevLocation, prevLength, nextLength, part)
      ensures rangesToDelete == old(rangesToDelete) + (if prevLength > 0 then [Range(prevLocation, prevLength)] else [])
      ensures rangesToAdd == old(rangesToAdd) + (if nextLength > 0 then [Insertion(old(locationCursor), key, part)] else [])
      ensures locationCursor == old(locationCursor) + nextLength
      ensures nextRangeCache == old(nextRangeCache)
    {
      if prevLength > 0 {
        rangesToDelete := rangesToDelete + [Range(prevLocation, prevLength)];
      }
      if nextLength > 0 {
        rangesToAdd := rangesToAdd + [Insertion(locationCursor, key, part)];
      }
      locationCursor := locationCursor + nextLength;
    }

    /** `reconcileNode`. */
    method ReconcileNode(key: Key)
      requires Valid()
      modifies this
      ensures Current() == Reconcile(Inputs(), old(Current()), key)
      decreases RankOf(prevRank, key), 2
    {
      if key !in prevEditorState || key !in nextEditorState || key !in prevRangeCache {
        return;
      }
      var prevNode := prevEditorState[key];
      var nextNode := nextEditorState[key];
      var prevRange := prevRangeCache[key];
      var isDirty := key in dirtyElements || key in dirtyLeaves;
      if prevNode == nextNode && !isDirty {
        if prevRange.location != locationCursor {
          UpdateLocationOfNonDirtyNode(key);
        } else {
          locationCursor := locationCursor + Total(prevRange);
        }
        return;
      }
      ghost var p0 := Current();
      var location := locationCursor;
      var nextPreambleLength := |nextNode.preamble|;
      CreateAddRemoveRanges(key, prevRange.location, prevRange.preambleLength, nextPreambleLength, Preamble);
      ghost var p1 := Current();
      var cursorBeforeChildren := locationCursor;
      if nextNode.IsElement() {
        ReconcileChildren(key);
      }
      ghost var p2 := Current();
      assert p2 == if nextNode.IsElement() then ReconcileSpec.ReconcileChildren(Inputs(), p1, key) else p1;
      ReconcileNodeTail(key, prevRange, nextNode, location, cursorBeforeChildren);
      assert Current() == ReconcileAfterPreamble(Inputs(), p0, key, p1);
    }

    /** The end of `reconcileNode` for a changed node: text and postamble ranges, then the cache entry. */
    method ReconcileNodeTail(key: Key, prevRange: RangeCacheItem, nextNode: Node, location: nat, cursorBeforeChildren: nat)
      requires cursorBeforeChildren <= locationCursor
      modifies this
      ensures Current() == ReconcileTail(old(Current()), key, prevRange, nextNode, location, cursorBeforeChildren)
    {
      var childrenLength := locationCursor - cursorBeforeChildren;
      var nextTextLength := |nextNode.text|;
      CreateAddRemoveRanges(key, prevRange.location + prevRange.preambleLength + prevRange.childrenLength,
                            prevRange.textLength, nextTextLength, TextPart);
      var nextPostambleLength := |nextNode.postamble|;
      CreateAddRemoveRanges(key, prevRange.location + prevRange.preambleLength + prevRange.childrenLength + prevRange.textLength,
                            prevRange.postambleLength, nextPostambleLength, Postamble);
      nextRangeCache := nextRangeCache[key := RangeCacheItem(location, |nextNode.preamble|, childrenLength,
                                                             nextTextLength, nextPostambleLength)];
    }

    /** `updateLocationOfNonDirtyNode`. */
    method UpdateLocationOfNonDirtyNode(key: Key)
      requires Valid()
      modifies this
      ensures Current() == Restamp(Inputs(), old(Current()), key)
      decreases RankOf(nextRank, key), 1
    {
      if key !in prevRangeCache {
        return;
      }
      var prevRangeCacheItem := prevRangeCache[key];
      var nextRangeCacheItem := prevRangeCacheItem.(location := locationCursor);
      nextRangeCache := nextRangeCache[key := nextRangeCacheItem];
      assert Current() == Relocate(old(Current()), key, prevRangeCacheItem);
      if key !in nextEditorState {
        return;
      }
      var nextNode := nextEditorState[key];
      locationCursor := locationCursor + nextRangeCacheItem.preambleLength;
      ghost var p2 := Current();
      assert p2 == Advance(Relocate(old(Current()), key, prevRangeCacheItem), prevRangeCacheItem.preambleLength);
      if nextNode.IsElement() {
        var children := ChildKeys(nextEditorState, key);
        for i := 0 to |children|
          invariant RestampChildren(Inputs(), Current(), key, children, i) == RestampChildren(Inputs(), p2, key, children, 0)
        {
          ChildBelow(nextEditorState, nextRank, key, children[i]);
          UpdateLocationOfNonDirtyNode(children[i]);
        }
      }
      locationCursor := locationCursor + nextRangeCacheItem.textLength;
      locationCursor := locationCursor + nextRangeCacheItem.postambleLength;
      assert Current() == RestampAfterPreamble(Inputs(), key, p2);
    }

    /** `reconcileChildren`. */
    method ReconcileChildren(key: Key)
      requires Valid()
      modifies this
      ensures Current() == ReconcileSpec.ReconcileChildren(Inputs(), old(Current()), key)
      decreases RankOf(prevRank, key), 1
    {
      if key !in prevEditorState || key !in nextEditorState {
        return;
      }
      var prevNode := prevEditorState[key];
      var nextNode := nextEditorState[key];
      if !prevNode.IsElement() || !nextNode.IsElement() {
        return;
      }
      var prevChildren := CreateChildrenArray(prevNode, prevEditorState);
      var nextChildren := CreateChildrenArray(nextNode, nextEditorState);
      ReconcileNodeChildren(prevChildren.value, nextChildren.value, |prevChildren.value|, |nextChildren.value|, key);
    }

    /** `reconcileNodeChildren`: the two-pointer scan over the previous and next child lists of `parent`. */
    method ReconcileNodeChildren(prevChildren: seq<Key>, nextChildren: seq<Key>,
                                 prevChildrenLength: nat, nextChildrenLength: nat, ghost parent: Key)
      requires Valid()
      requires prevChildren == ChildKeys(prevEditorState, parent) && nextChildren == ChildKeys(nextEditorState, parent)
      requires prevChildrenLength == |prevChildren| && nextChildrenLength == |nextChildren|
      modifies this
      ensures Current() == ScanChildren(Inputs(), old(Current()), parent, prevChildren, nextChildren, 0, 0)
      decreases RankOf(prevRank, parent), 0
    {
      var prevEndIndex := prevChildrenLength - 1;
      var nextEndIndex := nextChildrenLength - 1;
      var prevIndex := 0;
      var nextIndex := 0;
      while prevIndex <= prevEndIndex && nextIndex <= nextEndIndex
        invariant 0 <= prevIndex <= |prevChildren| && 0 <= nextIndex <= |nextChildren|
        invariant ScanChildren(Inputs(), Current(), parent, prevChildren, nextChildren, prevIndex, nextIndex)
               == ScanChildren(Inputs(), old(Current()), parent, prevChildren, nextChildren, 0, 0)
        decreases |prevChildren| - prevIndex + |nextChildren| - nextIndex
      {
        var prevKey := prevChildren[prevIndex];
        var nextKey := nextChildren[nextIndex];
        if prevKey == nextKey {
          ChildBelow(prevEditorState, prevRank, parent, prevKey);
          ReconcileNode(nextKey);
          prevIndex := prevIndex + 1;
          nextIndex := nextIndex + 1;
        } else {
          var nextHasPrevKey := prevKey in nextChildren;
          var prevHasNextKey := nextKey in prevChildren;
          if !nextHasPrevKey {
            DestroyNode(prevKey);
            prevIndex := prevIndex + 1;
          } else if !prevHasNextKey {
            CreateNode(nextKey);
            nextIndex := nextIndex + 1;
          } else {
            DestroyNode(prevKey);
            CreateNode(nextKey);
            prevIndex := prevIndex + 1;
            nextIndex := nextIndex + 1;
          }
        }
      }
      var appendNewChildren := prevIndex > prevEndIndex;
      var removeOldChildren := nextIndex > nextEndIndex;
      if appendNewChildren && !removeOldChildren {
        CreateChildren(nextChildren, nextIndex, nextEndIndex, parent);
      } else if removeOldChildren && !appendNewChildren {
        DestroyChildren(prevChildren, prevIndex, prevEndIndex, parent);
      }
    }

    /** `destroyNode`. */
    method DestroyNode(key: Key)
      requires Valid()
      modifies this
      ensures Current() == Destroy(Inputs(), old(Current()), key)
      decreases RankOf(prevRank, key), 1
    {
      if key !in prevEditorState || key !in prevRangeCache {
        return;
      }
      var prevNode := prevEditorState[key];
      var prevRangeCacheItem := prevRangeCache[key];
      rangesToDelete := rangesToDelete + [Range(prevRangeCacheItem.location, prevRangeCacheItem.preambleLength)];
      ghost var p1 := Current();
      assert p1 == DeleteRange(old(Current()), Range(prevRangeCacheItem.location, prevRangeCacheItem.preambleLength));
      ghost var children := ChildKeys(prevEditorState, key);
      if prevNode.IsElement() {
        var childrenArray := CreateChildrenArray(prevNode, prevEditorState);
        if |childrenArray.value| > 0 {
          DestroyChildren(childrenArray.value, 0, |childrenArray.value| - 1, key);
        }
      }
      ghost var p2 := Current();
      assert p2 == if prevNode.IsElement() && |children| > 0
                   then ReconcileSpec.DestroyChildren(Inputs(), p1, key, children, 0) else p1;
      DestroyNodeTail(key, prevRangeCacheItem);
    }

    /** The end of `destroyNode`: the text and postamble ranges, then the entry is dropped if the node is gone. */
    method DestroyNodeTail(key: Key, prevRangeCacheItem: RangeCacheItem)
      modifies this
      ensures Current() == DestroyTail(old(Current()), key, prevRangeCacheItem, key !in nextEditorState)
    {
      rangesToDelete := rangesToDelete + [TextRange(prevRangeCacheItem)];
      rangesToDelete := rangesToDelete + [PostambleRangeOf(prevRangeCacheItem)];
      if key !in nextEditorState {
        nextRangeCache := nextRangeCache - {key};
      }
    }

    /** `createNode`; the children come from `getChildrenKeys()`. */
    method CreateNode(key: Key)
      requires Valid()
      modifies this
      ensures Current() == Create(Inputs(), old(Current()), key)
      decreases RankOf(nextRank, key), 1
    {
      if key !in nextEditorState {
        return;
      }
      ghost var p0 := Current();
      var nextNode := nextEditorState[key];
      var location := locationCursor;
      var nextPreambleLength := |nextNode.preamble|;
      rangesToAdd := rangesToAdd + [Insertion(locationCursor, key, Preamble)];
      locationCursor := locationCursor + nextPreambleLength;
      ghost var p1 := Current();
      assert p1 == Push(p0, key, Preamble, nextPreambleLength);
      var children := ChildKeys(nextEditorState, key);
      var cursorBeforeChildren := locationCursor;
      if nextNode.IsElement() && |children| > 0 {
        CreateChildren(children, 0, |children| - 1, key);
      }
      ghost var p2 := Current();
      assert p2 == if nextNode.IsElement() && |children| > 0
                   then ReconcileSpec.CreateChildren(Inputs(), p1, key, children, 0) else p1;
      CreateNodeTail(key, nextNode, location, cursorBeforeChildren);
      assert Current() == CreateAfterPreamble(Inputs(), p0, key, p1);
    }

    /** The end of `createNode`: text and postamble insertions, then the cache entry. */
    method CreateNodeTail(key: Key, nextNode: Node, location: nat, cursorBeforeChildren: nat)
      requires cursorBeforeChildren <= locationCursor
      modifies this
      ensures Current() == CreateTail(old(Current()), key, nextNode, location, cursorBeforeChildren)
    {
      var childrenLength := locationCursor - cursorBeforeChildren;
      var nextTextLength := |nextNode.text|;
      rangesToAdd := rangesToAdd + [Insertion(locationCursor, key, TextPart)];
      locationCursor := locationCursor + nextTextLength;
      var nextPostambleLength := |nextNode.postamble|;
      rangesToAdd := rangesToAdd + [Insertion(locationCursor, key, Postamble)];
      locationCursor := locationCursor + nextPostambleLength;
      nextRangeCache := nextRangeCache[key := RangeCacheItem(location, |nextNode.preamble|, childrenLength,
                                                             nextTextLength, nextPostambleLength)];
    }

    /** `createChildren(children, startIndex, endIndex)`, always called up to the last child. */
    method CreateChildren(children: seq<Key>, startIndex: nat, endIndex: int, ghost parent: Key)
      requires Valid()
      requires children == ChildKeys(nextEditorState, parent)
      requires startIndex <= |children| && endIndex == |children| - 1
      modifies this
      ensures Current() == ReconcileSpec.CreateChildren(Inputs(), old(Current()), parent, children, startIndex)
      decreases RankOf(nextRank, parent), 0
    {
      for i := startIndex to endIndex + 1
        invariant ReconcileSpec.CreateChildren(Inputs(), Current(), parent, children, i)
               == ReconcileSpec.CreateChildren(Inputs(), old(Current()), parent, children, startIndex)
      {
        ChildBelow(nextEditorState, nextRank, parent, children[i]);
        ghost var before := Current();
        CreateNode(children[i]);
        assert ReconcileSpec.CreateChildren(Inputs(), before, parent, children, i)
            == ReconcileSpec.CreateChildren(Inputs(), Current(), parent, children, i + 1);
      }
    }

    /** `destroyChildren(children, startIndex, endIndex)`, always called up to the last child. */
    method DestroyChildren(children: seq<Key>, startIndex: nat, endIndex: int, ghost parent: Key)
      requires Valid()
      requires children == ChildKeys(prevEditorState, parent)
      requires startIndex <= |children| && endIndex == |children| - 1
      modifies this
      ensures Current() == ReconcileSpec.DestroyChildren(Inputs(), old(Current()), parent, children, startIndex)
      decreases RankOf(prevRank, parent), 0
    {
      for i := startIndex to endIndex + 1
        invariant ReconcileSpec.DestroyChildren(Inputs(), Current(), parent, children, i)
               == ReconcileSpec.DestroyChildren(Inputs(), old(Current()), parent, children, startIndex)
      {
        ChildBelow(prevEditorState, prevRank, parent, children[i]);
        ghost var before := Current();
        DestroyNode(children[i]);
        assert ReconcileSpec.DestroyChildren(Inputs(), before, parent, children, i)
            == ReconcileSpec.DestroyChildren(Inputs(), Current(), parent, children, i + 1);
      }
    }
  }
}
