/**
 * Where a reconciliation pass leaves the cache entries. If the committed
 * cache places the previous tree (every entry at its node's offset in the
 * flat text, with its lengths), the cache a pass from the root builds places
 * the next tree in the same way. A clean subtree that has moved keeps its old
 * entries, each moved to the cursor at which it is restamped.
 *
 * The proof follows the recursion of `ReconcileSpec`. Each step changes the
 * next cache only inside the subtree it works on (the frame lemmas). The
 * subtrees of different children of a node share no key (`Tree`), so a later
 * sibling cannot undo what an earlier one placed.
 */
module ReconcilePlacement {
  import opened Types
  import opened Children
  import opened ReconcileSpec
  import opened ReconcileLemmas

  /** From `c1` to `c2`, the entries of keys of the next snapshot change only inside `keys`. */
  ghost predicate ChangesWithin(env: Env, c1: RangeCache, c2: RangeCache, keys: set<Key>)
  {
    forall k :: k in env.next && !SameAt(c1, c2, k) ==> k in keys
  }

  /** `c1` and `c2` agree at every key of `keys` that is a node of `nodeMap`. */
  ghost predicate AgreeOn(nodeMap: Snapshot, c1: RangeCache, c2: RangeCache, keys: set<Key>)
  {
    forall k :: k in keys && k in nodeMap ==> SameAt(c1, c2, k)
  }

  /**
   * Every node of the next snapshot among `keys` has, in `cache`, its
   * committed entry with only the location changed.
   */
  ghost predicate Relocated(env: Env, cache: RangeCache, keys: set<Key>)
  {
    forall k :: k in keys && k in env.next ==>
      && k in env.prevCache && k in cache
      && cache[k] == env.prevCache[k].(location := cache[k].location)
  }

  // ---------------------------------------------------------------- small facts about caches

  lemma ChangesCompose(env: Env, c1: RangeCache, c2: RangeCache, c3: RangeCache, s1: set<Key>, s2: set<Key>)
    requires ChangesWithin(env, c1, c2, s1) && ChangesWithin(env, c2, c3, s2)
    ensures ChangesWithin(env, c1, c3, s1 + s2)
  {
    forall k | k in env.next && !SameAt(c1, c3, k)
      ensures k in s1 + s2
    {
      assert !SameAt(c1, c2, k) || !SameAt(c2, c3, k);
    }
  }

  /** Entries that agree with `c0` on `keys` still do after changes that stay outside `keys`. */
  lemma AgreeAfter(env: Env, c0: RangeCache, c1: RangeCache, c2: RangeCache, changed: set<Key>, keys: set<Key>)
    requires AgreeOn(env.next, c1, c0, keys) && ChangesWithin(env, c1, c2, changed) && changed !! keys
    ensures AgreeOn(env.next, c2, c0, keys)
  {
    forall k | k in keys && k in env.next
      ensures SameAt(c2, c0, k)
    {
      assert k !in changed;
      assert SameAt(c1, c2, k);
    }
  }

  /** Changes that stay outside `keys` leave the entries of `keys` as they were. */
  lemma AgreeOutside(env: Env, c1: RangeCache, c2: RangeCache, changed: set<Key>, keys: set<Key>)
    requires ChangesWithin(env, c1, c2, changed) && changed !! keys
    ensures AgreeOn(env.next, c1, c2, keys)
  {
    forall k | k in keys && k in env.next
      ensures SameAt(c1, c2, k)
    {
      assert k !in changed;
    }
  }

  /** `destroyNode` drops only entries of keys gone from the next snapshot. */
  lemma DestroyKeepsNext(env: Env, p: Pass, key: Key)
    requires env.Valid()
    ensures ChangesWithin(env, p.cache, Destroy(env, p, key).cache, {})
  {
    var r := Destroy(env, p, key);
    forall k | k in env.next
      ensures SameAt(p.cache, r.cache, k)
    {
      if k in p.cache {
        assert k in r.cache;
      }
    }
  }

  lemma DestroyChildrenKeepsNext(env: Env, p: Pass, parent: Key, cs: seq<Key>, i: nat)
    requires env.Valid() && cs == ChildKeys(env.prev, parent) && i <= |cs|
    ensures ChangesWithin(env, p.cache, DestroyChildren(env, p, parent, cs, i).cache, {})
  {
    var r := DestroyChildren(env, p, parent, cs, i);
    forall k | k in env.next
      ensures SameAt(p.cache, r.cache, k)
    {
      if k in p.cache {
        assert k in r.cache;
      }
    }
  }

  /** No key below `key` is `key` itself. */
  lemma NotInChildrenSubtrees(nodeMap: Snapshot, rank: map<Key, nat>, key: Key)
    requires WellFormed(nodeMap, rank)
    ensures key !in ChildrenSubtrees(nodeMap, rank, key, ChildKeys(nodeMap, key), 0)
  {
    if key in ChildrenSubtrees(nodeMap, rank, key, ChildKeys(nodeMap, key), 0) {
      ChildrenSubtreesBelow(nodeMap, rank, key, ChildKeys(nodeMap, key), 0, key);
    }
  }

  // ---------------------------------------------------------------- placement survives unrelated changes

  /** Placement of a subtree depends only on the entries of its keys. */
  lemma {:induction false} PlacedAtFrame(nodeMap: Snapshot, rank: map<Key, nat>, c1: RangeCache, c2: RangeCache,
                                         key: Key, location: nat)
    requires WellFormed(nodeMap, rank)
    requires AgreeOn(nodeMap, c1, c2, Subtree(nodeMap, rank, key))
    requires PlacedAt(nodeMap, rank, c1, key, location)
    ensures PlacedAt(nodeMap, rank, c2, key, location)
    decreases RankOf(rank, key), 1
  {
    if key in nodeMap {
      ChildrenPlacedAtFrame(nodeMap, rank, c1, c2, key, ChildKeys(nodeMap, key), 0, location + |nodeMap[key].preamble|);
    }
  }

  lemma {:induction false} ChildrenPlacedAtFrame(nodeMap: Snapshot, rank: map<Key, nat>, c1: RangeCache, c2: RangeCache,
                                                 parent: Key, cs: seq<Key>, i: nat, location: nat)
    requires WellFormed(nodeMap, rank)
    requires cs == ChildKeys(nodeMap, parent) && i <= |cs|
    requires AgreeOn(nodeMap, c1, c2, ChildrenSubtrees(nodeMap, rank, parent, cs, i))
    requires ChildrenPlacedAt(nodeMap, rank, c1, parent, cs, i, location)
    ensures ChildrenPlacedAt(nodeMap, rank, c2, parent, cs, i, location)
    decreases RankOf(rank, parent), 0, |cs| - i
  {
    if i < |cs| {
      ChildBelow(nodeMap, rank, parent, cs[i]);
      PlacedAtFrame(nodeMap, rank, c1, c2, cs[i], location);
      ChildrenPlacedAtFrame(nodeMap, rank, c1, c2, parent, cs, i + 1, location + |FlatText(nodeMap, rank, cs[i])|);
    }
  }

  /** Every node of a placed subtree is placed, so its entry fits it. */
  lemma {:induction false} SubtreePlaced(nodeMap: Snapshot, rank: map<Key, nat>, cache: RangeCache, key: Key, k: Key)
    requires WellFormed(nodeMap, rank) && Placed(nodeMap, rank, cache, key)
    requires k in Subtree(nodeMap, rank, key)
    ensures Placed(nodeMap, rank, cache, k) && FitsAt(nodeMap, rank, cache, k)
    decreases RankOf(rank, key)
  {
    PlacedChildren(nodeMap, rank, cache, key);
    if k != key {
      var cs := ChildKeys(nodeMap, key);
      var j := InChildrenSubtrees(nodeMap, rank, key, cs, 0, k);
      ChildBelow(nodeMap, rank, key, cs[j]);
      SubtreePlaced(nodeMap, rank, cache, cs[j], k);
    }
  }

  // ---------------------------------------------------------------- frames of the passes

  /** `createNode(key)` changes entries only inside the next subtree of `key`. */
  lemma {:induction false} CreateFrame(env: Env, p: Pass, key: Key)
    requires env.Valid()
    ensures ChangesWithin(env, p.cache, Create(env, p, key).cache, Subtree(env.next, env.nextRank, key))
    decreases RankOf(env.nextRank, key), 1
  {
    if key in env.next {
      var n := env.next[key];
      var cs := ChildKeys(env.next, key);
      var p1 := Push(p, key, Preamble, |n.preamble|);
      var p2 := if n.IsElement() && |cs| > 0 then CreateChildren(env, p1, key, cs, 0) else p1;
      var r := CreateTail(p2, key, n, p.cursor, p1.cursor);
      assert Create(env, p, key) == r;
      if n.IsElement() && |cs| > 0 {
        CreateChildrenFrame(env, p1, key, cs, 0);
      }
      assert ChangesWithin(env, p.cache, p2.cache, ChildrenSubtrees(env.next, env.nextRank, key, cs, 0));
      assert ChangesWithin(env, p2.cache, r.cache, {key});
      SubtreeStep(env.next, env.nextRank, key);
      SubtreeStep(env.next, env.nextRank, key);
    ChangesCompose(env, p.cache, p2.cache, r.cache, ChildrenSubtrees(env.next, env.nextRank, key, cs, 0), {key});
    }
  }

  lemma {:induction false} CreateChildrenFrame(env: Env, p: Pass, parent: Key, cs: seq<Key>, i: nat)
    requires env.Valid() && cs == ChildKeys(env.next, parent) && i <= |cs|
    ensures ChangesWithin(env, p.cache, CreateChildren(env, p, parent, cs, i).cache,
                          ChildrenSubtrees(env.next, env.nextRank, parent, cs, i))
    decreases RankOf(env.nextRank, parent), 0, |cs| - i
  {
    if i < |cs| {
      ChildBelow(env.next, env.nextRank, parent, cs[i]);
      var q := Create(env, p, cs[i]);
      CreateFrame(env, p, cs[i]);
      CreateChildrenFrame(env, q, parent, cs, i + 1);
      ChildrenSubtreesStep(env.next, env.nextRank, parent, cs, i);
      ChangesCompose(env, p.cache, q.cache, CreateChildren(env, q, parent, cs, i + 1).cache,
                     Subtree(env.next, env.nextRank, cs[i]), ChildrenSubtrees(env.next, env.nextRank, parent, cs, i + 1));
    }
  }

  /** `updateLocationOfNonDirtyNode(key)` changes entries only inside the next subtree of `key`. */
  lemma {:induction false} RestampFrame(env: Env, p: Pass, key: Key)
    requires env.Valid()
    ensures ChangesWithin(env, p.cache, Restamp(env, p, key).cache, Subtree(env.next, env.nextRank, key))
    decreases RankOf(env.nextRank, key), 1
  {
    if key in env.prevCache && key in env.next {
      var cs := ChildKeys(env.next, key);
      var p1 := Relocate(p, key, env.prevCache[key]);
      var p2 := Advance(p1, env.prevCache[key].preambleLength);
      var r := Restamp(env, p, key);
      assert r == RestampAfterPreamble(env, key, p2);
      assert ChangesWithin(env, p.cache, p2.cache, {key});
      if env.next[key].IsElement() {
        RestampChildrenFrame(env, p2, key, cs, 0);
        assert r.cache == RestampChildren(env, p2, key, cs, 0).cache;
      } else {
        assert r.cache == p2.cache;
      }
      assert ChangesWithin(env, p2.cache, r.cache, ChildrenSubtrees(env.next, env.nextRank, key, cs, 0));
      SubtreeStep(env.next, env.nextRank, key);
      ChangesCompose(env, p.cache, p2.cache, r.cache, {key}, ChildrenSubtrees(env.next, env.nextRank, key, cs, 0));
    }
  }

  lemma {:induction false} RestampChildrenFrame(env: Env, p: Pass, parent: Key, cs: seq<Key>, i: nat)
    requires env.Valid() && cs == ChildKeys(env.next, parent) && i <= |cs|
    ensures ChangesWithin(env, p.cache, RestampChildren(env, p, parent, cs, i).cache,
                          ChildrenSubtrees(env.next, env.nextRank, parent, cs, i))
    decreases RankOf(env.nextRank, parent), 0, |cs| - i
  {
    if i < |cs| {
      ChildBelow(env.next, env.nextRank, parent, cs[i]);
      var q := Restamp(env, p, cs[i]);
      RestampFrame(env, p, cs[i]);
      RestampChildrenFrame(env, q, parent, cs, i + 1);
      ChildrenSubtreesStep(env.next, env.nextRank, parent, cs, i);
      ChangesCompose(env, p.cache, q.cache, RestampChildren(env, q, parent, cs, i + 1).cache,
                     Subtree(env.next, env.nextRank, cs[i]), ChildrenSubtrees(env.next, env.nextRank, parent, cs, i + 1));
    }
  }

  /** `reconcileNode(key)` changes entries of the next snapshot only inside the next subtree of `key`. */
  lemma {:induction false} ReconcileFrame(env: Env, p: Pass, key: Key)
    requires env.Valid()
    ensures ChangesWithin(env, p.cache, Reconcile(env, p, key).cache, Subtree(env.next, env.nextRank, key))
    decreases RankOf(env.prevRank, key), 2
  {
    if key in env.prev && key in env.next && key in env.prevCache {
      if env.prev[key] == env.next[key] && !env.IsDirty(key) {
        if env.prevCache[key].location != p.cursor {
          RestampFrame(env, p, key);
        }
      } else {
        assert Reconcile(env, p, key) == ReconcileChanged(env, p, key);
        ChangedFrame(env, p, key);
      }
    }
  }

  lemma {:induction false} ChangedFrame(env: Env, p: Pass, key: Key)
    requires env.Valid() && key in env.prev && key in env.next && key in env.prevCache
    ensures ChangesWithin(env, p.cache, ReconcileChanged(env, p, key).cache, Subtree(env.next, env.nextRank, key))
    decreases RankOf(env.prevRank, key), 1
  {
    var prevRange := env.prevCache[key];
    var n := env.next[key];
    var cs := ChildKeys(env.next, key);
    var p1 := AddRemove(p, key, prevRange.location, prevRange.preambleLength, |n.preamble|, Preamble);
    var p2 := if n.IsElement() then ReconcileChildren(env, p1, key) else p1;
    var r := ReconcileTail(p2, key, prevRange, n, p.cursor, p1.cursor);
    assert ReconcileChanged(env, p, key) == ReconcileAfterPreamble(env, p, key, p1) == r;
    if n.IsElement() && env.prev[key].IsElement() {
      ScanFrame(env, p1, key, ChildKeys(env.prev, key), cs, 0, 0);
    }
    assert ChangesWithin(env, p.cache, p2.cache, ChildrenSubtrees(env.next, env.nextRank, key, cs, 0));
    assert ChangesWithin(env, p2.cache, r.cache, {key});
    SubtreeStep(env.next, env.nextRank, key);
    ChangesCompose(env, p.cache, p2.cache, r.cache, ChildrenSubtrees(env.next, env.nextRank, key, cs, 0), {key});
  }

  /** The hypotheses of one turn of the scan over the children of `parent`. */
  ghost predicate ScanTurn(env: Env, parent: Key, prevChildren: seq<Key>, nextChildren: seq<Key>, prevIndex: nat, nextIndex: nat)
  {
    && env.Valid()
    && prevChildren == ChildKeys(env.prev, parent) && nextChildren == ChildKeys(env.next, parent)
    && prevIndex < |prevChildren| && nextIndex < |nextChildren|
  }

  /**
   * The scan over the children of `parent` changes entries only inside the
   * subtrees of the next children it has yet to visit.
   */
  lemma {:induction false} ScanFrame(env: Env, p: Pass, parent: Key, prevChildren: seq<Key>, nextChildren: seq<Key>,
                                     prevIndex: nat, nextIndex: nat)
    requires env.Valid()
    requires prevChildren == ChildKeys(env.prev, parent) && nextChildren == ChildKeys(env.next, parent)
    requires prevIndex <= |prevChildren| && nextIndex <= |nextChildren|
    ensures ChangesWithin(env, p.cache, ScanChildren(env, p, parent, prevChildren, nextChildren, prevIndex, nextIndex).cache,
                          ChildrenSubtrees(env.next, env.nextRank, parent, nextChildren, nextIndex))
    decreases RankOf(env.prevRank, parent), 0, |prevChildren| - prevIndex + |nextChildren| - nextIndex, 1
  {
    if prevIndex < |prevChildren| && nextIndex < |nextChildren| {
      var prevKey := prevChildren[prevIndex];
      var nextKey := nextChildren[nextIndex];
      if prevKey == nextKey {
        KeptChildFrame(env, p, parent, prevChildren, nextChildren, prevIndex, nextIndex);
      } else if prevKey !in nextChildren {
        RemovedChildFrame(env, p, parent, prevChildren, nextChildren, prevIndex, nextIndex);
      } else if nextKey !in prevChildren {
        InsertedChildFrame(env, p, parent, prevChildren, nextChildren, prevIndex, nextIndex);
      } else {
        MovedChildFrame(env, p, parent, prevChildren, nextChildren, prevIndex, nextIndex);
      }
    } else if nextIndex < |nextChildren| {
      CreateChildrenFrame(env, p, parent, nextChildren, nextIndex);
    } else if prevIndex < |prevChildren| {
      DestroyChildrenKeepsNext(env, p, parent, prevChildren, prevIndex);
    }
  }

  lemma {:induction false} KeptChildFrame(env: Env, p: Pass, parent: Key, prevChildren: seq<Key>, nextChildren: seq<Key>,
                                          prevIndex: nat, nextIndex: nat)
    requires ScanTurn(env, parent, prevChildren, nextChildren, prevIndex, nextIndex)
    requires prevChildren[prevIndex] == nextChildren[nextIndex]
    ensures ChangesWithin(env, p.cache, ScanChildren(env, p, parent, prevChildren, nextChildren, prevIndex, nextIndex).cache,
                          ChildrenSubtrees(env.next, env.nextRank, parent, nextChildren, nextIndex))
    decreases RankOf(env.prevRank, parent), 0, |prevChildren| - prevIndex + |nextChildren| - nextIndex, 0
  {
    var key := nextChildren[nextIndex];
    ChildBelow(env.prev, env.prevRank, parent, key);
    ChildBelow(env.next, env.nextRank, parent, key);
    var q := Reconcile(env, p, key);
    var r := ScanChildren(env, q, parent, prevChildren, nextChildren, prevIndex + 1, nextIndex + 1);
    assert ScanChildren(env, p, parent, prevChildren, nextChildren, prevIndex, nextIndex) == r;
    ReconcileFrame(env, p, key);
    ScanFrame(env, q, parent, prevChildren, nextChildren, prevIndex + 1, nextIndex + 1);
    ChildrenSubtreesStep(env.next, env.nextRank, parent, nextChildren, nextIndex);
    ChangesCompose(env, p.cache, q.cache, r.cache, Subtree(env.next, env.nextRank, key),
                   ChildrenSubtrees(env.next, env.nextRank, parent, nextChildren, nextIndex + 1));
  }

  lemma {:induction false} RemovedChildFrame(env: Env, p: Pass, parent: Key, prevChildren: seq<Key>, nextChildren: seq<Key>,
                                             prevIndex: nat, nextIndex: nat)
    requires ScanTurn(env, parent, prevChildren, nextChildren, prevIndex, nextIndex)
    requires prevChildren[prevIndex] != nextChildren[nextIndex] && prevChildren[prevIndex] !in nextChildren
    ensures ChangesWithin(env, p.cache, ScanChildren(env, p, parent, prevChildren, nextChildren, prevIndex, nextIndex).cache,
                          ChildrenSubtrees(env.next, env.nextRank, parent, nextChildren, nextIndex))
    decreases RankOf(env.prevRank, parent), 0, |prevChildren| - prevIndex + |nextChildren| - nextIndex, 0
  {
    var q := Destroy(env, p, prevChildren[prevIndex]);
    var r := ScanChildren(env, q, parent, prevChildren, nextChildren, prevIndex + 1, nextIndex);
    assert ScanChildren(env, p, parent, prevChildren, nextChildren, prevIndex, nextIndex) == r;
    DestroyKeepsNext(env, p, prevChildren[prevIndex]);
    ScanFrame(env, q, parent, prevChildren, nextChildren, prevIndex + 1, nextIndex);
    ChangesCompose(env, p.cache, q.cache, r.cache, {}, ChildrenSubtrees(env.next, env.nextRank, parent, nextChildren, nextIndex));
  }

  lemma {:induction false} InsertedChildFrame(env: Env, p: Pass, parent: Key, prevChildren: seq<Key>, nextChildren: seq<Key>,
                                              prevIndex: nat, nextIndex: nat)
    requires ScanTurn(env, parent, prevChildren, nextChildren, prevIndex, nextIndex)
    requires prevChildren[prevIndex] != nextChildren[nextIndex] && prevChildren[prevIndex] in nextChildren
    requires nextChildren[nextIndex] !in prevChildren
    ensures ChangesWithin(env, p.cache, ScanChildren(env, p, parent, prevChildren, nextChildren, prevIndex, nextIndex).cache,
                          ChildrenSubtrees(env.next, env.nextRank, parent, nextChildren, nextIndex))
    decreases RankOf(env.prevRank, parent), 0, |prevChildren| - prevIndex + |nextChildren| - nextIndex, 0
  {
    var key := nextChildren[nextIndex];
    ChildBelow(env.next, env.nextRank, parent, key);
    var q := Create(env, p, key);
    var r := ScanChildren(env, q, parent, prevChildren, nextChildren, prevIndex, nextIndex + 1);
    assert ScanChildren(env, p, parent, prevChildren, nextChildren, prevIndex, nextIndex) == r;
    CreateFrame(env, p, key);
    ScanFrame(env, q, parent, prevChildren, nextChildren, prevIndex, nextIndex + 1);
    ChildrenSubtreesStep(env.next, env.nextRank, parent, nextChildren, nextIndex);
    ChangesCompose(env, p.cache, q.cache, r.cache, Subtree(env.next, env.nextRank, key),
                   ChildrenSubtrees(env.next, env.nextRank, parent, nextChildren, nextIndex + 1));
  }

  lemma {:induction false} MovedChildFrame(env: Env, p: Pass, parent: Key, prevChildren: seq<Key>, nextChildren: seq<Key>,
                                           prevIndex: nat, nextIndex: nat)
    requires ScanTurn(env, parent, prevChildren, nextChildren, prevIndex, nextIndex)
    requires prevChildren[prevIndex] != nextChildren[nextIndex] && prevChildren[prevIndex] in nextChildren
    requires nextChildren[nextIndex] in prevChildren
    ensures ChangesWithin(env, p.cache, ScanChildren(env, p, parent, prevChildren, nextChildren, prevIndex, nextIndex).cache,
                          ChildrenSubtrees(env.next, env.nextRank, parent, nextChildren, nextIndex))
    decreases RankOf(env.prevRank, parent), 0, |prevChildren| - prevIndex + |nextChildren| - nextIndex, 0
  {
    var key := nextChildren[nextIndex];
    ChildBelow(env.next, env.nextRank, parent, key);
    var base := Destroy(env, p, prevChildren[prevIndex]);
    var q := Create(env, base, key);
    var r := ScanChildren(env, q, parent, prevChildren, nextChildren, prevIndex + 1, nextIndex + 1);
    assert ScanChildren(env, p, parent, prevChildren, nextChildren, prevIndex, nextIndex) == r;
    DestroyKeepsNext(env, p, prevChildren[prevIndex]);
    CreateFrame(env, base, key);
    ChangesCompose(env, p.cache, base.cache, q.cache, {}, Subtree(env.next, env.nextRank, key));
    ScanFrame(env, q, parent, prevChildren, nextChildren, prevIndex + 1, nextIndex + 1);
    ChildrenSubtreesStep(env.next, env.nextRank, parent, nextChildren, nextIndex);
    ChangesCompose(env, p.cache, q.cache, r.cache, {} + Subtree(env.next, env.nextRank, key),
                   ChildrenSubtrees(env.next, env.nextRank, parent, nextChildren, nextIndex + 1));
  }

  /**
   * One sibling step: a child placed in `c1`, then changes confined to the
   * subtrees of the later children, which are placed in `c2` right after it.
   */
  lemma SiblingPlaced(env: Env, c1: RangeCache, c2: RangeCache, parent: Key, cs: seq<Key>, i: nat, location: nat, after: nat)
    requires env.Valid() && Tree(env.next, env.nextRank)
    requires cs == ChildKeys(env.next, parent) && i < |cs|
    requires after == location + |FlatText(env.next, env.nextRank, cs[i])|
    requires PlacedAt(env.next, env.nextRank, c1, cs[i], location)
    requires ChangesWithin(env, c1, c2, ChildrenSubtrees(env.next, env.nextRank, parent, cs, i + 1))
    requires ChildrenPlacedAt(env.next, env.nextRank, c2, parent, cs, i + 1, after)
    ensures ChildrenPlacedAt(env.next, env.nextRank, c2, parent, cs, i, location)
  {
    ChildBelow(env.next, env.nextRank, parent, cs[i]);
    LaterSiblingsDisjoint(env.next, env.nextRank, parent, cs, i);
    AgreeOutside(env, c1, c2, ChildrenSubtrees(env.next, env.nextRank, parent, cs, i + 1), Subtree(env.next, env.nextRank, cs[i]));
    PlacedAtFrame(env.next, env.nextRank, c1, c2, cs[i], location);
  }

  /** A child of a clean node whose committed subtree is placed is clean and placed too. */
  lemma CleanChild(env: Env, parent: Key, c: Key)
    requires env.Valid() && ReuseSound(env)
    requires Clean(env, parent) && Placed(env.prev, env.prevRank, env.prevCache, parent)
    requires c in ChildKeys(env.next, parent)
    ensures Clean(env, c) && Placed(env.prev, env.prevRank, env.prevCache, c)
  {
    PlacedChildren(env.prev, env.prevRank, env.prevCache, parent);
  }

  // ---------------------------------------------------------------- createNode places the new subtree

  /** `createNode(key)` places the next subtree of `key` at the cursor. */
  lemma {:induction false} CreatePlaces(env: Env, p: Pass, key: Key)
    requires env.Valid() && Tree(env.next, env.nextRank)
    ensures PlacedAt(env.next, env.nextRank, Create(env, p, key).cache, key, p.cursor)
    decreases RankOf(env.nextRank, key), 1
  {
    if key in env.next {
      var n := env.next[key];
      var cs := ChildKeys(env.next, key);
      var p1 := Push(p, key, Preamble, |n.preamble|);
      var p2 := if n.IsElement() && |cs| > 0 then CreateChildren(env, p1, key, cs, 0) else p1;
      var r := CreateTail(p2, key, n, p.cursor, p1.cursor);
      assert Create(env, p, key) == r;
      if n.IsElement() && |cs| > 0 {
        CreateChildrenPlaces(env, p1, key, cs, 0);
      }
      assert ChildrenPlacedAt(env.next, env.nextRank, p2.cache, key, cs, 0, p1.cursor);
      CreateAdvance(env, p, key);
      NotInChildrenSubtrees(env.next, env.nextRank, key);
      assert AgreeOn(env.next, p2.cache, r.cache, ChildrenSubtrees(env.next, env.nextRank, key, cs, 0));
      ChildrenPlacedAtFrame(env.next, env.nextRank, p2.cache, r.cache, key, cs, 0, p1.cursor);
    }
  }

  lemma {:induction false} CreateChildrenPlaces(env: Env, p: Pass, parent: Key, cs: seq<Key>, i: nat)
    requires env.Valid() && Tree(env.next, env.nextRank)
    requires cs == ChildKeys(env.next, parent) && i <= |cs|
    ensures ChildrenPlacedAt(env.next, env.nextRank, CreateChildren(env, p, parent, cs, i).cache, parent, cs, i, p.cursor)
    decreases RankOf(env.nextRank, parent), 0, |cs| - i
  {
    if i < |cs| {
      ChildBelow(env.next, env.nextRank, parent, cs[i]);
      var q := Create(env, p, cs[i]);
      var r := CreateChildren(env, q, parent, cs, i + 1);
      CreatePlaces(env, p, cs[i]);
      CreateAdvance(env, p, cs[i]);
      CreateChildrenPlaces(env, q, parent, cs, i + 1);
      CreateChildrenFrame(env, q, parent, cs, i + 1);
      SiblingPlaced(env, q.cache, r.cache, parent, cs, i, p.cursor, q.cursor);
    }
  }

  // ---------------------------------------------------------------- updateLocationOfNonDirtyNode relocates

  /**
   * Restamping a clean subtree whose committed entries are placed places it
   * at the cursor, and every entry of the subtree is its committed entry
   * with only the location changed.
   */
  lemma RestampPlaces(env: Env, p: Pass, key: Key)
    requires env.Valid() && ReuseSound(env) && Tree(env.next, env.nextRank)
    requires Clean(env, key) && Placed(env.prev, env.prevRank, env.prevCache, key)
    ensures PlacedAt(env.next, env.nextRank, Restamp(env, p, key).cache, key, p.cursor)
    ensures Relocated(env, Restamp(env, p, key).cache, Subtree(env.next, env.nextRank, key))
  {
    RestampPlacedAt(env, p, key);
    CleanRelocated(env, Restamp(env, p, key).cache, key, p.cursor);
  }

  lemma {:induction false} RestampPlacedAt(env: Env, p: Pass, key: Key)
    requires env.Valid() && ReuseSound(env) && Tree(env.next, env.nextRank)
    requires Clean(env, key) && Placed(env.prev, env.prevRank, env.prevCache, key)
    ensures PlacedAt(env.next, env.nextRank, Restamp(env, p, key).cache, key, p.cursor)
    decreases RankOf(env.nextRank, key), 1
  {
    PlacedChildren(env.prev, env.prevRank, env.prevCache, key);
    var item := env.prevCache[key];
    var cs := ChildKeys(env.next, key);
    CleanChildrenText(env, key, cs, 0);
    var p2 := Advance(Relocate(p, key, item), item.preambleLength);
    var r := Restamp(env, p, key);
    assert r == RestampAfterPreamble(env, key, p2);
    if env.next[key].IsElement() {
      RestampChildrenPlaces(env, p2, key, cs, 0);
      assert r.cache == RestampChildren(env, p2, key, cs, 0).cache;
    }
    assert ChildrenPlacedAt(env.next, env.nextRank, r.cache, key, cs, 0, p2.cursor);
  }

  lemma {:induction false} RestampChildrenPlaces(env: Env, p: Pass, parent: Key, cs: seq<Key>, i: nat)
    requires env.Valid() && ReuseSound(env) && Tree(env.next, env.nextRank)
    requires Clean(env, parent) && Placed(env.prev, env.prevRank, env.prevCache, parent)
    requires cs == ChildKeys(env.next, parent) && i <= |cs|
    ensures ChildrenPlacedAt(env.next, env.nextRank, RestampChildren(env, p, parent, cs, i).cache, parent, cs, i, p.cursor)
    decreases RankOf(env.nextRank, parent), 0, |cs| - i
  {
    if i < |cs| {
      ChildBelow(env.next, env.nextRank, parent, cs[i]);
      CleanChild(env, parent, cs[i]);
      var q := Restamp(env, p, cs[i]);
      var r := RestampChildren(env, q, parent, cs, i + 1);
      RestampPlacedAt(env, p, cs[i]);
      RestampAdvance(env, p, cs[i]);
      RestampChildrenPlaces(env, q, parent, cs, i + 1);
      RestampChildrenFrame(env, q, parent, cs, i + 1);
      SiblingPlaced(env, q.cache, r.cache, parent, cs, i, p.cursor, q.cursor);
    }
  }

  /**
   * A clean subtree placed in `cache` whose committed entries are placed too
   * keeps its committed entries, moved.
   */
  lemma {:induction false} CleanRelocated(env: Env, cache: RangeCache, key: Key, location: nat)
    requires env.Valid() && ReuseSound(env)
    requires Clean(env, key) && Placed(env.prev, env.prevRank, env.prevCache, key)
    requires PlacedAt(env.next, env.nextRank, cache, key, location)
    ensures Relocated(env, cache, Subtree(env.next, env.nextRank, key))
    decreases RankOf(env.nextRank, key), 1
  {
    PlacedChildren(env.prev, env.prevRank, env.prevCache, key);
    var cs := ChildKeys(env.next, key);
    CleanChildrenText(env, key, cs, 0);
    CleanChildrenRelocated(env, cache, key, cs, 0, location + |env.next[key].preamble|);
    SubtreeStep(env.next, env.nextRank, key);
  }

  lemma {:induction false} CleanChildrenRelocated(env: Env, cache: RangeCache, parent: Key, cs: seq<Key>, i: nat, location: nat)
    requires env.Valid() && ReuseSound(env)
    requires Clean(env, parent) && Placed(env.prev, env.prevRank, env.prevCache, parent)
    requires cs == ChildKeys(env.next, parent) && i <= |cs|
    requires ChildrenPlacedAt(env.next, env.nextRank, cache, parent, cs, i, location)
    ensures Relocated(env, cache, ChildrenSubtrees(env.next, env.nextRank, parent, cs, i))
    decreases RankOf(env.nextRank, parent), 0, |cs| - i
  {
    if i < |cs| {
      ChildBelow(env.next, env.nextRank, parent, cs[i]);
      CleanChild(env, parent, cs[i]);
      CleanRelocated(env, cache, cs[i], location);
      CleanChildrenRelocated(env, cache, parent, cs, i + 1, location + |FlatText(env.next, env.nextRank, cs[i])|);
      ChildrenSubtreesStep(env.next, env.nextRank, parent, cs, i);
    }
  }

  /** A clean subtree placed by the previous snapshot is placed by the next one at the same offset. */
  lemma {:induction false} CleanPlacedAt(env: Env, cache: RangeCache, key: Key, location: nat)
    requires env.Valid() && ReuseSound(env) && Clean(env, key)
    requires PlacedAt(env.prev, env.prevRank, cache, key, location)
    ensures PlacedAt(env.next, env.nextRank, cache, key, location)
    decreases RankOf(env.nextRank, key), 1
  {
    var cs := ChildKeys(env.next, key);
    CleanChildrenText(env, key, cs, 0);
    CleanChildrenPlacedAt(env, cache, key, cs, 0, location + |env.next[key].preamble|);
  }

  lemma {:induction false} CleanChildrenPlacedAt(env: Env, cache: RangeCache, parent: Key, cs: seq<Key>, i: nat, location: nat)
    requires env.Valid() && ReuseSound(env) && Clean(env, parent)
    requires cs == ChildKeys(env.next, parent) && cs == ChildKeys(env.prev, parent) && i <= |cs|
    requires ChildrenPlacedAt(env.prev, env.prevRank, cache, parent, cs, i, location)
    ensures ChildrenPlacedAt(env.next, env.nextRank, cache, parent, cs, i, location)
    decreases RankOf(env.nextRank, parent), 0, |cs| - i
  {
    if i < |cs| {
      ChildBelow(env.next, env.nextRank, parent, cs[i]);
      ChildBelow(env.prev, env.prevRank, parent, cs[i]);
      CleanPlacedAt(env, cache, cs[i], location);
      CleanFlatText(env, cs[i]);
      CleanChildrenPlacedAt(env, cache, parent, cs, i + 1, location + |FlatText(env.next, env.nextRank, cs[i])|);
    }
  }

  // ---------------------------------------------------------------- reconcileNode places the next subtree

  /**
   * Reconciling a node present in both snapshots, whose committed subtree is
   * placed and whose next subtree still has its committed entries, places
   * the next subtree at the cursor.
   */
  lemma {:induction false} ReconcilePlaces(env: Env, p: Pass, key: Key)
    requires env.Valid() && ReuseSound(env) && KindsStable(env) && Tree(env.next, env.nextRank)
    requires key in env.prev && key in env.next && Placed(env.prev, env.prevRank, env.prevCache, key)
    requires AgreeOn(env.next, p.cache, env.prevCache, Subtree(env.next, env.nextRank, key))
    ensures PlacedAt(env.next, env.nextRank, Reconcile(env, p, key).cache, key, p.cursor)
    decreases RankOf(env.prevRank, key), 3
  {
    if Clean(env, key) {
      if env.prevCache[key].location != p.cursor {
        RestampPlacedAt(env, p, key);
      } else {
        CleanPlacedAt(env, env.prevCache, key, p.cursor);
        assert AgreeOn(env.next, env.prevCache, p.cache, Subtree(env.next, env.nextRank, key));
        PlacedAtFrame(env.next, env.nextRank, env.prevCache, p.cache, key, p.cursor);
      }
    } else {
      assert Reconcile(env, p, key) == ReconcileChanged(env, p, key);
      ChangedPlaces(env, p, key);
    }
  }

  lemma {:induction false} ChangedPlaces(env: Env, p: Pass, key: Key)
    requires env.Valid() && ReuseSound(env) && KindsStable(env) && Tree(env.next, env.nextRank)
    requires key in env.prev && key in env.next && Placed(env.prev, env.prevRank, env.prevCache, key)
    requires AgreeOn(env.next, p.cache, env.prevCache, Subtree(env.next, env.nextRank, key))
    ensures PlacedAt(env.next, env.nextRank, ReconcileChanged(env, p, key).cache, key, p.cursor)
    decreases RankOf(env.prevRank, key), 2
  {
    var prevRange := env.prevCache[key];
    var n := env.next[key];
    var cs := ChildKeys(env.next, key);
    var p1 := AddRemove(p, key, prevRange.location, prevRange.preambleLength, |n.preamble|, Preamble);
    var p2 := if n.IsElement() then ReconcileChildren(env, p1, key) else p1;
    var r := ReconcileTail(p2, key, prevRange, n, p.cursor, p1.cursor);
    assert ReconcileChanged(env, p, key) == ReconcileAfterPreamble(env, p, key, p1) == r;
    ChildrenPlaces(env, p1, key);
    TailKeepsChildren(env, p2, r, key, p1.cursor);
  }

  /** `reconcileChildren(key)` places the next children one after the other from the cursor. */
  lemma {:induction false} ChildrenPlaces(env: Env, p: Pass, key: Key)
    requires env.Valid() && ReuseSound(env) && KindsStable(env) && Tree(env.next, env.nextRank)
    requires key in env.prev && key in env.next && Placed(env.prev, env.prevRank, env.prevCache, key)
    requires AgreeOn(env.next, p.cache, env.prevCache, Subtree(env.next, env.nextRank, key))
    ensures var p2 := if env.next[key].IsElement() then ReconcileChildren(env, p, key) else p;
      && ChildrenPlacedAt(env.next, env.nextRank, p2.cache, key, ChildKeys(env.next, key), 0, p.cursor)
      && p2.cursor == p.cursor + ChildrenLength(env.next, env.nextRank, key)
    decreases RankOf(env.prevRank, key), 1
  {
    var cs := ChildKeys(env.next, key);
    if env.next[key].IsElement() {
      SubtreeStep(env.next, env.nextRank, key);
      assert PlaceSetting(env, p, key, ChildKeys(env.prev, key), cs, 0);
      ScanPlaces(env, p, key, ChildKeys(env.prev, key), cs, 0, 0);
      ScanAdvance(env, p, key, ChildKeys(env.prev, key), cs, 0, 0);
    }
  }

  /** Writing the entry of `key` leaves the placement of its children alone. */
  lemma TailKeepsChildren(env: Env, p2: Pass, r: Pass, key: Key, childrenStart: nat)
    requires env.Valid() && key in env.next
    requires key in r.cache && r.cache == p2.cache[key := r.cache[key]]
    requires ChildrenPlacedAt(env.next, env.nextRank, p2.cache, key, ChildKeys(env.next, key), 0, childrenStart)
    ensures ChildrenPlacedAt(env.next, env.nextRank, r.cache, key, ChildKeys(env.next, key), 0, childrenStart)
  {
    var cs := ChildKeys(env.next, key);
    NotInChildrenSubtrees(env.next, env.nextRank, key);
    assert AgreeOn(env.next, p2.cache, r.cache, ChildrenSubtrees(env.next, env.nextRank, key, cs, 0));
    ChildrenPlacedAtFrame(env.next, env.nextRank, p2.cache, r.cache, key, cs, 0, childrenStart);
  }

  /** The hypotheses under which the scan over the children of `parent` places them. */
  ghost predicate PlaceSetting(env: Env, p: Pass, parent: Key, prevChildren: seq<Key>, nextChildren: seq<Key>, nextIndex: nat)
    requires env.Valid()
    requires nextChildren == ChildKeys(env.next, parent) && nextIndex <= |nextChildren|
  {
    && ScanSetting(env, parent, prevChildren, nextChildren) && Tree(env.next, env.nextRank)
    && AgreeOn(env.next, p.cache, env.prevCache, ChildrenSubtrees(env.next, env.nextRank, parent, nextChildren, nextIndex))
  }

  /**
   * The scan over the children of `parent` places the subtrees of the next
   * children it has yet to visit one after the other from the cursor.
   */
  lemma {:induction false} ScanPlaces(env: Env, p: Pass, parent: Key, prevChildren: seq<Key>, nextChildren: seq<Key>,
                                      prevIndex: nat, nextIndex: nat)
    requires env.Valid() && nextChildren == ChildKeys(env.next, parent)
    requires prevIndex <= |prevChildren| && nextIndex <= |nextChildren|
    requires PlaceSetting(env, p, parent, prevChildren, nextChildren, nextIndex)
    ensures ChildrenPlacedAt(env.next, env.nextRank, ScanChildren(env, p, parent, prevChildren, nextChildren, prevIndex, nextIndex).cache,
                             parent, nextChildren, nextIndex, p.cursor)
    decreases RankOf(env.prevRank, parent), 0, |prevChildren| - prevIndex + |nextChildren| - nextIndex, 1
  {
    if prevIndex < |prevChildren| && nextIndex < |nextChildren| {
      var prevKey := prevChildren[prevIndex];
      var nextKey := nextChildren[nextIndex];
      if prevKey == nextKey {
        KeptChildPlaces(env, p, parent, prevChildren, nextChildren, prevIndex, nextIndex);
      } else if prevKey !in nextChildren {
        RemovedChildPlaces(env, p, parent, prevChildren, nextChildren, prevIndex, nextIndex);
      } else if nextKey !in prevChildren {
        InsertedChildPlaces(env, p, parent, prevChildren, nextChildren, prevIndex, nextIndex);
      } else {
        MovedChildPlaces(env, p, parent, prevChildren, nextChildren, prevIndex, nextIndex);
      }
    } else if nextIndex < |nextChildren| {
      CreateChildrenPlaces(env, p, parent, nextChildren, nextIndex);
    }
  }

  /**
   * Once the child at `nextIndex` is placed at `location` and the cursor has
   * moved over it, the rest of the scan places the later children after it.
   */
  lemma {:induction false} ScanRest(env: Env, q: Pass, parent: Key, prevChildren: seq<Key>, nextChildren: seq<Key>,
                                    prevIndex: nat, nextIndex: nat, location: nat)
    requires env.Valid() && nextChildren == ChildKeys(env.next, parent)
    requires prevIndex <= |prevChildren| && nextIndex < |nextChildren|
    requires PlaceSetting(env, q, parent, prevChildren, nextChildren, nextIndex + 1)
    requires PlacedAt(env.next, env.nextRank, q.cache, nextChildren[nextIndex], location)
    requires q.cursor == location + |FlatText(env.next, env.nextRank, nextChildren[nextIndex])|
    ensures ChildrenPlacedAt(env.next, env.nextRank, ScanChildren(env, q, parent, prevChildren, nextChildren, prevIndex, nextIndex + 1).cache,
                             parent, nextChildren, nextIndex, location)
    decreases RankOf(env.prevRank, parent), 0, |prevChildren| - prevIndex + |nextChildren| - nextIndex - 1, 2
  {
    var r := ScanChildren(env, q, parent, prevChildren, nextChildren, prevIndex, nextIndex + 1);
    ScanPlaces(env, q, parent, prevChildren, nextChildren, prevIndex, nextIndex + 1);
    ScanFrame(env, q, parent, prevChildren, nextChildren, prevIndex, nextIndex + 1);
    SiblingPlaced(env, q.cache, r.cache, parent, nextChildren, nextIndex, location, q.cursor);
  }

  lemma {:induction false} KeptChildPlaces(env: Env, p: Pass, parent: Key, prevChildren: seq<Key>, nextChildren: seq<Key>,
                                           prevIndex: nat, nextIndex: nat)
    requires ScanTurn(env, parent, prevChildren, nextChildren, prevIndex, nextIndex)
    requires PlaceSetting(env, p, parent, prevChildren, nextChildren, nextIndex)
    requires prevChildren[prevIndex] == nextChildren[nextIndex]
    ensures ChildrenPlacedAt(env.next, env.nextRank, ScanChildren(env, p, parent, prevChildren, nextChildren, prevIndex, nextIndex).cache,
                             parent, nextChildren, nextIndex, p.cursor)
    decreases RankOf(env.prevRank, parent), 0, |prevChildren| - prevIndex + |nextChildren| - nextIndex, 0
  {
    var q := Reconcile(env, p, nextChildren[nextIndex]);
    KeptChildStep(env, p, parent, prevChildren, nextChildren, nextIndex);
    ScanRest(env, q, parent, prevChildren, nextChildren, prevIndex + 1, nextIndex, p.cursor);
    ScanKept(env, p, parent, prevChildren, nextChildren, prevIndex, nextIndex);
  }

  /** A turn of the scan on a shared key: the child is reconciled and both pointers advance. */
  lemma ScanKept(env: Env, p: Pass, parent: Key, prevChildren: seq<Key>, nextChildren: seq<Key>, prevIndex: nat, nextIndex: nat)
    requires ScanTurn(env, parent, prevChildren, nextChildren, prevIndex, nextIndex)
    requires prevChildren[prevIndex] == nextChildren[nextIndex]
    requires ChildrenPlacedAt(env.next, env.nextRank,
                              ScanChildren(env, Reconcile(env, p, nextChildren[nextIndex]), parent, prevChildren, nextChildren, prevIndex + 1, nextIndex + 1).cache,
                              parent, nextChildren, nextIndex, p.cursor)
    ensures ChildrenPlacedAt(env.next, env.nextRank, ScanChildren(env, p, parent, prevChildren, nextChildren, prevIndex, nextIndex).cache,
                             parent, nextChildren, nextIndex, p.cursor)
  {
  }

  /**
   * Reconciling a kept child places it at the cursor, moves the cursor over
   * it and leaves the later children's committed entries alone, so the scan
   * can go on.
   */
  lemma {:induction false} KeptChildStep(env: Env, p: Pass, parent: Key, prevChildren: seq<Key>, nextChildren: seq<Key>,
                                         nextIndex: nat)
    requires nextIndex < |nextChildren| && nextChildren[nextIndex] in prevChildren
    requires env.Valid() && nextChildren == ChildKeys(env.next, parent)
    requires PlaceSetting(env, p, parent, prevChildren, nextChildren, nextIndex)
    ensures var q := Reconcile(env, p, nextChildren[nextIndex]);
      && PlacedAt(env.next, env.nextRank, q.cache, nextChildren[nextIndex], p.cursor)
      && q.cursor == p.cursor + |FlatText(env.next, env.nextRank, nextChildren[nextIndex])|
      && PlaceSetting(env, q, parent, prevChildren, nextChildren, nextIndex + 1)
    decreases RankOf(env.prevRank, parent), 0, 0
  {
    var key := nextChildren[nextIndex];
    var q := Reconcile(env, p, key);
    ChildBelow(env.prev, env.prevRank, parent, key);
    ChildBelow(env.next, env.nextRank, parent, key);
    PlacedChildren(env.prev, env.prevRank, env.prevCache, parent);
    ChildrenSubtreesStep(env.next, env.nextRank, parent, nextChildren, nextIndex);
    LaterSiblingsDisjoint(env.next, env.nextRank, parent, nextChildren, nextIndex);
    ReconcilePlaces(env, p, key);
    ReconcileAdvance(env, p, key);
    ReconcileFrame(env, p, key);
    AgreeAfter(env, env.prevCache, p.cache, q.cache, Subtree(env.next, env.nextRank, key),
               ChildrenSubtrees(env.next, env.nextRank, parent, nextChildren, nextIndex + 1));
  }

  lemma {:induction false} RemovedChildPlaces(env: Env, p: Pass, parent: Key, prevChildren: seq<Key>, nextChildren: seq<Key>,
                                              prevIndex: nat, nextIndex: nat)
    requires ScanTurn(env, parent, prevChildren, nextChildren, prevIndex, nextIndex)
    requires PlaceSetting(env, p, parent, prevChildren, nextChildren, nextIndex)
    requires prevChildren[prevIndex] != nextChildren[nextIndex] && prevChildren[prevIndex] !in nextChildren
    ensures ChildrenPlacedAt(env.next, env.nextRank, ScanChildren(env, p, parent, prevChildren, nextChildren, prevIndex, nextIndex).cache,
                             parent, nextChildren, nextIndex, p.cursor)
    decreases RankOf(env.prevRank, parent), 0, |prevChildren| - prevIndex + |nextChildren| - nextIndex, 0
  {
    var q := Destroy(env, p, prevChildren[prevIndex]);
    assert ScanChildren(env, p, parent, prevChildren, nextChildren, prevIndex, nextIndex)
        == ScanChildren(env, q, parent, prevChildren, nextChildren, prevIndex + 1, nextIndex);
    DestroyKeepsNext(env, p, prevChildren[prevIndex]);
    AgreeAfter(env, env.prevCache, p.cache, q.cache, {}, ChildrenSubtrees(env.next, env.nextRank, parent, nextChildren, nextIndex));
    ScanPlaces(env, q, parent, prevChildren, nextChildren, prevIndex + 1, nextIndex);
  }

  lemma {:induction false} InsertedChildPlaces(env: Env, p: Pass, parent: Key, prevChildren: seq<Key>, nextChildren: seq<Key>,
                                               prevIndex: nat, nextIndex: nat)
    requires ScanTurn(env, parent, prevChildren, nextChildren, prevIndex, nextIndex)
    requires PlaceSetting(env, p, parent, prevChildren, nextChildren, nextIndex)
    requires prevChildren[prevIndex] != nextChildren[nextIndex] && prevChildren[prevIndex] in nextChildren
    requires nextChildren[nextIndex] !in prevChildren
    ensures ChildrenPlacedAt(env.next, env.nextRank, ScanChildren(env, p, parent, prevChildren, nextChildren, prevIndex, nextIndex).cache,
                             parent, nextChildren, nextIndex, p.cursor)
    decreases RankOf(env.prevRank, parent), 0, |prevChildren| - prevIndex + |nextChildren| - nextIndex, 0
  {
    var key := nextChildren[nextIndex];
    var q := Create(env, p, key);
    var r := ScanChildren(env, q, parent, prevChildren, nextChildren, prevIndex, nextIndex + 1);
    assert ScanChildren(env, p, parent, prevChildren, nextChildren, prevIndex, nextIndex) == r;
    CreatedChildStep(env, p, q, parent, nextChildren, nextIndex);
    ScanRest(env, q, parent, prevChildren, nextChildren, prevIndex, nextIndex, p.cursor);
  }

  lemma {:induction false} MovedChildPlaces(env: Env, p: Pass, parent: Key, prevChildren: seq<Key>, nextChildren: seq<Key>,
                                            prevIndex: nat, nextIndex: nat)
    requires ScanTurn(env, parent, prevChildren, nextChildren, prevIndex, nextIndex)
    requires PlaceSetting(env, p, parent, prevChildren, nextChildren, nextIndex)
    requires prevChildren[prevIndex] != nextChildren[nextIndex] && prevChildren[prevIndex] in nextChildren
    requires nextChildren[nextIndex] in prevChildren
    ensures ChildrenPlacedAt(env.next, env.nextRank, ScanChildren(env, p, parent, prevChildren, nextChildren, prevIndex, nextIndex).cache,
                             parent, nextChildren, nextIndex, p.cursor)
    decreases RankOf(env.prevRank, parent), 0, |prevChildren| - prevIndex + |nextChildren| - nextIndex, 0
  {
    var key := nextChildren[nextIndex];
    var base := Destroy(env, p, prevChildren[prevIndex]);
    var q := Create(env, base, key);
    ScanMoved(env, p, parent, prevChildren, nextChildren, prevIndex, nextIndex);
    MovedChildStep(env, p, base, q, parent, prevChildren[prevIndex], nextChildren, nextIndex);
    ScanRest(env, q, parent, prevChildren, nextChildren, prevIndex + 1, nextIndex, p.cursor);
  }

  /** A turn of the scan on a move: the old child is destroyed, the new one created, and both pointers advance. */
  lemma ScanMoved(env: Env, p: Pass, parent: Key, prevChildren: seq<Key>, nextChildren: seq<Key>, prevIndex: nat, nextIndex: nat)
    requires ScanTurn(env, parent, prevChildren, nextChildren, prevIndex, nextIndex)
    requires prevChildren[prevIndex] != nextChildren[nextIndex] && prevChildren[prevIndex] in nextChildren
    requires nextChildren[nextIndex] in prevChildren
    ensures ScanChildren(env, p, parent, prevChildren, nextChildren, prevIndex, nextIndex)
         == ScanChildren(env, Create(env, Destroy(env, p, prevChildren[prevIndex]), nextChildren[nextIndex]),
                         parent, prevChildren, nextChildren, prevIndex + 1, nextIndex + 1)
  {
  }

  /**
   * Destroying the old child `gone`, then creating the child at `nextIndex`,
   * places the new child at the cursor, moves the cursor over it and leaves
   * the later children's committed entries alone.
   */
  lemma MovedChildStep(env: Env, p: Pass, base: Pass, q: Pass, parent: Key, gone: Key, nextChildren: seq<Key>, nextIndex: nat)
    requires env.Valid() && Tree(env.next, env.nextRank)
    requires nextChildren == ChildKeys(env.next, parent) && nextIndex < |nextChildren|
    requires base == Destroy(env, p, gone) && q == Create(env, base, nextChildren[nextIndex])
    requires AgreeOn(env.next, p.cache, env.prevCache, ChildrenSubtrees(env.next, env.nextRank, parent, nextChildren, nextIndex))
    ensures PlacedAt(env.next, env.nextRank, q.cache, nextChildren[nextIndex], p.cursor)
    ensures q.cursor == p.cursor + |FlatText(env.next, env.nextRank, nextChildren[nextIndex])|
    ensures AgreeOn(env.next, q.cache, env.prevCache, ChildrenSubtrees(env.next, env.nextRank, parent, nextChildren, nextIndex + 1))
  {
    DestroyKeepsNext(env, p, gone);
    AgreeAfter(env, env.prevCache, p.cache, base.cache, {}, ChildrenSubtrees(env.next, env.nextRank, parent, nextChildren, nextIndex));
    CreatedChildStep(env, base, q, parent, nextChildren, nextIndex);
  }

  /**
   * Creating the child at `nextIndex` places it at the cursor, moves the
   * cursor over it and leaves the later children's committed entries alone.
   */
  lemma CreatedChildStep(env: Env, p: Pass, q: Pass, parent: Key, nextChildren: seq<Key>, nextIndex: nat)
    requires env.Valid() && Tree(env.next, env.nextRank)
    requires nextChildren == ChildKeys(env.next, parent) && nextIndex < |nextChildren|
    requires q == Create(env, p, nextChildren[nextIndex])
    requires AgreeOn(env.next, p.cache, env.prevCache, ChildrenSubtrees(env.next, env.nextRank, parent, nextChildren, nextIndex))
    ensures PlacedAt(env.next, env.nextRank, q.cache, nextChildren[nextIndex], p.cursor)
    ensures q.cursor == p.cursor + |FlatText(env.next, env.nextRank, nextChildren[nextIndex])|
    ensures AgreeOn(env.next, q.cache, env.prevCache, ChildrenSubtrees(env.next, env.nextRank, parent, nextChildren, nextIndex + 1))
  {
    var key := nextChildren[nextIndex];
    var later := ChildrenSubtrees(env.next, env.nextRank, parent, nextChildren, nextIndex + 1);
    ChildBelow(env.next, env.nextRank, parent, key);
    ChildrenSubtreesStep(env.next, env.nextRank, parent, nextChildren, nextIndex);
    LaterSiblingsDisjoint(env.next, env.nextRank, parent, nextChildren, nextIndex);
    CreatePlaces(env, p, key);
    CreateAdvance(env, p, key);
    CreateFrame(env, p, key);
    AgreeAfter(env, env.prevCache, p.cache, q.cache, Subtree(env.next, env.nextRank, key), later);
  }

  // ---------------------------------------------------------------- the whole pass

  /**
   * If the committed cache places the previous tree from the root at offset
   * 0, the cache a pass from the root builds places the next tree from the
   * root at offset 0, and the cursor ends at the length of the next flat
   * text. Every node reachable from the root then has a fitting entry.
   */
  lemma PassPlaces(env: Env)
    requires env.Valid() && ReuseSound(env) && KindsStable(env) && Tree(env.next, env.nextRank)
    requires RootKey in env.prev && RootKey in env.next
    requires PlacedAt(env.prev, env.prevRank, env.prevCache, RootKey, 0)
    ensures var r := Reconcile(env, InitialPass(env.prevCache), RootKey);
      && PlacedAt(env.next, env.nextRank, r.cache, RootKey, 0)
      && r.cursor == |FlatText(env.next, env.nextRank, RootKey)|
  {
    var p := InitialPass(env.prevCache);
    assert Placed(env.prev, env.prevRank, env.prevCache, RootKey);
    ReconcilePlaces(env, p, RootKey);
    ReconcileAdvance(env, p, RootKey);
  }

  /** After such a pass, every node reachable from the root of the next tree has an entry that fits it. */
  lemma PassFits(env: Env, k: Key)
    requires env.Valid() && ReuseSound(env) && KindsStable(env) && Tree(env.next, env.nextRank)
    requires RootKey in env.prev && RootKey in env.next
    requires PlacedAt(env.prev, env.prevRank, env.prevCache, RootKey, 0)
    requires k in Subtree(env.next, env.nextRank, RootKey)
    ensures FitsAt(env.next, env.nextRank, Reconcile(env, InitialPass(env.prevCache), RootKey).cache, k)
  {
    var r := Reconcile(env, InitialPass(env.prevCache), RootKey);
    PassPlaces(env);
    assert Placed(env.next, env.nextRank, r.cache, RootKey);
    SubtreePlaced(env.next, env.nextRank, r.cache, RootKey, k);
  }
}
