/**
 * What a reconciliation pass achieves, stated over the functions of
 * `ReconcileSpec`: the cursor moves over exactly the flat text of the next
 * snapshot, a created or changed node gets a cache entry that fits it, the
 * ranges a destroyed subtree deletes add up to its old text, and a pass over
 * an unchanged tree sends nothing to the native view.
 */
module ReconcileLemmas {
  import opened Types
  import opened Children
  import opened Ranges
  import opened ReconcileSpec

  /** The cache entry that fits node `n` at `location` when its children span `childrenLength`. */
  function FittingItem(n: Node, location: nat, childrenLength: nat): (item: RangeCacheItem)
    ensures Total(item) == |n.preamble| + childrenLength + |n.text| + |n.postamble|
  {
    RangeCacheItem(location, |n.preamble|, childrenLength, |n.text|, |n.postamble|)
  }

  /** The length of the children text of `key`. */
  ghost function ChildrenLength(nodeMap: Snapshot, rank: map<Key, nat>, key: Key): nat
    requires WellFormed(nodeMap, rank)
  {
    |ChildrenText(nodeMap, rank, key, ChildKeys(nodeMap, key), 0)|
  }

  /**
   * The cache places the subtree at `key` at offset `location` of the flat
   * text: the entry of `key` sits at `location` with the lengths of its
   * preamble, children text, text and postamble, and the subtree of each child
   * is placed right after the preamble and the children before it.
   */
  ghost predicate PlacedAt(nodeMap: Snapshot, rank: map<Key, nat>, cache: RangeCache, key: Key, location: nat)
    requires WellFormed(nodeMap, rank)
    decreases RankOf(rank, key), 1
  {
    key in nodeMap ==>
      && key in cache
      && cache[key] == FittingItem(nodeMap[key], location, ChildrenLength(nodeMap, rank, key))
      && ChildrenPlacedAt(nodeMap, rank, cache, key, ChildKeys(nodeMap, key), 0, location + |nodeMap[key].preamble|)
  }

  /** The subtrees of `cs[i..]`, the children of `parent`, are placed one after the other from `location`. */
  ghost predicate ChildrenPlacedAt(nodeMap: Snapshot, rank: map<Key, nat>, cache: RangeCache, parent: Key,
                                   cs: seq<Key>, i: nat, location: nat)
    requires WellFormed(nodeMap, rank)
    requires cs == ChildKeys(nodeMap, parent) && i <= |cs|
    decreases RankOf(rank, parent), 0, |cs| - i
  {
    if i == |cs| then true
    else
      ChildBelow(nodeMap, rank, parent, cs[i]);
      && PlacedAt(nodeMap, rank, cache, cs[i], location)
      && ChildrenPlacedAt(nodeMap, rank, cache, parent, cs, i + 1, location + |FlatText(nodeMap, rank, cs[i])|)
  }

  /** The subtree at `key` is placed where the entry of `key` says it starts. */
  ghost predicate Placed(nodeMap: Snapshot, rank: map<Key, nat>, cache: RangeCache, key: Key)
    requires WellFormed(nodeMap, rank)
  {
    key in nodeMap ==> key in cache && PlacedAt(nodeMap, rank, cache, key, cache[key].location)
  }

  /** A placed subtree has a fitting entry at its root, and the subtree of each child is placed. */
  lemma PlacedChildren(nodeMap: Snapshot, rank: map<Key, nat>, cache: RangeCache, key: Key)
    requires WellFormed(nodeMap, rank) && Placed(nodeMap, rank, cache, key)
    ensures FitsAt(nodeMap, rank, cache, key)
    ensures forall c :: c in ChildKeys(nodeMap, key) ==> Placed(nodeMap, rank, cache, c)
  {
    var cs := ChildKeys(nodeMap, key);
    forall c | c in cs
      ensures Placed(nodeMap, rank, cache, c)
    {
      var j :| 0 <= j < |cs| && cs[j] == c;
      ChildPlaced(nodeMap, rank, cache, key, cs, 0, cache[key].location + |nodeMap[key].preamble|, j);
    }
  }

  /** Each child in a run of placed children is placed. */
  lemma {:induction false} ChildPlaced(nodeMap: Snapshot, rank: map<Key, nat>, cache: RangeCache, parent: Key,
                                       cs: seq<Key>, i: nat, location: nat, j: nat)
    requires WellFormed(nodeMap, rank)
    requires cs == ChildKeys(nodeMap, parent) && i <= j < |cs|
    requires ChildrenPlacedAt(nodeMap, rank, cache, parent, cs, i, location)
    ensures Placed(nodeMap, rank, cache, cs[j])
    decreases j - i
  {
    ChildBelow(nodeMap, rank, parent, cs[i]);
    if i < j {
      ChildPlaced(nodeMap, rank, cache, parent, cs, i + 1, location + |FlatText(nodeMap, rank, cs[i])|, j);
    } else {
      assert PlacedAt(nodeMap, rank, cache, cs[i], location);
    }
  }

  /** The entry of `k`, if `k` is a node of `nodeMap`, fits it. */
  ghost predicate FitsAt(nodeMap: Snapshot, rank: map<Key, nat>, cache: RangeCache, k: Key)
    requires WellFormed(nodeMap, rank)
  {
    k in nodeMap ==>
      && k in cache
      && cache[k] == FittingItem(nodeMap[k], cache[k].location, ChildrenLength(nodeMap, rank, k))
  }

  // ---------------------------------------------------------------- createNode

  /**
   * `createNode(key)` moves the cursor over the flat text of the new subtree
   * and leaves a fitting cache entry at the old cursor.
   */
  lemma {:induction false} CreateAdvance(env: Env, p: Pass, key: Key)
    requires env.Valid()
    ensures Create(env, p, key).cursor == p.cursor + |FlatText(env.next, env.nextRank, key)|
    ensures key in env.next ==>
      && key in Create(env, p, key).cache
      && Create(env, p, key).cache[key] == FittingItem(env.next[key], p.cursor, ChildrenLength(env.next, env.nextRank, key))
    decreases RankOf(env.nextRank, key), 1
  {
    if key in env.next {
      var n := env.next[key];
      var cs := ChildKeys(env.next, key);
      var p1 := Push(p, key, Preamble, |n.preamble|);
      if n.IsElement() && |cs| > 0 {
        CreateChildrenAdvance(env, p1, key, cs, 0);
      }
    }
  }

  /** `createChildren(cs, i, |cs| - 1)` moves the cursor over the flat text of `cs[i..]`. */
  lemma {:induction false} CreateChildrenAdvance(env: Env, p: Pass, parent: Key, cs: seq<Key>, i: nat)
    requires env.Valid()
    requires cs == ChildKeys(env.next, parent) && i <= |cs|
    ensures CreateChildren(env, p, parent, cs, i).cursor == p.cursor + |ChildrenText(env.next, env.nextRank, parent, cs, i)|
    decreases RankOf(env.nextRank, parent), 0, |cs| - i
  {
    if i < |cs| {
      ChildBelow(env.next, env.nextRank, parent, cs[i]);
      CreateAdvance(env, p, cs[i]);
      CreateChildrenAdvance(env, Create(env, p, cs[i]), parent, cs, i + 1);
    }
  }

  /** The strings of `insertions`, concatenated in order. */
  ghost function InsertedText(insertions: seq<Insertion>, nodeMap: Snapshot): Utf16
  {
    if insertions == [] then []
    else
      InsertedText(insertions[..|insertions| - 1], nodeMap) + StringFromInsertion(insertions[|insertions| - 1], nodeMap)
  }

  /** Each insertion lands right after the text the insertions before it put down from `start`. */
  ghost predicate InsertsAt(insertions: seq<Insertion>, nodeMap: Snapshot, start: nat)
  {
    forall j :: LandsAt(insertions, nodeMap, start, j)
  }

  /** Insertion `j`, if there is one, lands right after the text of those before it. */
  ghost predicate LandsAt(insertions: seq<Insertion>, nodeMap: Snapshot, start: nat, j: int)
  {
    0 <= j < |insertions| ==> insertions[j].location == start + |InsertedText(insertions[..j], nodeMap)|
  }

  /** Pushing one part of a node of the next snapshot keeps the insertions contiguous. */
  lemma PushInserts(p: Pass, key: Key, part: NodePart, nodeMap: Snapshot, start: nat)
    requires key in nodeMap
    requires InsertsAt(p.inserts, nodeMap, start) && p.cursor == start + |InsertedText(p.inserts, nodeMap)|
    ensures var s := StringFromInsertion(Insertion(p.cursor, key, part), nodeMap);
      var q := Push(p, key, part, |s|);
      && InsertedText(q.inserts, nodeMap) == InsertedText(p.inserts, nodeMap) + s
      && InsertsAt(q.inserts, nodeMap, start)
      && q.cursor == start + |InsertedText(q.inserts, nodeMap)|
  {
    var s := StringFromInsertion(Insertion(p.cursor, key, part), nodeMap);
    var ins := Push(p, key, part, |s|).inserts;
    assert ins[..|ins| - 1] == p.inserts;
    forall j
      ensures LandsAt(ins, nodeMap, start, j)
    {
      if 0 <= j < |p.inserts| {
        assert LandsAt(p.inserts, nodeMap, start, j);
        assert ins[..j] == p.inserts[..j];
      }
    }
  }

  /**
   * `createNode(key)` puts down, contiguously from the cursor, exactly the
   * flat text of the new subtree.
   */
  lemma {:induction false} CreateInserts(env: Env, p: Pass, key: Key, start: nat)
    requires env.Valid()
    requires InsertsAt(p.inserts, env.next, start) && p.cursor == start + |InsertedText(p.inserts, env.next)|
    ensures var r := Create(env, p, key);
      && InsertedText(r.inserts, env.next) == InsertedText(p.inserts, env.next) + FlatText(env.next, env.nextRank, key)
      && InsertsAt(r.inserts, env.next, start)
      && r.cursor == start + |InsertedText(r.inserts, env.next)|
    decreases RankOf(env.nextRank, key), 1
  {
    if key in env.next {
      var n := env.next[key];
      var cs := ChildKeys(env.next, key);
      PushInserts(p, key, Preamble, env.next, start);
      var p1 := Push(p, key, Preamble, |n.preamble|);
      if n.IsElement() && |cs| > 0 {
        CreateChildrenInserts(env, p1, key, cs, 0, start);
      }
      var p2 := if n.IsElement() && |cs| > 0 then CreateChildren(env, p1, key, cs, 0) else p1;
      var children := ChildrenText(env.next, env.nextRank, key, cs, 0);
      assert InsertedText(p2.inserts, env.next) == InsertedText(p1.inserts, env.next) + children;
      CreateTailInserts(p2, key, n, p.cursor, p1.cursor, env.next, start);
      assert Create(env, p, key) == CreateTail(p2, key, n, p.cursor, p1.cursor);
      assert FlatText(env.next, env.nextRank, key) == n.preamble + children + n.text + n.postamble;
      AppendFour(InsertedText(p.inserts, env.next), n.preamble, children, n.text, n.postamble);
    }
  }

  lemma AppendAssoc(s: Utf16, a: Utf16, b: Utf16)
    ensures s + a + b == s + (a + b)
  {
  }

  lemma AppendFour(s: Utf16, a: Utf16, b: Utf16, c: Utf16, d: Utf16)
    ensures s + a + b + c + d == s + (a + b + c + d)
  {
  }

  /** The text and postamble insertions of `createNode` continue the contiguous insertions. */
  lemma CreateTailInserts(p: Pass, key: Key, n: Node, location: nat, childrenStart: nat, nodeMap: Snapshot, start: nat)
    requires key in nodeMap && nodeMap[key] == n && childrenStart <= p.cursor
    requires InsertsAt(p.inserts, nodeMap, start) && p.cursor == start + |InsertedText(p.inserts, nodeMap)|
    ensures var r := CreateTail(p, key, n, location, childrenStart);
      && InsertedText(r.inserts, nodeMap) == InsertedText(p.inserts, nodeMap) + n.text + n.postamble
      && InsertsAt(r.inserts, nodeMap, start)
      && r.cursor == start + |InsertedText(r.inserts, nodeMap)|
  {
    PushInserts(p, key, TextPart, nodeMap, start);
    PushInserts(Push(p, key, TextPart, |n.text|), key, Postamble, nodeMap, start);
  }

  lemma {:induction false} CreateChildrenInserts(env: Env, p: Pass, parent: Key, cs: seq<Key>, i: nat, start: nat)
    requires env.Valid()
    requires cs == ChildKeys(env.next, parent) && i <= |cs|
    requires InsertsAt(p.inserts, env.next, start) && p.cursor == start + |InsertedText(p.inserts, env.next)|
    ensures var r := CreateChildren(env, p, parent, cs, i);
      && InsertedText(r.inserts, env.next) == InsertedText(p.inserts, env.next) + ChildrenText(env.next, env.nextRank, parent, cs, i)
      && InsertsAt(r.inserts, env.next, start)
      && r.cursor == start + |InsertedText(r.inserts, env.next)|
    decreases RankOf(env.nextRank, parent), 0, |cs| - i
  {
    if i < |cs| {
      ChildBelow(env.next, env.nextRank, parent, cs[i]);
      CreateInserts(env, p, cs[i], start);
      var q := Create(env, p, cs[i]);
      CreateChildrenInserts(env, q, parent, cs, i + 1, start);
      assert CreateChildren(env, p, parent, cs, i) == CreateChildren(env, q, parent, cs, i + 1);
      var rest := ChildrenText(env.next, env.nextRank, parent, cs, i + 1);
      assert ChildrenText(env.next, env.nextRank, parent, cs, i) == FlatText(env.next, env.nextRank, cs[i]) + rest;
      AppendAssoc(InsertedText(p.inserts, env.next), FlatText(env.next, env.nextRank, cs[i]), rest);
    }
  }

  /**
   * `r` continues `p` by the preamble insertion of `key` at the cursor of `p`,
   * and ends with the text and postamble insertions of node `n`, each at the
   * cursor of its turn, the last followed by the postamble itself.
   */
  ghost predicate CreateShape(p: Pass, r: Pass, key: Key, n: Node)
  {
    && |r.inserts| >= |p.inserts| + 3
    && r.inserts[..|p.inserts| + 1] == p.inserts + [Insertion(p.cursor, key, Preamble)]
    && var t := r.inserts[|r.inserts| - 2].location;
       && r.inserts[|r.inserts| - 2..] == [Insertion(t, key, TextPart), Insertion(t + |n.text|, key, Postamble)]
       && r.cursor == t + |n.text| + |n.postamble|
  }

  /**
   * `createNode(key)` first pushes the preamble insertion at the cursor and
   * ends with the text and postamble insertions; what it pushes in between
   * belongs to the children.
   */
  lemma CreateOrder(env: Env, p: Pass, key: Key)
    requires env.Valid() && key in env.next
    ensures CreateShape(p, Create(env, p, key), key, env.next[key])
  {
    var n := env.next[key];
    var cs := ChildKeys(env.next, key);
    var p1 := Push(p, key, Preamble, |n.preamble|);
    var p2 := if n.IsElement() && |cs| > 0 then CreateChildren(env, p1, key, cs, 0) else p1;
    var r := Create(env, p, key);
    assert r == CreateAfterPreamble(env, p, key, p1);
    assert r == CreateTail(p2, key, n, p.cursor, p1.cursor);
    CreateTailOrder(p, p1, p2, key, n);
  }

  /** The tail of `createNode` keeps what came before and appends the text and postamble insertions. */
  lemma CreateTailOrder(p: Pass, p1: Pass, p2: Pass, key: Key, n: Node)
    requires p1.inserts == p.inserts + [Insertion(p.cursor, key, Preamble)]
    requires p1.inserts <= p2.inserts && p1.cursor <= p2.cursor
    ensures CreateShape(p, CreateTail(p2, key, n, p.cursor, p1.cursor), key, n)
  {
    var tail := [Insertion(p2.cursor, key, TextPart), Insertion(p2.cursor + |n.text|, key, Postamble)];
    var r := CreateTail(p2, key, n, p.cursor, p1.cursor);
    assert r.inserts[|r.inserts| - 2..] == tail;
    assert r.inserts[..|p1.inserts|] == p1.inserts;
  }

  // ---------------------------------------------------------------- destroyNode

  /** The total length of `ranges`. */
  function DeletedLength(ranges: seq<Range>): nat
  {
    if ranges == [] then 0 else DeletedLength(ranges[..|ranges| - 1]) + ranges[|ranges| - 1].length
  }

  /**
   * `destroyNode(key)` deletes ranges whose lengths add up to the flat text of
   * the old subtree, when the committed cache fits the previous snapshot.
   */
  lemma {:induction false} DestroyDeletes(env: Env, p: Pass, key: Key)
    requires env.Valid() && Placed(env.prev, env.prevRank, env.prevCache, key)
    ensures DeletedLength(Destroy(env, p, key).deletes) == DeletedLength(p.deletes) + |FlatText(env.prev, env.prevRank, key)|
    decreases RankOf(env.prevRank, key), 1
  {
    if key in env.prev {
      PlacedChildren(env.prev, env.prevRank, env.prevCache, key);
      var item := env.prevCache[key];
      var p1 := DeleteRange(p, Range(item.location, item.preambleLength));
      DeleteRangeLength(p, Range(item.location, item.preambleLength));
      var cs := ChildKeys(env.prev, key);
      if env.prev[key].IsElement() && |cs| > 0 {
        DestroyChildrenDeletes(env, p1, key, cs, 0);
      }
      var p2 := if env.prev[key].IsElement() && |cs| > 0 then DestroyChildren(env, p1, key, cs, 0) else p1;
      assert DeletedLength(p2.deletes) == DeletedLength(p1.deletes) + item.childrenLength;
      assert Destroy(env, p, key) == DestroyTail(p2, key, item, key !in env.next);
      DestroyTailLength(p2, key, item, key !in env.next);
      FitsLength(env.prev, env.prevRank, env.prevCache, key);
    }
  }

  /** A node's fitting entry spans exactly its flat text. */
  lemma FitsLength(nodeMap: Snapshot, rank: map<Key, nat>, cache: RangeCache, key: Key)
    requires WellFormed(nodeMap, rank) && FitsAt(nodeMap, rank, cache, key) && key in nodeMap
    ensures key in cache && |FlatText(nodeMap, rank, key)| == Total(cache[key])
  {
    var n := nodeMap[key];
    assert FlatText(nodeMap, rank, key) == n.preamble + ChildrenText(nodeMap, rank, key, ChildKeys(nodeMap, key), 0) + n.text + n.postamble;
  }

  /** The entire range of a node placed at `location` is exactly the span of its flat text there. */
  lemma EntireRangePlaced(nodeMap: Snapshot, rank: map<Key, nat>, cache: RangeCache, key: Key, location: nat)
    requires WellFormed(nodeMap, rank) && key in nodeMap && PlacedAt(nodeMap, rank, cache, key, location)
    ensures key in cache && EntireRange(cache[key]) == Range(location, |FlatText(nodeMap, rank, key)|)
  {
    assert FitsAt(nodeMap, rank, cache, key);
    FitsLength(nodeMap, rank, cache, key);
  }

  /** The end of `destroyNode` deletes the old text and postamble lengths. */
  lemma DestroyTailLength(p: Pass, key: Key, item: RangeCacheItem, gone: bool)
    ensures DeletedLength(DestroyTail(p, key, item, gone).deletes) == DeletedLength(p.deletes) + item.textLength + item.postambleLength
  {
    DeleteRangeLength(p, TextRange(item));
    DeleteRangeLength(DeleteRange(p, TextRange(item)), PostambleRangeOf(item));
  }

  lemma DeleteRangeLength(p: Pass, range: Range)
    ensures DeletedLength(DeleteRange(p, range).deletes) == DeletedLength(p.deletes) + range.length
  {
    assert (p.deletes + [range])[..|p.deletes|] == p.deletes;
  }

  lemma {:induction false} DestroyChildrenDeletes(env: Env, p: Pass, parent: Key, cs: seq<Key>, i: nat)
    requires env.Valid() && Placed(env.prev, env.prevRank, env.prevCache, parent)
    requires cs == ChildKeys(env.prev, parent) && i <= |cs|
    ensures DeletedLength(DestroyChildren(env, p, parent, cs, i).deletes)
         == DeletedLength(p.deletes) + |ChildrenText(env.prev, env.prevRank, parent, cs, i)|
    decreases RankOf(env.prevRank, parent), 0, |cs| - i
  {
    if i < |cs| {
      ChildBelow(env.prev, env.prevRank, parent, cs[i]);
      PlacedChildren(env.prev, env.prevRank, env.prevCache, parent);
      DestroyDeletes(env, p, cs[i]);
      DestroyChildrenDeletes(env, Destroy(env, p, cs[i]), parent, cs, i + 1);
    }
  }

  /**
   * `destroyNode(key)` first records the old preamble range and ends with the
   * old text and postamble ranges (`ReconcileDeletes.DestroyAppends` lists
   * the children's ranges in between). The entry of `key` is dropped exactly when the key is gone
   * from the next snapshot, and is otherwise left as it was.
   */
  lemma DestroyOrder(env: Env, p: Pass, key: Key)
    requires env.Valid() && key in env.prev && key in env.prevCache
    ensures var r := Destroy(env, p, key);
      var item := env.prevCache[key];
      && |r.deletes| >= |p.deletes| + 3
      && r.deletes[..|p.deletes| + 1] == p.deletes + [Range(item.location, item.preambleLength)]
      && r.deletes[|r.deletes| - 2..] == [TextRange(item), PostambleRangeOf(item)]
      && (key !in env.next ==> key !in r.cache)
      && (key in env.next ==> SameAt(p.cache, r.cache, key))
  {
    var item := env.prevCache[key];
    var cs := ChildKeys(env.prev, key);
    var p1 := DeleteRange(p, Range(item.location, item.preambleLength));
    var p2 := if env.prev[key].IsElement() && |cs| > 0 then DestroyChildren(env, p1, key, cs, 0) else p1;
    assert Destroy(env, p, key) == DestroyTail(p2, key, item, key !in env.next);
    assert p2.deletes[..|p.deletes| + 1] == p1.deletes;
    assert SameAt(p.cache, p2.cache, key);
  }

  // ---------------------------------------------------------------- reuse of clean subtrees

  /** `key` is in both snapshots as the same node object and is not marked dirty. */
  ghost predicate Clean(env: Env, key: Key)
  {
    key in env.prev && key in env.next && env.prev[key] == env.next[key] && !env.IsDirty(key)
  }

  /**
   * What the editor guarantees about dirty marks: a clean node keeps its
   * children, and they are clean too (changing a child marks its ancestors).
   */
  ghost predicate ReuseSound(env: Env)
  {
    forall k :: Clean(env, k) ==>
      && ChildKeys(env.prev, k) == ChildKeys(env.next, k)
      && (forall c :: c in ChildKeys(env.next, k) ==> Clean(env, c))
  }

  /** A key present in both snapshots is an element in both or in neither. */
  ghost predicate KindsStable(env: Env)
  {
    forall k :: k in env.prev && k in env.next ==> env.prev[k].IsElement() == env.next[k].IsElement()
  }

  /** A clean subtree has the same flat text in both snapshots. */
  lemma {:induction false} CleanFlatText(env: Env, key: Key)
    requires env.Valid() && ReuseSound(env) && Clean(env, key)
    ensures FlatText(env.prev, env.prevRank, key) == FlatText(env.next, env.nextRank, key)
    decreases RankOf(env.nextRank, key), 1
  {
    CleanChildrenText(env, key, ChildKeys(env.next, key), 0);
  }

  lemma {:induction false} CleanChildrenText(env: Env, parent: Key, cs: seq<Key>, i: nat)
    requires env.Valid() && ReuseSound(env) && Clean(env, parent)
    requires cs == ChildKeys(env.next, parent) && i <= |cs|
    ensures ChildKeys(env.prev, parent) == cs
    ensures ChildrenText(env.prev, env.prevRank, parent, cs, i) == ChildrenText(env.next, env.nextRank, parent, cs, i)
    decreases RankOf(env.nextRank, parent), 0, |cs| - i
  {
    if i < |cs| {
      ChildBelow(env.next, env.nextRank, parent, cs[i]);
      CleanFlatText(env, cs[i]);
      CleanChildrenText(env, parent, cs, i + 1);
    }
  }

  // ---------------------------------------------------------------- updateLocationOfNonDirtyNode

  /** Restamping a clean subtree moves the cursor over its flat text. */
  lemma {:induction false} RestampAdvance(env: Env, p: Pass, key: Key)
    requires env.Valid() && ReuseSound(env) && Placed(env.prev, env.prevRank, env.prevCache, key) && Clean(env, key)
    ensures Restamp(env, p, key).cursor == p.cursor + |FlatText(env.next, env.nextRank, key)|
    decreases RankOf(env.nextRank, key), 1
  {
    PlacedChildren(env.prev, env.prevRank, env.prevCache, key);
    var item := env.prevCache[key];
    var p2 := Advance(Relocate(p, key, item), item.preambleLength);
    if env.next[key].IsElement() {
      RestampChildrenAdvance(env, p2, key, ChildKeys(env.next, key), 0);
    }
  }

  lemma {:induction false} RestampChildrenAdvance(env: Env, p: Pass, parent: Key, cs: seq<Key>, i: nat)
    requires env.Valid() && ReuseSound(env) && Placed(env.prev, env.prevRank, env.prevCache, parent) && Clean(env, parent)
    requires cs == ChildKeys(env.next, parent) && i <= |cs|
    ensures RestampChildren(env, p, parent, cs, i).cursor == p.cursor + |ChildrenText(env.next, env.nextRank, parent, cs, i)|
    decreases RankOf(env.nextRank, parent), 0, |cs| - i
  {
    if i < |cs| {
      ChildBelow(env.next, env.nextRank, parent, cs[i]);
      PlacedChildren(env.prev, env.prevRank, env.prevCache, parent);
      assert cs[i] in ChildKeys(env.prev, parent);
      RestampAdvance(env, p, cs[i]);
      RestampChildrenAdvance(env, Restamp(env, p, cs[i]), parent, cs, i + 1);
    }
  }

  // ---------------------------------------------------------------- reconcileNode

  /**
   * The guard and the fast path of `reconcileNode`: a node missing from
   * either snapshot or from the committed cache changes nothing; a clean node
   * already at the cursor records nothing, keeps the cache and moves the
   * cursor over its whole old span.
   */
  lemma ReconcileGuard(env: Env, p: Pass, key: Key)
    requires env.Valid()
    ensures key !in env.prev || key !in env.next || key !in env.prevCache ==> Reconcile(env, p, key) == p
    ensures Clean(env, key) && key in env.prevCache && env.prevCache[key].location == p.cursor ==>
      var r := Reconcile(env, p, key);
      && r.deletes == p.deletes && r.inserts == p.inserts && r.cache == p.cache
      && r.cursor == p.cursor + Total(env.prevCache[key])
  {
  }

  /**
   * Reconciling a node present in both snapshots moves the cursor over its
   * flat text in the next snapshot, whichever path `reconcileNode` takes.
   */
  lemma {:induction false} ReconcileAdvance(env: Env, p: Pass, key: Key)
    requires env.Valid() && ReuseSound(env) && KindsStable(env) && Placed(env.prev, env.prevRank, env.prevCache, key)
    requires key in env.prev && key in env.next
    ensures Reconcile(env, p, key).cursor == p.cursor + |FlatText(env.next, env.nextRank, key)|
    decreases RankOf(env.prevRank, key), 1
  {
    PlacedChildren(env.prev, env.prevRank, env.prevCache, key);
    var prevRange := env.prevCache[key];
    if env.prev[key] == env.next[key] && !env.IsDirty(key) {
      if prevRange.location != p.cursor {
        RestampAdvance(env, p, key);
      } else {
        CleanFlatText(env, key);
      }
    } else {
      assert Reconcile(env, p, key) == ReconcileChanged(env, p, key);
      ChangedAdvance(env, p, key);
    }
  }

  /** The path of `reconcileNode` for a changed node moves the cursor over its next flat text. */
  lemma {:induction false} ChangedAdvance(env: Env, p: Pass, key: Key)
    requires env.Valid() && ReuseSound(env) && KindsStable(env) && Placed(env.prev, env.prevRank, env.prevCache, key)
    requires key in env.prev && key in env.next && key in env.prevCache
    ensures ReconcileChanged(env, p, key).cursor == p.cursor + |FlatText(env.next, env.nextRank, key)|
    decreases RankOf(env.prevRank, key), 0
  {
    PlacedChildren(env.prev, env.prevRank, env.prevCache, key);
    var prevRange := env.prevCache[key];
    var n := env.next[key];
    var p1 := AddRemove(p, key, prevRange.location, prevRange.preambleLength, |n.preamble|, Preamble);
    assert ReconcileChanged(env, p, key) == ReconcileAfterPreamble(env, p, key, p1);
    if n.IsElement() {
      ScanAdvance(env, p1, key, ChildKeys(env.prev, key), ChildKeys(env.next, key), 0, 0);
      assert ReconcileChildren(env, p1, key).cursor == p1.cursor + ChildrenLength(env.next, env.nextRank, key);
    }
  }

  /**
   * Whenever `reconcileNode(key)` writes the entry of `key` (the node changed,
   * or it is clean but has moved), the entry fits the next node at the cursor.
   */
  lemma ReconcileEntryFits(env: Env, p: Pass, key: Key)
    requires env.Valid() && ReuseSound(env) && KindsStable(env) && Placed(env.prev, env.prevRank, env.prevCache, key)
    requires key in env.prev && key in env.next && key in env.prevCache
    requires !Clean(env, key) || env.prevCache[key].location != p.cursor
    ensures key in Reconcile(env, p, key).cache
    ensures Reconcile(env, p, key).cache[key] == FittingItem(env.next[key], p.cursor, ChildrenLength(env.next, env.nextRank, key))
  {
    PlacedChildren(env.prev, env.prevRank, env.prevCache, key);
    var prevRange := env.prevCache[key];
    if Clean(env, key) {
      CleanChildrenText(env, key, ChildKeys(env.next, key), 0);
    } else {
      var n := env.next[key];
      var p1 := AddRemove(p, key, prevRange.location, prevRange.preambleLength, |n.preamble|, Preamble);
      assert Reconcile(env, p, key) == ReconcileChanged(env, p, key) == ReconcileAfterPreamble(env, p, key, p1);
      if n.IsElement() {
        ScanAdvance(env, p1, key, ChildKeys(env.prev, key), ChildKeys(env.next, key), 0, 0);
        assert ReconcileChildren(env, p1, key).cursor == p1.cursor + ChildrenLength(env.next, env.nextRank, key);
      }
    }
  }

  /** The hypotheses under which a scan over the children of `parent` is analysed. */
  ghost predicate ScanSetting(env: Env, parent: Key, prevChildren: seq<Key>, nextChildren: seq<Key>)
  {
    && env.Valid() && ReuseSound(env) && KindsStable(env) && Placed(env.prev, env.prevRank, env.prevCache, parent)
    && prevChildren == ChildKeys(env.prev, parent) && nextChildren == ChildKeys(env.next, parent)
  }

  /** The two-pointer scan moves the cursor over the flat text of the next children from `nextIndex` on. */
  lemma {:induction false} ScanAdvance(env: Env, p: Pass, parent: Key, prevChildren: seq<Key>, nextChildren: seq<Key>,
                                       prevIndex: nat, nextIndex: nat)
    requires ScanSetting(env, parent, prevChildren, nextChildren)
    requires prevIndex <= |prevChildren| && nextIndex <= |nextChildren|
    ensures ScanChildren(env, p, parent, prevChildren, nextChildren, prevIndex, nextIndex).cursor
         == p.cursor + |ChildrenText(env.next, env.nextRank, parent, nextChildren, nextIndex)|
    decreases RankOf(env.prevRank, parent), 0, |prevChildren| - prevIndex + |nextChildren| - nextIndex, 1
  {
    var scan := ScanChildren(env, p, parent, prevChildren, nextChildren, prevIndex, nextIndex);
    if prevIndex < |prevChildren| && nextIndex < |nextChildren| {
      var prevKey := prevChildren[prevIndex];
      var nextKey := nextChildren[nextIndex];
      if prevKey == nextKey {
        KeptChildAdvance(env, p, parent, prevChildren, nextChildren, prevIndex, nextIndex);
      } else if prevKey !in nextChildren {
        RemovedChildAdvance(env, p, parent, prevChildren, nextChildren, prevIndex, nextIndex);
      } else if nextKey !in prevChildren {
        InsertedChildAdvance(env, p, parent, prevChildren, nextChildren, prevIndex, nextIndex);
      } else {
        MovedChildAdvance(env, p, parent, prevChildren, nextChildren, prevIndex, nextIndex);
      }
    } else if nextIndex < |nextChildren| {
      CreateChildrenAdvance(env, p, parent, nextChildren, nextIndex);
      assert scan == CreateChildren(env, p, parent, nextChildren, nextIndex);
    } else {
      assert ChildrenText(env.next, env.nextRank, parent, nextChildren, nextIndex) == [];
      assert scan.cursor == p.cursor;
    }
  }

  /** A turn of the scan where both pointers name the same key: that child is reconciled. */
  lemma {:induction false} KeptChildAdvance(env: Env, p: Pass, parent: Key, prevChildren: seq<Key>, nextChildren: seq<Key>,
                                            prevIndex: nat, nextIndex: nat)
    requires ScanSetting(env, parent, prevChildren, nextChildren)
    requires prevIndex < |prevChildren| && nextIndex < |nextChildren|
    requires prevChildren[prevIndex] == nextChildren[nextIndex]
    ensures ScanChildren(env, p, parent, prevChildren, nextChildren, prevIndex, nextIndex).cursor
         == p.cursor + |ChildrenText(env.next, env.nextRank, parent, nextChildren, nextIndex)|
    decreases RankOf(env.prevRank, parent), 0, |prevChildren| - prevIndex + |nextChildren| - nextIndex, 0
  {
    var key := nextChildren[nextIndex];
    ChildBelow(env.prev, env.prevRank, parent, key);
    ChildBelow(env.next, env.nextRank, parent, key);
    var q := Reconcile(env, p, key);
    PlacedChildren(env.prev, env.prevRank, env.prevCache, parent);
    ReconcileAdvance(env, p, key);
    ScanAdvance(env, q, parent, prevChildren, nextChildren, prevIndex + 1, nextIndex + 1);
    assert ScanChildren(env, p, parent, prevChildren, nextChildren, prevIndex, nextIndex)
        == ScanChildren(env, q, parent, prevChildren, nextChildren, prevIndex + 1, nextIndex + 1);
  }

  /** A turn of the scan whose old child is not among the new children: it is destroyed. */
  lemma {:induction false} RemovedChildAdvance(env: Env, p: Pass, parent: Key, prevChildren: seq<Key>, nextChildren: seq<Key>,
                                               prevIndex: nat, nextIndex: nat)
    requires ScanSetting(env, parent, prevChildren, nextChildren)
    requires prevIndex < |prevChildren| && nextIndex < |nextChildren|
    requires prevChildren[prevIndex] != nextChildren[nextIndex] && prevChildren[prevIndex] !in nextChildren
    ensures ScanChildren(env, p, parent, prevChildren, nextChildren, prevIndex, nextIndex).cursor
         == p.cursor + |ChildrenText(env.next, env.nextRank, parent, nextChildren, nextIndex)|
    decreases RankOf(env.prevRank, parent), 0, |prevChildren| - prevIndex + |nextChildren| - nextIndex, 0
  {
    var q := Destroy(env, p, prevChildren[prevIndex]);
    ScanAdvance(env, q, parent, prevChildren, nextChildren, prevIndex + 1, nextIndex);
    assert ScanChildren(env, p, parent, prevChildren, nextChildren, prevIndex, nextIndex)
        == ScanChildren(env, q, parent, prevChildren, nextChildren, prevIndex + 1, nextIndex);
  }

  /** A turn of the scan whose new child is not among the old children: it is created. */
  lemma {:induction false} InsertedChildAdvance(env: Env, p: Pass, parent: Key, prevChildren: seq<Key>, nextChildren: seq<Key>,
                                                prevIndex: nat, nextIndex: nat)
    requires ScanSetting(env, parent, prevChildren, nextChildren)
    requires prevIndex < |prevChildren| && nextIndex < |nextChildren|
    requires prevChildren[prevIndex] != nextChildren[nextIndex] && prevChildren[prevIndex] in nextChildren
    requires nextChildren[nextIndex] !in prevChildren
    ensures ScanChildren(env, p, parent, prevChildren, nextChildren, prevIndex, nextIndex).cursor
         == p.cursor + |ChildrenText(env.next, env.nextRank, parent, nextChildren, nextIndex)|
    decreases RankOf(env.prevRank, parent), 0, |prevChildren| - prevIndex + |nextChildren| - nextIndex, 0
  {
    var nextKey := nextChildren[nextIndex];
    var q := Create(env, p, nextKey);
    CreateAdvance(env, p, nextKey);
    ScanAdvance(env, q, parent, prevChildren, nextChildren, prevIndex, nextIndex + 1);
    assert ScanChildren(env, p, parent, prevChildren, nextChildren, prevIndex, nextIndex)
        == ScanChildren(env, q, parent, prevChildren, nextChildren, prevIndex, nextIndex + 1);
  }

  /**
   * A turn of the scan where each pointer names a child the other list also
   * holds (a move): the old child is destroyed, then the new one is created.
   */
  lemma {:induction false} MovedChildAdvance(env: Env, p: Pass, parent: Key, prevChildren: seq<Key>, nextChildren: seq<Key>,
                                             prevIndex: nat, nextIndex: nat)
    requires ScanSetting(env, parent, prevChildren, nextChildren)
    requires prevIndex < |prevChildren| && nextIndex < |nextChildren|
    requires prevChildren[prevIndex] != nextChildren[nextIndex] && prevChildren[prevIndex] in nextChildren
    requires nextChildren[nextIndex] in prevChildren
    ensures ScanChildren(env, p, parent, prevChildren, nextChildren, prevIndex, nextIndex).cursor
         == p.cursor + |ChildrenText(env.next, env.nextRank, parent, nextChildren, nextIndex)|
    decreases RankOf(env.prevRank, parent), 0, |prevChildren| - prevIndex + |nextChildren| - nextIndex, 0
  {
    var nextKey := nextChildren[nextIndex];
    var base := Destroy(env, p, prevChildren[prevIndex]);
    var q := Create(env, base, nextKey);
    CreateAdvance(env, base, nextKey);
    ScanAdvance(env, q, parent, prevChildren, nextChildren, prevIndex + 1, nextIndex + 1);
    assert ScanChildren(env, p, parent, prevChildren, nextChildren, prevIndex, nextIndex)
        == ScanChildren(env, q, parent, prevChildren, nextChildren, prevIndex + 1, nextIndex + 1);
  }

  // ---------------------------------------------------------------- updateEditorState

  /**
   * A pass whose root is clean (the same node object, not marked dirty) sends
   * no deletion and no insertion: the native view only sees the editing
   * bracket and the cache commit. When the committed cache places the root
   * at offset 0, the pass commits that same cache again.
   */
  lemma UnchangedPassLog(env: Env)
    requires env.Valid() && Clean(env, RootKey)
    ensures Replay(Reconcile(env, InitialPass(env.prevCache), RootKey), env.next)
         == [StartEditing, CommitRangeCache, EndEditing]
    ensures PlacedAt(env.prev, env.prevRank, env.prevCache, RootKey, 0) ==>
      Reconcile(env, InitialPass(env.prevCache), RootKey).cache == env.prevCache
  {
    var r := Reconcile(env, InitialPass(env.prevCache), RootKey);
    assert r.deletes == [] && r.inserts == [];
  }
}
