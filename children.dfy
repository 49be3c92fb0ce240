/**
 * Child lists of element nodes, read off the `__first` / `__next` sibling
 * links of a snapshot, and the flat text a snapshot stands for.
 */
module Children {
  import opened Types

  datatype ChildrenError =
    | MissingNode(key: Key)       // a link names a key the node map lacks (the `invariant` failure)
    | CycleInSiblings(key: Key)   // the chain comes back to a key: `createChildrenArray` never ends

  /**
   * The keys reached by following `__next` links from `cur`; `visited` are
   * the keys already passed.
   */
  function Siblings(nodeMap: Snapshot, cur: Option<Key>, visited: set<Key>): (r: Result<seq<Key>, ChildrenError>)
    ensures r.Ok? ==> forall i :: 0 <= i < |r.value| ==> r.value[i] in nodeMap && r.value[i] !in visited
    ensures r.Ok? && cur.None? ==> r.value == []
    ensures r.Ok? && cur.Some? ==> |r.value| > 0 && r.value[0] == cur.value
    decreases nodeMap.Keys - visited
  {
    match cur
    case None => Ok([])
    case Some(k) =>
      if k !in nodeMap then Err(MissingNode(k))
      else if k in visited then Err(CycleInSiblings(k))
      else
        match Siblings(nodeMap, nodeMap[k].next, visited + {k})
        case Ok(rest) => Ok([k] + rest)
        case Err(e) => Err(e)
  }

  /**
   * A sibling chain that ends is a list of distinct keys, each the `__next`
   * of the one before, the last without one.
   */
  lemma {:induction false} SiblingsChain(nodeMap: Snapshot, cur: Option<Key>, visited: set<Key>)
    ensures var r := Siblings(nodeMap, cur, visited);
      && (r.Ok? ==> forall i, j :: 0 <= i < j < |r.value| ==> r.value[i] != r.value[j])
      && (r.Ok? ==> forall j :: 0 <= j < |r.value| - 1 ==> nodeMap[r.value[j]].next == Some(r.value[j + 1]))
      && (r.Ok? && |r.value| > 0 ==> nodeMap[r.value[|r.value| - 1]].next.None?)
    decreases nodeMap.Keys - visited
  {
    if cur.Some? && cur.value in nodeMap && cur.value !in visited {
      var k := cur.value;
      SiblingsChain(nodeMap, nodeMap[k].next, visited + {k});
    }
  }

  /** What `createChildrenArray(element, nodeMap)` computes. */
  function ChildrenOf(nodeMap: Snapshot, element: Node): (r: Result<seq<Key>, ChildrenError>)
  {
    Siblings(nodeMap, element.first, {})
  }

  /** Prefixes a successful result with `acc`. */
  function Prepend(acc: seq<Key>, r: Result<seq<Key>, ChildrenError>): Result<seq<Key>, ChildrenError>
  {
    match r
    case Ok(v) => Ok(acc + v)
    case Err(e) => Err(e)
  }

  lemma PrependEmpty(r: Result<seq<Key>, ChildrenError>)
    ensures Prepend([], r) == r
  {
    if r.Ok? { assert [] + r.value == r.value; }
  }

  lemma PrependTwice(a: seq<Key>, b: seq<Key>, r: Result<seq<Key>, ChildrenError>)
    ensures Prepend(a, Prepend(b, r)) == Prepend(a + b, r)
  {
    if r.Ok? { assert a + (b + r.value) == (a + b) + r.value; }
  }

  /**
   * `createChildrenArray`: follows the sibling chain from `element.__first`.
   * A link to a key missing from the map is its `invariant` failure. On a
   * cyclic chain the TypeScript loop never ends, so that input is excluded.
   */
  method CreateChildrenArray(element: Node, nodeMap: Snapshot) returns (r: Result<seq<Key>, ChildrenError>)
    requires !(ChildrenOf(nodeMap, element).Err? && ChildrenOf(nodeMap, element).error.CycleInSiblings?)
    ensures r == ChildrenOf(nodeMap, element)
  {
    var children: seq<Key> := [];
    var nodeKey := element.first;
    ghost var visited: set<Key> := {};
    PrependEmpty(ChildrenOf(nodeMap, element));
    while nodeKey.Some?
      invariant ChildrenOf(nodeMap, element) == Prepend(children, Siblings(nodeMap, nodeKey, visited))
      decreases nodeMap.Keys - visited
    {
      var k := nodeKey.value;
      if k !in nodeMap {
        return Err(MissingNode(k));
      }
      ghost var rest := Siblings(nodeMap, nodeMap[k].next, visited + {k});
      PrependTwice(children, [k], rest);
      children := children + [k];
      visited := visited + {k};
      nodeKey := nodeMap[k].next;
    }
    assert children + [] == children;
    return Ok(children);
  }

  /**
   * The child keys of `key` as `getChildrenKeys()` gives them: the sibling
   * chain of an element, nothing for any other node.
   */
  function ChildKeys(nodeMap: Snapshot, key: Key): (cs: seq<Key>)
  {
    if key in nodeMap && nodeMap[key].IsElement() then
      match ChildrenOf(nodeMap, nodeMap[key])
      case Ok(cs) => cs
      case Err(_) => []
    else []
  }

  /** No key occurs twice among the children of `key`. */
  lemma ChildKeysDistinct(nodeMap: Snapshot, key: Key)
    ensures var cs := ChildKeys(nodeMap, key);
      forall i, j :: 0 <= i < j < |cs| ==> cs[i] != cs[j]
  {
    if key in nodeMap && nodeMap[key].IsElement() {
      SiblingsChain(nodeMap, nodeMap[key].first, {});
    }
  }

  function RankOf(rank: map<Key, nat>, k: Key): nat
  {
    if k in rank then rank[k] else 0
  }

  /** `k` lies strictly below `a` in the ranking that orders the tree. */
  predicate Below(rank: map<Key, nat>, a: Key, k: Key)
  {
    RankOf(rank, k) < RankOf(rank, a)
  }

  /**
   * A consistent snapshot: every element's sibling chain ends without a
   * missing link, and `rank` strictly decreases from parent to child, so the
   * parent/child relation has no cycle.
   */
  ghost predicate WellFormed(nodeMap: Snapshot, rank: map<Key, nat>)
  {
    && (forall k {:trigger ChildrenOf(nodeMap, nodeMap[k])} :: k in nodeMap && nodeMap[k].IsElement() ==> ChildrenOf(nodeMap, nodeMap[k]).Ok?)
    && (forall k, c {:trigger c in ChildKeys(nodeMap, k)} :: k in nodeMap && c in ChildKeys(nodeMap, k) ==> c in nodeMap && Below(rank, k, c))
  }

  /** A child of a well-formed snapshot is present and ranks below its parent. */
  lemma ChildBelow(nodeMap: Snapshot, rank: map<Key, nat>, parent: Key, c: Key)
    requires WellFormed(nodeMap, rank) && c in ChildKeys(nodeMap, parent)
    ensures c in nodeMap && Below(rank, parent, c)
  {
  }

  /** The flat text of the subtree at `key`: preamble, children, text, postamble. */
  ghost function FlatText(nodeMap: Snapshot, rank: map<Key, nat>, key: Key): (s: Utf16)
    requires WellFormed(nodeMap, rank)
    decreases RankOf(rank, key), 1
  {
    if key !in nodeMap then []
    else
      var n := nodeMap[key];
      n.preamble + ChildrenText(nodeMap, rank, key, ChildKeys(nodeMap, key), 0) + n.text + n.postamble
  }

  /** The concatenated flat text of `cs[i..]`, the children of `parent`. */
  ghost function ChildrenText(nodeMap: Snapshot, rank: map<Key, nat>, parent: Key, cs: seq<Key>, i: nat): Utf16
    requires WellFormed(nodeMap, rank)
    requires cs == ChildKeys(nodeMap, parent) && i <= |cs|
    decreases RankOf(rank, parent), 0, |cs| - i
  {
    if i == |cs| then []
    else
      assert cs[i] in ChildKeys(nodeMap, parent);
      FlatText(nodeMap, rank, cs[i]) + ChildrenText(nodeMap, rank, parent, cs, i + 1)
  }

  /** The keys of the subtree at `key`: the key itself and the subtrees of its children. */
  ghost function Subtree(nodeMap: Snapshot, rank: map<Key, nat>, key: Key): (keys: set<Key>)
    requires WellFormed(nodeMap, rank)
    ensures key in keys
    decreases RankOf(rank, key), 1
  {
    {key} + ChildrenSubtrees(nodeMap, rank, key, ChildKeys(nodeMap, key), 0)
  }

  /** The keys of the subtrees of `cs[i..]`, the children of `parent`. */
  ghost function ChildrenSubtrees(nodeMap: Snapshot, rank: map<Key, nat>, parent: Key, cs: seq<Key>, i: nat): set<Key>
    requires WellFormed(nodeMap, rank)
    requires cs == ChildKeys(nodeMap, parent) && i <= |cs|
    decreases RankOf(rank, parent), 0, |cs| - i
  {
    if i == |cs| then {}
    else
      ChildBelow(nodeMap, rank, parent, cs[i]);
      Subtree(nodeMap, rank, cs[i]) + ChildrenSubtrees(nodeMap, rank, parent, cs, i + 1)
  }

  /** The subtree at `key` is `key` and the subtrees of its children. */
  lemma SubtreeStep(nodeMap: Snapshot, rank: map<Key, nat>, key: Key)
    requires WellFormed(nodeMap, rank)
    ensures Subtree(nodeMap, rank, key) == {key} + ChildrenSubtrees(nodeMap, rank, key, ChildKeys(nodeMap, key), 0)
  {
  }

  /** The subtrees of `cs[i..]` are those of `cs[i]` and of `cs[i + 1..]`. */
  lemma ChildrenSubtreesStep(nodeMap: Snapshot, rank: map<Key, nat>, parent: Key, cs: seq<Key>, i: nat)
    requires WellFormed(nodeMap, rank)
    requires cs == ChildKeys(nodeMap, parent) && i < |cs|
    ensures ChildrenSubtrees(nodeMap, rank, parent, cs, i)
         == Subtree(nodeMap, rank, cs[i]) + ChildrenSubtrees(nodeMap, rank, parent, cs, i + 1)
  {
  }

  /**
   * The snapshot is a tree: the subtrees of two different children of a
   * node share no key (every node has one parent and appears once among
   * its siblings).
   */
  ghost predicate Tree(nodeMap: Snapshot, rank: map<Key, nat>)
    requires WellFormed(nodeMap, rank)
  {
    forall k, i, j :: 0 <= i < j < |ChildKeys(nodeMap, k)| ==>
      Subtree(nodeMap, rank, ChildKeys(nodeMap, k)[i]) !! Subtree(nodeMap, rank, ChildKeys(nodeMap, k)[j])
  }

  /** Every key below `key` ranks below it. */
  lemma {:induction false} SubtreeBelow(nodeMap: Snapshot, rank: map<Key, nat>, key: Key, k: Key)
    requires WellFormed(nodeMap, rank) && k in Subtree(nodeMap, rank, key)
    ensures k == key || Below(rank, key, k)
    decreases RankOf(rank, key), 1
  {
    if k != key {
      ChildrenSubtreesBelow(nodeMap, rank, key, ChildKeys(nodeMap, key), 0, k);
    }
  }

  /** Every key in the subtrees of children of `parent` ranks below `parent`. */
  lemma {:induction false} ChildrenSubtreesBelow(nodeMap: Snapshot, rank: map<Key, nat>, parent: Key, cs: seq<Key>, i: nat, k: Key)
    requires WellFormed(nodeMap, rank)
    requires cs == ChildKeys(nodeMap, parent) && i <= |cs|
    requires k in ChildrenSubtrees(nodeMap, rank, parent, cs, i)
    ensures Below(rank, parent, k)
    decreases RankOf(rank, parent), 0, |cs| - i
  {
    ChildBelow(nodeMap, rank, parent, cs[i]);
    if k in Subtree(nodeMap, rank, cs[i]) {
      SubtreeBelow(nodeMap, rank, cs[i], k);
    } else {
      ChildrenSubtreesBelow(nodeMap, rank, parent, cs, i + 1, k);
    }
  }

  /** A key in the subtrees of `cs[m..]` lies in the subtree of one of them. */
  lemma {:induction false} InChildrenSubtrees(nodeMap: Snapshot, rank: map<Key, nat>, parent: Key, cs: seq<Key>, m: nat, k: Key)
    returns (j: nat)
    requires WellFormed(nodeMap, rank)
    requires cs == ChildKeys(nodeMap, parent) && m <= |cs|
    requires k in ChildrenSubtrees(nodeMap, rank, parent, cs, m)
    ensures m <= j < |cs| && k in Subtree(nodeMap, rank, cs[j])
    decreases |cs| - m
  {
    if k in Subtree(nodeMap, rank, cs[m]) {
      j := m;
    } else {
      j := InChildrenSubtrees(nodeMap, rank, parent, cs, m + 1, k);
    }
  }

  /** In a tree, the subtree of a child shares no key with those of the children after it. */
  lemma LaterSiblingsDisjoint(nodeMap: Snapshot, rank: map<Key, nat>, parent: Key, cs: seq<Key>, i: nat)
    requires WellFormed(nodeMap, rank) && Tree(nodeMap, rank)
    requires cs == ChildKeys(nodeMap, parent) && i < |cs|
    ensures Subtree(nodeMap, rank, cs[i]) !! ChildrenSubtrees(nodeMap, rank, parent, cs, i + 1)
  {
    forall k | k in Subtree(nodeMap, rank, cs[i]) && k in ChildrenSubtrees(nodeMap, rank, parent, cs, i + 1)
      ensures false
    {
      var j := InChildrenSubtrees(nodeMap, rank, parent, cs, i + 1, k);
    }
  }
}
