/**
 * Offset to position: `evaluateNode` walks the tree from a key and maps a
 * flat-text offset to a node key, an offset in that node and a kind;
 * `pointAtStringLocation` keeps only the kinds that make a selection point.
 */
module Evaluation {
  import opened Types
  import opened Children
  import opened Ranges

  datatype SearchResultType = StartBoundary | EndBoundary | TextResult | ElementResult | Illegal

  datatype SearchResult = SearchResult(nodeKey: Key, kind: SearchResultType, offset: nat)

  datatype PointType = TextPoint | ElementPoint

  datatype Point = Point(key: Key, offset: nat, kind: PointType)

  /** JavaScript `Array.prototype.indexOf`: the first index holding `k`, or -1. */
  function IndexOf(s: seq<Key>, k: Key): (r: int)
    ensures -1 <= r < |s|
    ensures r >= 0 ==> s[r] == k && forall j :: 0 <= j < r ==> s[j] != k
    ensures r < 0 <==> k !in s
  {
    if s == [] then -1
    else if s[0] == k then 0
    else
      var r := IndexOf(s[1..], k);
      if r < 0 then -1 else r + 1
  }

  /** The classification of an offset that no child claimed (the tail of `evaluateNode`). */
  function Classify(key: Key, item: RangeCacheItem, node: Node, stringLocation: nat): (r: SearchResult)
    ensures r.nodeKey == key && r.offset == 0 && r.kind != TextResult
    ensures r.kind == ElementResult ==> stringLocation == item.location
    ensures r.kind == EndBoundary ==> Total(item) > 0 && stringLocation == item.location + Total(item)
  {
    if EntireRange(item).length == 0 then
      if stringLocation == item.location then SearchResult(key, ElementResult, 0)
      else SearchResult(key, StartBoundary, 0)
    else if stringLocation == item.location then
      if item.preambleLength == 0 && node.IsElement() then SearchResult(key, ElementResult, 0)
      else SearchResult(key, StartBoundary, 0)
    else if stringLocation == item.location + EntireRange(item).length then
      SearchResult(key, EndBoundary, 0)
    else
      SearchResult(key, Illegal, 0)
  }

  /** The result of `evaluateNode(key, stringLocation, rangeCache)` on snapshot `nodeMap`. */
  ghost function Evaluate(nodeMap: Snapshot, cache: RangeCache, rank: map<Key, nat>, key: Key, stringLocation: nat): Option<SearchResult>
    requires WellFormed(nodeMap, rank)
    decreases RankOf(rank, key), 1
  {
    if key !in cache || key !in nodeMap then None
    else
      var item := cache[key];
      var node := nodeMap[key];
      if !RangeContains(RangeByAddingOne(EntireRange(item)), stringLocation) then None
      else if node.IsText() && RangeContains(RangeByAddingOne(TextRange(item)), stringLocation) then
        Some(SearchResult(key, TextResult, stringLocation - TextRange(item).location))
      else
        var fromChildren :=
          if node.IsElement() then SearchChildren(nodeMap, cache, rank, key, ChildKeys(nodeMap, key), 0, stringLocation, None)
          else None;
        if fromChildren.Some? then fromChildren
        else Some(Classify(key, item, node, stringLocation))
  }

  /**
   * The loop over the children of `parent` from index `i` on: the first text
   * or element result of a child is the answer; otherwise the last boundary
   * seen, turned into an element position of `parent`, is kept in `boundary`.
   */
  ghost function SearchChildren(
    nodeMap: Snapshot, cache: RangeCache, rank: map<Key, nat>,
    parent: Key, cs: seq<Key>, i: nat, stringLocation: nat, boundary: Option<SearchResult>): Option<SearchResult>
    requires WellFormed(nodeMap, rank)
    requires cs == ChildKeys(nodeMap, parent) && i <= |cs|
    decreases RankOf(rank, parent), 0, |cs| - i
  {
    if i == |cs| then boundary
    else
      ChildBelow(nodeMap, rank, parent, cs[i]);
      match Evaluate(nodeMap, cache, rank, cs[i], stringLocation)
      case None => SearchChildren(nodeMap, cache, rank, parent, cs, i + 1, stringLocation, boundary)
      case Some(result) =>
        if result.kind == TextResult || result.kind == ElementResult then Some(result)
        else
          var childIndex := IndexOf(cs, cs[i]);
          var boundary' :=
            if result.kind == StartBoundary then Some(SearchResult(parent, ElementResult, childIndex))
            else if result.kind == EndBoundary then Some(SearchResult(parent, ElementResult, childIndex + 1))
            else boundary;
          SearchChildren(nodeMap, cache, rank, parent, cs, i + 1, stringLocation, boundary')
  }

  /** `evaluateNode`, with its loop over the children and its early return. */
  method EvaluateNode(nodeMap: Snapshot, cache: RangeCache, ghost rank: map<Key, nat>, key: Key, stringLocation: nat)
    returns (r: Option<SearchResult>)
    requires WellFormed(nodeMap, rank)
    ensures r == Evaluate(nodeMap, cache, rank, key, stringLocation)
    decreases RankOf(rank, key), 1
  {
    if key !in cache || key !in nodeMap {
      return None;
    }
    var item := cache[key];
    var node := nodeMap[key];
    if !RangeContains(RangeByAddingOne(EntireRange(item)), stringLocation) {
      return None;
    }
    if node.IsText() {
      var expandedTextRange := RangeByAddingOne(TextRange(item));
      if RangeContains(expandedTextRange, stringLocation) {
        return Some(SearchResult(key, TextResult, stringLocation - expandedTextRange.location));
      }
    }
    if node.IsElement() {
      var childrenArray := ChildKeys(nodeMap, key);
      var possibleBoundary: Option<SearchResult> := None;
      for i := 0 to |childrenArray|
        invariant SearchChildren(nodeMap, cache, rank, key, childrenArray, i, stringLocation, possibleBoundary)
               == SearchChildren(nodeMap, cache, rank, key, childrenArray, 0, stringLocation, None)
      {
        var childKey := childrenArray[i];
        ChildBelow(nodeMap, rank, key, childKey);
        var result := EvaluateNode(nodeMap, cache, rank, childKey, stringLocation);
        if result.None? {
          continue;
        }
        if result.value.kind == TextResult || result.value.kind == ElementResult {
          return result;
        }
        var childIndex := IndexOf(childrenArray, childKey);
        if result.value.kind == StartBoundary {
          possibleBoundary := Some(SearchResult(key, ElementResult, childIndex));
        }
        if result.value.kind == EndBoundary {
          possibleBoundary := Some(SearchResult(key, ElementResult, childIndex + 1));
        }
      }
      if possibleBoundary.Some? {
        return possibleBoundary;
      }
    }
    return Some(Classify(key, item, node, stringLocation));
  }

  /**
   * `pointAtStringLocation`: searches from the root and answers with a point
   * only for a text or an element result.
   */
  method PointAtStringLocation(location: nat, rangeCache: RangeCache, nodeMap: Snapshot, ghost rank: map<Key, nat>)
    returns (p: Option<Point>)
    requires WellFormed(nodeMap, rank)
    ensures var s := Evaluate(nodeMap, rangeCache, rank, RootKey, location);
      && (p.Some? <==> s.Some? && s.value.kind in {TextResult, ElementResult})
      && (p.Some? ==> p.value.key == s.value.nodeKey && p.value.offset == s.value.offset)
      && (p.Some? ==> (p.value.kind == TextPoint <==> s.value.kind == TextResult))
  {
    var searchResult := EvaluateNode(nodeMap, rangeCache, rank, RootKey, location);
    if searchResult.None? {
      return None;
    }
    match searchResult.value.kind
    case StartBoundary => return None;
    case EndBoundary => return None;
    case Illegal => return None;
    case TextResult => return Some(Point(searchResult.value.nodeKey, searchResult.value.offset, TextPoint));
    case ElementResult => return Some(Point(searchResult.value.nodeKey, searchResult.value.offset, ElementPoint));
  }

  /**
   * What any answer of the search guarantees: the node exists and has a
   * cache entry whose widened span holds the offset; a text answer points
   * into the node's text (up to one past its end, since the text range is
   * widened by one and compared inclusively); an element answer is a child
   * index between 0 and the number of children; boundary and illegal
   * answers carry offset 0.
   */
  ghost predicate Anchored(nodeMap: Snapshot, cache: RangeCache, stringLocation: nat, r: SearchResult)
  {
    && r.nodeKey in nodeMap && r.nodeKey in cache
    && cache[r.nodeKey].location <= stringLocation <= cache[r.nodeKey].location + Total(cache[r.nodeKey]) + 1
    && (r.kind == TextResult ==>
          && nodeMap[r.nodeKey].IsText()
          && stringLocation == TextRange(cache[r.nodeKey]).location + r.offset
          && r.offset <= cache[r.nodeKey].textLength + 1)
    && (r.kind == ElementResult ==> r.offset <= |ChildKeys(nodeMap, r.nodeKey)|)
    && (r.kind !in {TextResult, ElementResult} ==> r.offset == 0)
  }

  /** An absent answer, or an anchored one. */
  ghost predicate AnchoredOrNone(nodeMap: Snapshot, cache: RangeCache, stringLocation: nat, r: Option<SearchResult>)
  {
    r.Some? ==> Anchored(nodeMap, cache, stringLocation, r.value)
  }

  lemma {:induction false} EvaluateAnchored(nodeMap: Snapshot, cache: RangeCache, rank: map<Key, nat>, key: Key, stringLocation: nat)
    requires WellFormed(nodeMap, rank)
    ensures AnchoredOrNone(nodeMap, cache, stringLocation, Evaluate(nodeMap, cache, rank, key, stringLocation))
    decreases RankOf(rank, key), 1
  {
    if key in cache && key in nodeMap && nodeMap[key].IsElement()
      && RangeContains(RangeByAddingOne(EntireRange(cache[key])), stringLocation)
    {
      SearchChildrenAnchored(nodeMap, cache, rank, key, ChildKeys(nodeMap, key), 0, stringLocation, None);
    }
  }

  lemma {:induction false} SearchChildrenAnchored(
    nodeMap: Snapshot, cache: RangeCache, rank: map<Key, nat>,
    parent: Key, cs: seq<Key>, i: nat, stringLocation: nat, boundary: Option<SearchResult>)
    requires WellFormed(nodeMap, rank)
    requires cs == ChildKeys(nodeMap, parent) && i <= |cs|
    requires parent in nodeMap && parent in cache
    requires cache[parent].location <= stringLocation <= cache[parent].location + Total(cache[parent]) + 1
    requires AnchoredOrNone(nodeMap, cache, stringLocation, boundary)
    ensures AnchoredOrNone(nodeMap, cache, stringLocation, SearchChildren(nodeMap, cache, rank, parent, cs, i, stringLocation, boundary))
    decreases RankOf(rank, parent), 0, |cs| - i
  {
    if i < |cs| {
      ChildBelow(nodeMap, rank, parent, cs[i]);
      EvaluateAnchored(nodeMap, cache, rank, cs[i], stringLocation);
      if Decisive(nodeMap, cache, rank, cs, i, stringLocation) {
        SearchChildrenFirst(nodeMap, cache, rank, parent, cs, i, stringLocation, boundary, i);
      } else {
        SearchChildrenStep(nodeMap, cache, rank, parent, cs, i, stringLocation, boundary);
        var boundary' := BoundaryAfter(nodeMap, cache, rank, parent, cs, i, stringLocation, boundary);
        BoundaryAfterAnchored(nodeMap, cache, rank, parent, cs, i, stringLocation, boundary);
        SearchChildrenAnchored(nodeMap, cache, rank, parent, cs, i + 1, stringLocation, boundary');
      }
    }
  }

  /** Child `j` of `cs` answers with a text or an element result, which ends the children loop. */
  ghost predicate Decisive(nodeMap: Snapshot, cache: RangeCache, rank: map<Key, nat>, cs: seq<Key>, j: int, stringLocation: nat)
    requires WellFormed(nodeMap, rank)
  {
    0 <= j < |cs| &&
    var e := Evaluate(nodeMap, cache, rank, cs[j], stringLocation);
    e.Some? && (e.value.kind == TextResult || e.value.kind == ElementResult)
  }

  /** Child `j` of `cs` answers with a start or an end boundary. */
  ghost predicate Bounding(nodeMap: Snapshot, cache: RangeCache, rank: map<Key, nat>, cs: seq<Key>, j: int, stringLocation: nat)
    requires WellFormed(nodeMap, rank)
  {
    0 <= j < |cs| &&
    var e := Evaluate(nodeMap, cache, rank, cs[j], stringLocation);
    e.Some? && (e.value.kind == StartBoundary || e.value.kind == EndBoundary)
  }

  /**
   * The state the children loop passes on after child `i`: a start boundary
   * becomes element offset `i` of `parent`, an end boundary offset `i + 1`,
   * and any other answer keeps `boundary`.
   */
  ghost function BoundaryAfter(nodeMap: Snapshot, cache: RangeCache, rank: map<Key, nat>,
                               parent: Key, cs: seq<Key>, i: nat, stringLocation: nat, boundary: Option<SearchResult>): Option<SearchResult>
    requires WellFormed(nodeMap, rank) && i < |cs|
  {
    var e := Evaluate(nodeMap, cache, rank, cs[i], stringLocation);
    if e.Some? && e.value.kind == StartBoundary then Some(SearchResult(parent, ElementResult, i))
    else if e.Some? && e.value.kind == EndBoundary then Some(SearchResult(parent, ElementResult, i + 1))
    else boundary
  }

  /** The element position a boundary of child `i` becomes is within the child count of `parent`. */
  lemma BoundaryAfterAnchored(
    nodeMap: Snapshot, cache: RangeCache, rank: map<Key, nat>,
    parent: Key, cs: seq<Key>, i: nat, stringLocation: nat, boundary: Option<SearchResult>)
    requires WellFormed(nodeMap, rank)
    requires cs == ChildKeys(nodeMap, parent) && i < |cs|
    requires parent in nodeMap && parent in cache
    requires cache[parent].location <= stringLocation <= cache[parent].location + Total(cache[parent]) + 1
    requires AnchoredOrNone(nodeMap, cache, stringLocation, boundary)
    ensures AnchoredOrNone(nodeMap, cache, stringLocation, BoundaryAfter(nodeMap, cache, rank, parent, cs, i, stringLocation, boundary))
  {
  }

  /** A child that gives no text or element answer hands the loop on to the next child. */
  lemma SearchChildrenStep(
    nodeMap: Snapshot, cache: RangeCache, rank: map<Key, nat>,
    parent: Key, cs: seq<Key>, i: nat, stringLocation: nat, boundary: Option<SearchResult>)
    requires WellFormed(nodeMap, rank)
    requires cs == ChildKeys(nodeMap, parent) && i < |cs|
    requires !Decisive(nodeMap, cache, rank, cs, i, stringLocation)
    ensures SearchChildren(nodeMap, cache, rank, parent, cs, i, stringLocation, boundary)
         == SearchChildren(nodeMap, cache, rank, parent, cs, i + 1, stringLocation,
                           BoundaryAfter(nodeMap, cache, rank, parent, cs, i, stringLocation, boundary))
  {
    ChildKeysDistinct(nodeMap, parent);
    assert IndexOf(cs, cs[i]) == i;
  }

  /**
   * The first child from `i` on that answers `text` or `element` gives the
   * answer of the children loop.
   */
  lemma {:induction false} SearchChildrenFirst(
    nodeMap: Snapshot, cache: RangeCache, rank: map<Key, nat>,
    parent: Key, cs: seq<Key>, i: nat, stringLocation: nat, boundary: Option<SearchResult>, j: nat)
    requires WellFormed(nodeMap, rank)
    requires cs == ChildKeys(nodeMap, parent) && i <= j
    requires Decisive(nodeMap, cache, rank, cs, j, stringLocation)
    requires forall j' :: i <= j' < j ==> !Decisive(nodeMap, cache, rank, cs, j', stringLocation)
    ensures SearchChildren(nodeMap, cache, rank, parent, cs, i, stringLocation, boundary)
         == Evaluate(nodeMap, cache, rank, cs[j], stringLocation)
    decreases j - i
  {
    if i == j {
      assert SearchChildren(nodeMap, cache, rank, parent, cs, i, stringLocation, boundary)
          == Evaluate(nodeMap, cache, rank, cs[i], stringLocation);
    } else {
      SearchChildrenStep(nodeMap, cache, rank, parent, cs, i, stringLocation, boundary);
      SearchChildrenFirst(nodeMap, cache, rank, parent, cs, i + 1, stringLocation,
                          BoundaryAfter(nodeMap, cache, rank, parent, cs, i, stringLocation, boundary), j);
    }
  }

  /**
   * When no child from `i` on answers `text`, `element` or a boundary, the
   * loop ends with the boundary it was given.
   */
  lemma {:induction false} SearchChildrenNoAnswer(
    nodeMap: Snapshot, cache: RangeCache, rank: map<Key, nat>,
    parent: Key, cs: seq<Key>, i: nat, stringLocation: nat, boundary: Option<SearchResult>)
    requires WellFormed(nodeMap, rank)
    requires cs == ChildKeys(nodeMap, parent) && i <= |cs|
    requires forall j :: i <= j ==> !Decisive(nodeMap, cache, rank, cs, j, stringLocation)
                                    && !Bounding(nodeMap, cache, rank, cs, j, stringLocation)
    ensures SearchChildren(nodeMap, cache, rank, parent, cs, i, stringLocation, boundary) == boundary
    decreases |cs| - i
  {
    if i < |cs| {
      assert !Decisive(nodeMap, cache, rank, cs, i, stringLocation) && !Bounding(nodeMap, cache, rank, cs, i, stringLocation);
      SearchChildrenStep(nodeMap, cache, rank, parent, cs, i, stringLocation, boundary);
      SearchChildrenNoAnswer(nodeMap, cache, rank, parent, cs, i + 1, stringLocation, boundary);
    }
  }

  /**
   * When no child from `i` on answers `text` or `element`, the last child
   * `j` that answers with a boundary gives the answer: element offset `j` of
   * `parent` for a start boundary, `j + 1` for an end boundary.
   */
  lemma {:induction false} SearchChildrenLastBoundary(
    nodeMap: Snapshot, cache: RangeCache, rank: map<Key, nat>,
    parent: Key, cs: seq<Key>, i: nat, stringLocation: nat, boundary: Option<SearchResult>, j: nat)
    requires WellFormed(nodeMap, rank)
    requires cs == ChildKeys(nodeMap, parent) && i <= j
    requires forall j' :: i <= j' ==> !Decisive(nodeMap, cache, rank, cs, j', stringLocation)
    requires Bounding(nodeMap, cache, rank, cs, j, stringLocation)
    requires forall j' :: j < j' ==> !Bounding(nodeMap, cache, rank, cs, j', stringLocation)
    ensures SearchChildren(nodeMap, cache, rank, parent, cs, i, stringLocation, boundary)
         == Some(SearchResult(parent, ElementResult,
                 if Evaluate(nodeMap, cache, rank, cs[j], stringLocation).value.kind == StartBoundary then j else j + 1))
    decreases j - i
  {
    assert !Decisive(nodeMap, cache, rank, cs, i, stringLocation);
    SearchChildrenStep(nodeMap, cache, rank, parent, cs, i, stringLocation, boundary);
    var boundary' := BoundaryAfter(nodeMap, cache, rank, parent, cs, i, stringLocation, boundary);
    if i == j {
      SearchChildrenNoAnswer(nodeMap, cache, rank, parent, cs, i + 1, stringLocation, boundary');
    } else {
      SearchChildrenLastBoundary(nodeMap, cache, rank, parent, cs, i + 1, stringLocation, boundary', j);
    }
  }

  /**
   * The search answers nothing exactly when the node or its cache entry is
   * missing or the offset lies outside `[location, location + total + 1]`.
   */
  lemma EvaluateNoneIff(nodeMap: Snapshot, cache: RangeCache, rank: map<Key, nat>, key: Key, stringLocation: nat)
    requires WellFormed(nodeMap, rank)
    ensures Evaluate(nodeMap, cache, rank, key, stringLocation).None?
        <==> key !in cache || key !in nodeMap
             || stringLocation < cache[key].location
             || stringLocation > cache[key].location + Total(cache[key]) + 1
  {
  }

  /**
   * A node without children answers `text` inside its widened text range
   * (text nodes only) and otherwise by the zero-length, start and end rules.
   */
  lemma EvaluateLeaf(nodeMap: Snapshot, cache: RangeCache, rank: map<Key, nat>, key: Key, stringLocation: nat)
    requires WellFormed(nodeMap, rank)
    requires key in cache && key in nodeMap && !nodeMap[key].IsElement()
    requires cache[key].location <= stringLocation <= cache[key].location + Total(cache[key]) + 1
    ensures var item := cache[key];
      var t := TextRange(item).location;
      Evaluate(nodeMap, cache, rank, key, stringLocation) ==
        if nodeMap[key].IsText() && t <= stringLocation <= t + item.textLength + 1
        then Some(SearchResult(key, TextResult, stringLocation - t))
        else Some(Classify(key, item, nodeMap[key], stringLocation))
  {
  }

  /**
   * The tail rules: a zero-length span answers `element` only at its
   * location; a start location answers `element` only for an element with
   * no preamble; the end location answers `endBoundary`; anything else in
   * between is `illegal`.
   */
  lemma ClassifyCases(key: Key, item: RangeCacheItem, node: Node, stringLocation: nat)
    ensures var r := Classify(key, item, node, stringLocation);
      && r.nodeKey == key && r.offset == 0
      && (Total(item) == 0 ==> (r.kind == ElementResult <==> stringLocation == item.location)
                               && (r.kind != ElementResult ==> r.kind == StartBoundary))
      && (Total(item) > 0 && stringLocation == item.location ==>
            r.kind == (if item.preambleLength == 0 && node.IsElement() then ElementResult else StartBoundary))
      && (Total(item) > 0 && stringLocation == item.location + Total(item) ==> r.kind == EndBoundary)
      && ((Total(item) > 0 && stringLocation != item.location && stringLocation != item.location + Total(item))
            ==> r.kind == Illegal)
  {
  }

  /**
   * An element whose widened span holds the offset and whose first child
   * answers `text` or `element` gives that child's answer: the children are
   * asked before the element's own tail rules.
   */
  lemma EvaluateFirstChild(nodeMap: Snapshot, cache: RangeCache, rank: map<Key, nat>, key: Key, stringLocation: nat)
    requires WellFormed(nodeMap, rank)
    requires key in cache && key in nodeMap && nodeMap[key].IsElement()
    requires cache[key].location <= stringLocation <= cache[key].location + Total(cache[key]) + 1
    requires Decisive(nodeMap, cache, rank, ChildKeys(nodeMap, key), 0, stringLocation)
    ensures Evaluate(nodeMap, cache, rank, key, stringLocation)
         == Evaluate(nodeMap, cache, rank, ChildKeys(nodeMap, key)[0], stringLocation)
  {
    SearchChildrenFirst(nodeMap, cache, rank, key, ChildKeys(nodeMap, key), 0, stringLocation, None, 0);
  }

  /** A one-node document: a text node "Hello" at offset 0. */
  function HelloDocument(): Snapshot
  {
    map[RootKey := Node(0, TextKind, None, None, [], [0x48, 0x65, 0x6C, 0x6C, 0x6F], [])]
  }

  function HelloCache(): RangeCache
  {
    map[RootKey := RangeCacheItem(0, 0, 0, 5, 0)]
  }

  /**
   * Offset 3 inside the five-character text answers `text` at 3, and
   * offset 6, one past the text's end, still answers `text`, at 6.
   */
  lemma HelloSearch()
    ensures WellFormed(HelloDocument(), map[])
    ensures Evaluate(HelloDocument(), HelloCache(), map[], RootKey, 3) == Some(SearchResult(RootKey, TextResult, 3))
    ensures Evaluate(HelloDocument(), HelloCache(), map[], RootKey, 6) == Some(SearchResult(RootKey, TextResult, 6))
    ensures Evaluate(HelloDocument(), HelloCache(), map[], RootKey, 7) == None
  {
    assert ChildKeys(HelloDocument(), RootKey) == [];
  }

  /** A root element without a preamble whose one child is the text node "t" holding `text`. */
  function NestedDocument(text: Utf16): Snapshot
  {
    map[RootKey := Node(0, ElementKind, Some("t"), None, [], [], []),
        "t" := Node(1, TextKind, None, None, [], text, [])]
  }

  /** The cache that places the nested document at offset 0. */
  function NestedCache(text: Utf16): RangeCache
  {
    map[RootKey := RangeCacheItem(0, 0, |text|, 0, 0), "t" := RangeCacheItem(0, 0, 0, |text|, 0)]
  }

  function NestedRank(): map<Key, nat>
  {
    map[RootKey := 1, "t" := 0]
  }

  /** The root's sibling chain is "t" alone, and "t" has no children. */
  lemma NestedChildren(text: Utf16)
    ensures ChildKeys(NestedDocument(text), RootKey) == ["t"]
    ensures ChildKeys(NestedDocument(text), "t") == []
  {
    var nodeMap := NestedDocument(text);
    var none: seq<Key> := [];
    assert Siblings(nodeMap, None, {"t"}) == Ok(none);
    assert Siblings(nodeMap, Some("t"), {}) == Ok(["t"] + none);
    assert ["t"] + none == ["t"];
  }

  lemma NestedWellFormed(text: Utf16)
    ensures WellFormed(NestedDocument(text), NestedRank())
  {
    var nodeMap := NestedDocument(text);
    NestedChildren(text);
    forall k | k in nodeMap
      ensures ChildKeys(nodeMap, k) == (if k == RootKey then ["t"] else [])
    {
    }
  }

  /**
   * Offset 0 is the start of the root, and the tail rules classify the root
   * there as `element`; yet the search asks the children first, and the text
   * child answers, whatever its text: offset 0 names "t", not the root.
   */
  lemma NestedSearch(text: Utf16)
    ensures WellFormed(NestedDocument(text), NestedRank())
    ensures Classify(RootKey, NestedCache(text)[RootKey], NestedDocument(text)[RootKey], 0).kind == ElementResult
    ensures Evaluate(NestedDocument(text), NestedCache(text), NestedRank(), RootKey, 0)
         == Some(SearchResult("t", TextResult, 0))
  {
    var nodeMap, cache, rank := NestedDocument(text), NestedCache(text), NestedRank();
    NestedWellFormed(text);
    NestedChildren(text);
    EvaluateLeaf(nodeMap, cache, rank, "t", 0);
    EvaluateFirstChild(nodeMap, cache, rank, RootKey, 0);
  }
}
