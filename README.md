# Flat-text reconciler of the Lexical React Native frontend

The React Native frontend of Lexical does not render the document tree.
Instead it keeps one native text view whose content is the document's *flat
text*: for every node, its preamble, then the flat text of its children,
then its own text, then its postamble. For each node the editor keeps a
*range cache* entry: where the node's span starts and how long each of the
four parts is.

When an update commits, `updateEditorState` walks the previous and next
editor states from `root`. In the walk:

- a clean node that was reused is only re-located in the cache;
- a dirty or replaced node has its parts deleted and re-inserted;
- removed subtrees are destroyed and new subtrees are created;
- the child lists of an element are diffed with a two-pointer scan.

The walk records deletions and insertions. These are then sent to the
native view, deletions in reverse order and insertions in order, and the
new range cache is committed. `pointAtStringLocation` goes the other way: it
maps an offset in the flat text back to a node position, using the range
cache.

The model is organised as follows:

- `Types`: snapshots (a `map` from key to node), range-cache items, ranges and pending insertions. Text is a sequence of UTF-16 code units, so every length and offset counts code units as JavaScript does.
- `Children`: the sibling-chain walk (`createChildrenArray`), and a snapshot's flat text.
- `Ranges`: the four range helpers.
- `Evaluation`: the offset search (`evaluateNode`, `pointAtStringLocation`).
- `ReconcileSpec`: every procedure of the walk as a function on the pass state.
  - The pass state holds the cursor, the delete list, the insert list and the next cache.
- `Reconciler`: the class `ReconcilerState`, whose methods change that state in place.
  - Each method is proved to end in exactly the state that the matching `ReconcileSpec` function gives.
- `Update`: the entry point. It returns the calls made on the native view as a log of events.
- `ReconcileLemmas`: what a pass achieves.
  - The cursor moves over exactly the new flat text.
  - Written cache entries fit their nodes.
  - A destroyed subtree deletes exactly its old length.
  - An unchanged document produces no edits.
- `ReconcileDeletes`: the ranges a pass deletes.
  - Each procedure appends a fixed list of ranges, whatever pass it starts from.
  - Under a placing committed cache, the ranges lie in the old flat text in ascending order, without overlap.
- `ReconcilePlacement`: where a pass leaves the cache entries.
  - A committed cache that places every node at its offset in the flat text leads to a next cache that does the same for the next tree.
  - A moved clean subtree keeps its old entries, relocated.

## Model

| member | source | states |
|---|---|---|
| ReconcileLemmas.EntireRangePlaced | packages/lexical-react-native/src/js/LexicalMobileReconciler.ts:36-45 | when the cache places a node at an offset, the entire range of its entry starts at that offset and is exactly as long as the node's flat text |
| Ranges.TextRange | packages/lexical-react-native/src/js/LexicalMobileReconciler.ts:47-52 | the text range starts after the preamble and the children, and its end plus the postamble length is the end of the entire range |
| Ranges.RangeByAddingOne | packages/lexical-react-native/src/js/LexicalMobileReconciler.ts:72-74 | the widened range starts where the range does and contains the offset `location + length + 1`, one past the range's inclusive end, which the range itself does not contain |
| Ranges.TextRangeWithinEntire | packages/lexical-react-native/src/js/LexicalMobileReconciler.ts:36-51 | the text range of an item starts inside its entire range and ends exactly where the postamble begins |
| Ranges.ContainsAfterAddingOne | packages/lexical-react-native/src/js/LexicalMobileReconciler.ts:72-81 | widening a range by one and testing inclusively accepts exactly the offsets from `location` to `location + length + 1`; anything the plain range contains, the widened one contains |
| Children.Siblings | packages/lexical-react-native/src/js/LexicalMobileReconciler.ts:572-587 | the sibling chain holds only keys of the node map, never revisits a key, is empty without a first link and starts with that link otherwise |
| Children.CreateChildrenArray | packages/lexical-react-native/src/js/LexicalMobileReconciler.ts:572-587 | the loop over `__next` links returns the sibling chain of the element, or the missing-node error at the first link to an absent key |
| Children.SiblingsChain | packages/lexical-react-native/src/js/LexicalMobileReconciler.ts:572-587 | the sibling chain holds no key twice, the `__next` link of each key names the key after it, and the last key has no `__next` link |
| Children.ChildKeysDistinct | packages/lexical-react-native/src/js/LexicalMobileReconciler.ts:572-587 | no key occurs twice among the children of an element |
| Evaluation.IndexOf | packages/lexical-react-native/src/js/LexicalMobileReconciler.ts:148 | the result is the first index holding the key, or -1 exactly when the key is absent |
| Evaluation.EvaluateNode | packages/lexical-react-native/src/js/LexicalMobileReconciler.ts:104-197 | the recursive search with its children loop and early return gives the result of the reference definition `Evaluate` |
| Evaluation.PointAtStringLocation | packages/lexical-react-native/src/js/LexicalMobileReconciler.ts:83-102 | a point is returned exactly when the search from the root answers `text` or `element`; it carries the answer's key and offset, and it is a text point exactly for a `text` answer |
| Evaluation.EvaluateAnchored | packages/lexical-react-native/src/js/LexicalMobileReconciler.ts:104-197 | any answer names a node that has a cache entry whose widened span holds the offset; a text answer is a text node and points at most one past its text; an element answer is a child index at most the number of children; other answers carry offset 0 |
| Evaluation.SearchChildrenAnchored | packages/lexical-react-native/src/js/LexicalMobileReconciler.ts:135-170 | the children loop keeps the answer anchored: whatever it returns is either a child's anchored answer or an element answer of the parent at an index at most its child count |
| Evaluation.SearchChildrenFirst | packages/lexical-react-native/src/js/LexicalMobileReconciler.ts:135-170 | the loop returns the answer of the first child (from `i` on) whose search answers `text` or `element` |
| Evaluation.SearchChildrenLastBoundary | packages/lexical-react-native/src/js/LexicalMobileReconciler.ts:135-170 | when no child from `i` on answers `text` or `element`, the last child `j` that answers a boundary decides: element offset `j` of the parent for `startBoundary`, `j + 1` for `endBoundary` (the keys are distinct, so `indexOf` finds `j`) |
| Evaluation.SearchChildrenNoAnswer | packages/lexical-react-native/src/js/LexicalMobileReconciler.ts:135-170 | when no child from `i` on answers `text`, `element` or a boundary, the loop returns the boundary answer it came in with |
| Evaluation.EvaluateNoneIff | packages/lexical-react-native/src/js/LexicalMobileReconciler.ts:109-121 | the search answers nothing exactly when the node or its entry is missing or the offset is outside `[location, location + total + 1]` |
| Evaluation.EvaluateLeaf | packages/lexical-react-native/src/js/LexicalMobileReconciler.ts:123-132 | for a node without children: a `text` answer inside the widened text range of a text node, the tail rules otherwise |
| Evaluation.Classify | packages/lexical-react-native/src/js/LexicalMobileReconciler.ts:172-196 | the tail answers about the node itself with offset 0 and never `text`; `element` only at the node's location; `endBoundary` only at the end of a non-empty span |
| Evaluation.ClassifyCases | packages/lexical-react-native/src/js/LexicalMobileReconciler.ts:169-196 | tail rules: a zero-length span answers `element` only at its location and `startBoundary` elsewhere; a span's start answers `element` only for an element with no preamble; its end answers `endBoundary`; other offsets answer `illegal` |
| Evaluation.HelloSearch | packages/lexical-react-native/src/js/LexicalMobileReconciler.ts:104-132 | on a one-node "Hello" document, offsets 3 and 6 answer `text` at 3 and 6, and offset 7 answers nothing |
| Evaluation.EvaluateFirstChild | packages/lexical-react-native/src/js/LexicalMobileReconciler.ts:135-170 | an element whose widened span holds the offset and whose first child answers `text` or `element` gives that child's answer, before its own tail rules |
| Evaluation.NestedSearch | packages/lexical-react-native/src/js/LexicalMobileReconciler.ts:104-197 | for a root element without a preamble whose one child is a text node, whatever its text, the tail rules classify the root at offset 0 as `element`, yet the search from the root answers a `text` position of the child at 0 |
| ReconcileSpec.Restamp | packages/lexical-react-native/src/js/LexicalMobileReconciler.ts:512-546 | no deletion or insertion is recorded; the cursor never moves back; the key's entry becomes its old entry moved to the cursor; every other cache change is below the key |
| ReconcileSpec.RestampAfterPreamble | packages/lexical-react-native/src/js/LexicalMobileReconciler.ts:538-545 | the children, text and postamble step records nothing and changes the cache only below the key |
| ReconcileSpec.RestampChildren | packages/lexical-react-native/src/js/LexicalMobileReconciler.ts:539-541 | restamping the children records nothing and changes the cache only below the parent |
| ReconcileSpec.Create | packages/lexical-react-native/src/js/LexicalMobileReconciler.ts:729-788 | creating a subtree records no deletion, never moves the cursor back and only appends insertions |
| ReconcileSpec.CreateAfterPreamble | packages/lexical-react-native/src/js/LexicalMobileReconciler.ts:754-787 | the rest of `createNode` records no deletion, never moves the cursor back and only appends insertions |
| ReconcileSpec.CreateTail | packages/lexical-react-native/src/js/LexicalMobileReconciler.ts:767-787 | the text insertion at the cursor and the postamble insertion after the text are appended, the cursor moves over both, and no deletion is recorded |
| ReconcileSpec.CreateChildren | packages/lexical-react-native/src/js/LexicalMobileReconciler.ts:790-800 | creating children records no deletion, never moves the cursor back and only appends insertions |
| ReconcileSpec.Destroy | packages/lexical-react-native/src/js/LexicalMobileReconciler.ts:676-727 | destroying leaves the cursor and insertions alone and only appends deletions; it never adds or changes a cache entry; every dropped entry belongs to the key or a node below it, and to a node absent from the next state |
| ReconcileSpec.DestroyTail | packages/lexical-react-native/src/js/LexicalMobileReconciler.ts:705-726 | the text range and then the postamble range of the old entry are appended to the deletions; the entry is dropped exactly when the node is gone |
| ReconcileSpec.DestroyChildren | packages/lexical-react-native/src/js/LexicalMobileReconciler.ts:802-812 | destroying children leaves the cursor and insertions alone, only appends deletions, only drops cache entries, and only those of nodes below the parent that are gone |
| ReconcileSpec.Reconcile | packages/lexical-react-native/src/js/LexicalMobileReconciler.ts:404-489 | reconciling never moves the cursor back |
| ReconcileSpec.ReconcileChanged | packages/lexical-react-native/src/js/LexicalMobileReconciler.ts:436-489 | the path for a changed node never moves the cursor back |
| ReconcileSpec.ReconcileAfterPreamble | packages/lexical-react-native/src/js/LexicalMobileReconciler.ts:455-488 | the children and tail steps never move the cursor back |
| ReconcileSpec.ReconcileTail | packages/lexical-react-native/src/js/LexicalMobileReconciler.ts:463-488 | the cursor ends past the new text and the new postamble |
| ReconcileSpec.ReconcileChildren | packages/lexical-react-native/src/js/LexicalMobileReconciler.ts:589-613 | diffing the child lists never moves the cursor back |
| ReconcileSpec.ScanChildren | packages/lexical-react-native/src/js/LexicalMobileReconciler.ts:615-674 | the two-pointer scan never moves the cursor back |
| ReconcileSpec.StringFromInsertion | packages/lexical-react-native/src/js/LexicalMobileReconciler.ts:492-510 | the string of an insertion is the preamble, text or postamble of the node, as the insertion's part names; a key missing from the node map gives the empty string |
| Reconciler.ReconcilerState.constructor | packages/lexical-react-native/src/js/LexicalMobileReconciler.ts:365-375 | the state starts with cursor 0, no ranges recorded, and the next cache a copy of the committed cache |
| Reconciler.ReconcilerState.CreateAddRemoveRanges | packages/lexical-react-native/src/js/LexicalMobileReconciler.ts:548-569 | a deletion is recorded only for a non-empty old part and an insertion at the old cursor only for a non-empty new part; the cursor moves by the new length; the cache is kept |
| Reconciler.ReconcilerState.ReconcileNode | packages/lexical-react-native/src/js/LexicalMobileReconciler.ts:404-489 | the state after `reconcileNode(key)` is `Reconcile` of the state before |
| Reconciler.ReconcilerState.ReconcileNodeTail | packages/lexical-react-native/src/js/LexicalMobileReconciler.ts:463-488 | the text and postamble diff and the new entry give `ReconcileTail` of the state before |
| Reconciler.ReconcilerState.UpdateLocationOfNonDirtyNode | packages/lexical-react-native/src/js/LexicalMobileReconciler.ts:512-546 | the recursive restamp with its children loop gives `Restamp` of the state before; `RestampPlaces` states the entries this leaves for the whole subtree |
| Reconciler.ReconcilerState.ReconcileChildren | packages/lexical-react-native/src/js/LexicalMobileReconciler.ts:589-613 | the state after `reconcileChildren(key)` is `ReconcileChildren` of the state before |
| Reconciler.ReconcilerState.ReconcileNodeChildren | packages/lexical-react-native/src/js/LexicalMobileReconciler.ts:615-674 | the two-pointer loop and its tail give `ScanChildren` from both pointers at 0 |
| Reconciler.ReconcilerState.DestroyNode | packages/lexical-react-native/src/js/LexicalMobileReconciler.ts:676-727 | the state after `destroyNode(key)` is `Destroy` of the state before |
| Reconciler.ReconcilerState.DestroyNodeTail | packages/lexical-react-native/src/js/LexicalMobileReconciler.ts:705-726 | the text range, the postamble range and the entry removal give `DestroyTail` of the state before |
| Reconciler.ReconcilerState.CreateNode | packages/lexical-react-native/src/js/LexicalMobileReconciler.ts:729-788 | the state after `createNode(key)` is `Create` of the state before |
| Reconciler.ReconcilerState.CreateNodeTail | packages/lexical-react-native/src/js/LexicalMobileReconciler.ts:767-787 | the text and postamble insertions and the new entry give `CreateTail` of the state before |
| Reconciler.ReconcilerState.CreateChildren | packages/lexical-react-native/src/js/LexicalMobileReconciler.ts:790-800 | the loop over the children from `startIndex` gives `CreateChildren` of the state before |
| Reconciler.ReconcilerState.DestroyChildren | packages/lexical-react-native/src/js/LexicalMobileReconciler.ts:802-812 | the loop over the children from `startIndex` gives `DestroyChildren` of the state before |
| Update.Editor.constructor | packages/lexical-react-native/src/js/LexicalMobileReconciler.ts:366-372 | the editor holds the given committed cache and dirty sets |
| Update.SendDeletions | packages/lexical-react-native/src/js/LexicalMobileReconciler.ts:381-388 | the calls are one delete per non-empty range, in the given order |
| Update.SendInsertions | packages/lexical-react-native/src/js/LexicalMobileReconciler.ts:390-398 | the calls are one insert per insertion with a non-empty string, in order, each at the insertion's location |
| Update.UpdateEditorState | packages/lexical-react-native/src/js/LexicalMobileReconciler.ts:359-402 | the native view sees, in order: start editing, the deletions of the pass from the root (last recorded first), its insertions, the cache commit and end editing; the editor's cache becomes the pass's next cache |
| ReconcileLemmas.CreateAdvance | packages/lexical-react-native/src/js/LexicalMobileReconciler.ts:729-788 | `createNode` moves the cursor over exactly the new subtree's flat text, and it leaves an entry at the old cursor that fits the node |
| ReconcileLemmas.CreateOrder | packages/lexical-react-native/src/js/LexicalMobileReconciler.ts:729-788 | `createNode` first pushes the preamble insertion at the starting cursor and ends with the text insertion and then the postamble insertion right after the text; the cursor ends past the postamble |
| ReconcileLemmas.CreateChildrenAdvance | packages/lexical-react-native/src/js/LexicalMobileReconciler.ts:790-800 | creating `cs[i..]` moves the cursor over exactly their concatenated flat text |
| ReconcileLemmas.CreateInserts | packages/lexical-react-native/src/js/LexicalMobileReconciler.ts:729-788 | the insertions of `createNode`, read in order, spell exactly the subtree's flat text; each lands right after the text before it |
| ReconcileLemmas.CreateChildrenInserts | packages/lexical-react-native/src/js/LexicalMobileReconciler.ts:790-800 | the insertions for `cs[i..]` spell exactly the children's flat text, contiguously |
| ReconcileLemmas.DestroyDeletes | packages/lexical-react-native/src/js/LexicalMobileReconciler.ts:676-727 | when the committed cache places the old subtree, the ranges `destroyNode` records add up to the length of the subtree's old flat text |
| ReconcileLemmas.DestroyOrder | packages/lexical-react-native/src/js/LexicalMobileReconciler.ts:676-727 | `destroyNode` first records the old preamble range at the entry's location and ends with the old text range and then the old postamble range; the entry is dropped exactly when the key is gone from the next state and is otherwise left as it was |
| ReconcileLemmas.DestroyChildrenDeletes | packages/lexical-react-native/src/js/LexicalMobileReconciler.ts:802-812 | destroying `cs[i..]` records ranges that add up to their old flat text |
| ReconcileLemmas.CleanFlatText | packages/lexical-react-native/src/js/LexicalMobileReconciler.ts:419-434 | a clean subtree (same node object, not dirty) has the same flat text in both states |
| ReconcileLemmas.CleanChildrenText | packages/lexical-react-native/src/js/LexicalMobileReconciler.ts:538-542 | a clean element keeps its child list and its children's flat text |
| ReconcileLemmas.RestampAdvance | packages/lexical-react-native/src/js/LexicalMobileReconciler.ts:512-546 | restamping a clean subtree moves the cursor over exactly its flat text |
| ReconcileLemmas.RestampChildrenAdvance | packages/lexical-react-native/src/js/LexicalMobileReconciler.ts:538-542 | restamping clean children moves the cursor over exactly their flat text |
| ReconcileLemmas.ReconcileGuard | packages/lexical-react-native/src/js/LexicalMobileReconciler.ts:404-434 | a node missing from either state or from the committed cache changes nothing; a clean node already at the cursor records nothing, keeps the next cache and moves the cursor by its entry's total length |
| ReconcileLemmas.ReconcileAdvance | packages/lexical-react-native/src/js/LexicalMobileReconciler.ts:404-489 | whichever path `reconcileNode` takes (skip, restamp or diff), it moves the cursor over exactly the next flat text of the node |
| ReconcileLemmas.ChangedAdvance | packages/lexical-react-native/src/js/LexicalMobileReconciler.ts:436-488 | for a dirty or replaced node, the preamble, children, text and postamble steps move the cursor over exactly its next flat text |
| ReconcileLemmas.ReconcileEntryFits | packages/lexical-react-native/src/js/LexicalMobileReconciler.ts:423-488 | when `reconcileNode` writes a node's entry, the entry sits at the old cursor and fits the next node |
| ReconcileLemmas.ScanAdvance | packages/lexical-react-native/src/js/LexicalMobileReconciler.ts:615-674 | the two-pointer scan moves the cursor over exactly the flat text of the next children from `nextIndex` on |
| ReconcileLemmas.KeptChildAdvance | packages/lexical-react-native/src/js/LexicalMobileReconciler.ts:634-637 | a turn on a shared key advances over that child's next flat text |
| ReconcileLemmas.RemovedChildAdvance | packages/lexical-react-native/src/js/LexicalMobileReconciler.ts:649-652 | a turn that destroys an old child does not move the cursor |
| ReconcileLemmas.InsertedChildAdvance | packages/lexical-react-native/src/js/LexicalMobileReconciler.ts:653-655 | a turn that creates a new child absent from the old list advances over that child's flat text |
| ReconcileLemmas.MovedChildAdvance | packages/lexical-react-native/src/js/LexicalMobileReconciler.ts:656-662 | a move turn destroys the old child, creates the new one and advances over the new child's flat text |
| ReconcileLemmas.UnchangedPassLog | packages/lexical-react-native/src/js/LexicalMobileReconciler.ts:359-434 | when the root is clean, the native view sees only start editing, the cache commit and end editing; if the committed cache places the old tree at offset 0, the committed cache is handed back unchanged |
| ReconcileDeletes.DestroyAppends | packages/lexical-react-native/src/js/LexicalMobileReconciler.ts:676-727 | `destroyNode(key)` appends to the delete list exactly the ranges `DestroyRanges` lists (old preamble, the children's ranges, old text, old postamble), whatever the pass it starts from |
| ReconcileDeletes.DestroyChildrenAppends | packages/lexical-react-native/src/js/LexicalMobileReconciler.ts:802-812 | destroying `cs[i..]` appends exactly the ranges of each child's `destroyNode`, child by child |
| ReconcileDeletes.ReconcileAppends | packages/lexical-react-native/src/js/LexicalMobileReconciler.ts:404-489 | `reconcileNode(key)` appends exactly the ranges `ReconcileRanges` lists: none on the fast path or for a restamped node, and otherwise the non-empty old parts around the children's ranges |
| ReconcileDeletes.ChangedAppends | packages/lexical-react-native/src/js/LexicalMobileReconciler.ts:436-489 | the path for a changed node appends the old preamble range if non-empty, the children's ranges, then the old text and postamble ranges if non-empty |
| ReconcileDeletes.ChildrenAppends | packages/lexical-react-native/src/js/LexicalMobileReconciler.ts:589-613 | `reconcileChildren(key)` appends exactly the ranges of the scan over the two child lists of an element kept as an element |
| ReconcileDeletes.ScanAppends | packages/lexical-react-native/src/js/LexicalMobileReconciler.ts:615-674 | the scan from both pointers appends exactly `ScanRanges` from the same pointers, including the trailing destroy of the old children left over |
| ReconcileDeletes.KeptAppends | packages/lexical-react-native/src/js/LexicalMobileReconciler.ts:634-637 | a turn on a shared key appends that child's `reconcileNode` ranges, then the rest of the scan's |
| ReconcileDeletes.RemovedAppends | packages/lexical-react-native/src/js/LexicalMobileReconciler.ts:649-652 | a turn on an old key the new list lacks appends its `destroyNode` ranges, then the rest of the scan's |
| ReconcileDeletes.InsertedAppends | packages/lexical-react-native/src/js/LexicalMobileReconciler.ts:653-655 | a turn that creates a new child appends nothing of its own |
| ReconcileDeletes.MovedAppends | packages/lexical-react-native/src/js/LexicalMobileReconciler.ts:656-662 | a move turn appends the `destroyNode` ranges of the old key, then the rest of the scan's from both next keys |
| ReconcileDeletes.DestroyRangesInOrder | packages/lexical-react-native/src/js/LexicalMobileReconciler.ts:676-727 | for a subtree the committed cache places at an offset, the ranges `destroyNode` records lie within the old span of its flat text there, each ending at or before the start of the next |
| ReconcileDeletes.DestroyChildrenRangesInOrder | packages/lexical-react-native/src/js/LexicalMobileReconciler.ts:802-812 | for placed children `cs[i..]`, the ranges destroying them records lie in order within the old span of their flat text |
| ReconcileDeletes.ReconcileRangesInOrder | packages/lexical-react-native/src/js/LexicalMobileReconciler.ts:404-489 | for a subtree placed at an offset, the ranges `reconcileNode` records lie in order within the old span of its flat text |
| ReconcileDeletes.ChildrenRangesInOrder | packages/lexical-react-native/src/js/LexicalMobileReconciler.ts:589-613 | for placed children, the ranges `reconcileChildren` records lie in order within the old span of the children's flat text |
| ReconcileDeletes.ScanRangesInOrder | packages/lexical-react-native/src/js/LexicalMobileReconciler.ts:615-674 | the ranges the scan records from `prevIndex` on lie in order within the old span of the old children from `prevIndex` on: the old pointer only moves forward |
| ReconcileDeletes.KeptInOrder | packages/lexical-react-native/src/js/LexicalMobileReconciler.ts:634-637 | on a shared-key turn, the child's ranges lie in its old span and the rest of the scan's after it |
| ReconcileDeletes.RemovedInOrder | packages/lexical-react-native/src/js/LexicalMobileReconciler.ts:649-652 | on a destroy turn, the destroyed child's ranges lie in its old span and the rest of the scan's after it |
| ReconcileDeletes.MovedInOrder | packages/lexical-react-native/src/js/LexicalMobileReconciler.ts:656-662 | on a move turn, the destroyed old child's ranges lie in its old span and the rest of the scan's after it |
| ReconcileDeletes.DestroyDeletesInOrder | packages/lexical-react-native/src/js/LexicalMobileReconciler.ts:676-727 | `destroyNode(key)` on a placed subtree appends ranges that lie inside the entire range of the committed entry of `key`, in ascending order and pairwise disjoint |
| ReconcileDeletes.PassRanges | packages/lexical-react-native/src/js/LexicalMobileReconciler.ts:359-402 | the delete list of a pass from the root is exactly the ranges `reconcileNode(root)` records |
| ReconcileDeletes.PassDeletesInOrder | packages/lexical-react-native/src/js/LexicalMobileReconciler.ts:359-402 | if the committed cache places the previous tree from the root at offset 0, every range a pass deletes lies within the old flat text, and each ends at or before the start of every later one, so no two overlap and sending them last-first never shifts one still to be sent |
| ReconcilePlacement.CreateFrame | packages/lexical-react-native/src/js/LexicalMobileReconciler.ts:729-788 | `createNode(key)` changes the entries of nodes of the next state only inside the new subtree of `key` |
| ReconcilePlacement.RestampFrame | packages/lexical-react-native/src/js/LexicalMobileReconciler.ts:512-546 | `updateLocationOfNonDirtyNode(key)` changes the entries of nodes of the next state only inside the subtree of `key` |
| ReconcilePlacement.ReconcileFrame | packages/lexical-react-native/src/js/LexicalMobileReconciler.ts:404-489 | `reconcileNode(key)` changes the entries of nodes of the next state only inside the next subtree of `key` |
| ReconcilePlacement.ScanFrame | packages/lexical-react-native/src/js/LexicalMobileReconciler.ts:615-674 | the two-pointer scan changes the entries of nodes of the next state only inside the subtrees of the next children it has yet to visit |
| ReconcilePlacement.CreatePlaces | packages/lexical-react-native/src/js/LexicalMobileReconciler.ts:729-788 | `createNode(key)` writes an entry at the cursor for every node of the new subtree, each at its offset in the flat text with the lengths of its four parts |
| ReconcilePlacement.CreateChildrenPlaces | packages/lexical-react-native/src/js/LexicalMobileReconciler.ts:790-800 | creating `cs[i..]` places their subtrees one after the other from the cursor |
| ReconcilePlacement.RestampPlaces | packages/lexical-react-native/src/js/LexicalMobileReconciler.ts:512-546 | restamping a clean subtree places it at the cursor, and each entry of the subtree is its committed entry with only the location changed, to the running cursor at which it is visited |
| ReconcilePlacement.RestampChildrenPlaces | packages/lexical-react-native/src/js/LexicalMobileReconciler.ts:538-542 | restamping the children of a clean node places their subtrees one after the other from the cursor |
| ReconcilePlacement.CleanRelocated | packages/lexical-react-native/src/js/LexicalMobileReconciler.ts:512-546 | when a clean subtree is placed at some offset and its committed entries are placed too, every entry of the subtree is its committed entry with only its location changed |
| ReconcilePlacement.ReconcilePlaces | packages/lexical-react-native/src/js/LexicalMobileReconciler.ts:404-489 | whichever path `reconcileNode(key)` takes, the next subtree of `key` ends up placed at the cursor |
| ReconcilePlacement.ChangedPlaces | packages/lexical-react-native/src/js/LexicalMobileReconciler.ts:436-488 | for a dirty or replaced node, the new entry and the entries of its next subtree are placed from the cursor |
| ReconcilePlacement.ChildrenPlaces | packages/lexical-react-native/src/js/LexicalMobileReconciler.ts:589-613 | `reconcileChildren(key)` places the next children one after the other from the cursor and moves it over their flat text |
| ReconcilePlacement.ScanPlaces | packages/lexical-react-native/src/js/LexicalMobileReconciler.ts:615-674 | the scan places the subtrees of the next children from `nextIndex` on, one after the other from the cursor |
| ReconcilePlacement.KeptChildPlaces | packages/lexical-react-native/src/js/LexicalMobileReconciler.ts:634-637 | a turn on a shared key places that child at the cursor and the rest after it |
| ReconcilePlacement.RemovedChildPlaces | packages/lexical-react-native/src/js/LexicalMobileReconciler.ts:649-652 | a turn that destroys an old child leaves the placement of the next children to the rest of the scan |
| ReconcilePlacement.InsertedChildPlaces | packages/lexical-react-native/src/js/LexicalMobileReconciler.ts:653-655 | a turn that creates a new child places it at the cursor and the rest after it |
| ReconcilePlacement.MovedChildPlaces | packages/lexical-react-native/src/js/LexicalMobileReconciler.ts:656-662 | a move turn places the created child at the cursor and the rest after it |
| ReconcilePlacement.PassPlaces | packages/lexical-react-native/src/js/LexicalMobileReconciler.ts:359-402 | if the committed cache places the previous tree from the root at offset 0, the cache a pass from the root commits places the next tree from the root at offset 0, and the cursor ends at the length of the next flat text |
| ReconcilePlacement.PassFits | packages/lexical-react-native/src/js/LexicalMobileReconciler.ts:359-402 | after such a pass, every node reachable from the root of the next tree has an entry whose four lengths are its own |

## Left out

- `applyNativeSelection`, `i_createPoint`, `updateRangeCacheForTextChange` and `updateNodeLocationFor` (lines 199-322) are not part of this model. They handle native selection and edits that come from the native side, not the reconciliation pass.
- The frontend calls (`startEditing`, `delete`, `insert`, `endEditing`) are modelled as a returned log of `Event`s. `editor.setRangeCache` appears in that log as `CommitRangeCache`.
- Node classes, `$getNodeByKey` and the active editor state are modelled as a snapshot parameter. Only a node's kind, its sibling links and its three strings are kept.
- Object identity (`prevNode === nextNode`) is modelled as equality of node values that carry an identity stamp (`ident`).
- `getChildrenKeys()` and `getChildrenSize()` are modelled as the sibling chain that `createChildrenArray` follows.
- Children.CreateChildrenArray: the source loops forever on a cyclic sibling chain. The method requires that the chain has no cycle.
- The tree walks carry ghost rank maps that witness that the snapshots are trees (`WellFormed`). Both functions and methods require them.
- Evaluation.EvaluateNode: a missing cache entry answers nothing. As written, the source compares `Map.get`'s `undefined` with `=== null` and would then fail reading the entry.
- `rangeContains` is inclusive at both ends, as the code has it, so together with `rangeByAddingOne` a node's search window runs up to one past its end.
- Reconciler.ReconcilerState.ReconcileNodeTail, Reconciler.ReconcilerState.CreateNodeTail, Reconciler.ReconcilerState.DestroyNodeTail, Update.SendDeletions and Update.SendInsertions are parts of one source function each. They are split out so that each proof stays small.
- ReconcileLemmas.ReconcileAdvance and ReconcilePlacement.PassPlaces are proved under hypotheses about the two editor states:
  - `ReuseSound`: a clean node keeps its children and they are clean;
  - `KindsStable`: a node keeps its kind;
  - `Tree` (for the placement lemmas): no key is the child of two nodes or twice a child of one.

  These describe how the editor marks nodes dirty and links them, which is not part of this model. The hypothesis on the committed cache is the reconciler's own invariant, since that cache is the one the previous pass committed (`setRangeCache`, line 400): `PassPlaces` proves that a pass which starts from a cache placing the previous tree (`PlacedAt` at the root, offset 0) commits a cache placing the next tree. The first cache, from before any pass, is built outside `LexicalMobileReconciler.ts` and is not part of this model.
- Update.UpdateEditorState: that replaying the log on the old flat text gives the new flat text is not proved, because the string edits the native view makes on `delete` and `insert` are not part of this model. The model proves the facts a replay would rest on: the deletions lie in the old text in order without overlap (`PassDeletesInOrder`), the cursor moves over exactly the new text (`ReconcileAdvance`), and a created subtree's insertions spell its text (`CreateInserts`).
- Evaluation.PointAtStringLocation: that the search at the start offset of a node names that node is not stated, because the source does not do that. The children are asked before the node's own tail rules, so a root element without a preamble answers its first text child at offset 0 (`NestedSearch`). Only the weaker `EvaluateAnchored` holds for every answer: it names a cached node whose widened span holds the offset.
- The in-place `.reverse()` of `rangesToDelete` is modelled as a fresh reversed sequence. The reconciler state is not used afterwards.
- Strings are sequences of UTF-16 code units (`Utf16`), as JavaScript's `.length` counts them. Node keys stay plain strings, since only their identity matters.
- JavaScript numbers are modelled as unbounded naturals. The lengths and offsets involved never approach 2^53.
