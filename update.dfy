/**
 * The reconciler's entry point: one pass from the root, then the recorded
 * deletions (last recorded first) and insertions sent to the native text
 * view, and the new range cache committed on the editor. The calls to the
 * native view are recorded as a log of `Event`s.
 */
module Update {
  import opened Types
  import opened ReconcileSpec
  import opened Reconciler

  /** The part of the editor the reconciler reads and writes. */
  class Editor {
    var rangeCache: RangeCache
    const dirtyLeaves: set<Key>
    const dirtyElements: map<Key, bool>

    constructor (rangeCache: RangeCache, dirtyLeaves: set<Key>, dirtyElements: map<Key, bool>)
      ensures this.rangeCache == rangeCache
      ensures this.dirtyLeaves == dirtyLeaves && this.dirtyElements == dirtyElements
    {
      this.rangeCache := rangeCache;
      this.dirtyLeaves := dirtyLeaves;
      this.dirtyElements := dirtyElements;
    }

    /** The inputs of a pass from `prev` to `next` over this editor's committed cache. */
    ghost function PassInputs(prev: Snapshot, next: Snapshot, prevRank: map<Key, nat>, nextRank: map<Key, nat>): Env
      reads this
    {
      ReconcileSpec.Env(prev, next, rangeCache, dirtyLeaves, dirtyElements, prevRank, nextRank)
    }
  }

  /** The deletion loop of `updateEditorState`: one delete call per non-empty range, in the given order. */
  method SendDeletions(deletions: seq<Range>) returns (calls: seq<Event>)
    ensures calls == DeleteCalls(deletions)
  {
    calls := [];
    for i := 0 to |deletions|
      invariant calls == DeleteCalls(deletions[..i])
    {
      DeleteCallsSnoc(deletions, i);
      var deletionRange := deletions[i];
      if deletionRange.length > 0 {
        calls := calls + [Delete(deletionRange.location, deletionRange.length)];
      }
    }
    assert deletions[..|deletions|] == deletions;
  }

  /** The insertion loop of `updateEditorState`: one insert call per insertion whose string is not empty. */
  method SendInsertions(insertions: seq<Insertion>, nodeMap: Snapshot) returns (calls: seq<Event>)
    ensures calls == InsertCalls(insertions, nodeMap)
  {
    calls := [];
    for i := 0 to |insertions|
      invariant calls == InsertCalls(insertions[..i], nodeMap)
    {
      InsertCallsSnoc(insertions, i, nodeMap);
      var s := StringFromInsertion(insertions[i], nodeMap);
      if |s| > 0 {
        calls := calls + [Insert(s, insertions[i].location)];
      }
    }
    assert insertions[..|insertions|] == insertions;
  }

  /**
   * `updateEditorState`: returns the calls made on the native view, in order;
   * the editor's range cache becomes the one the pass built.
   */
  method UpdateEditorState(currentEditorState: Snapshot, pendingEditorState: Snapshot, editor: Editor,
                           ghost prevRank: map<Key, nat>, ghost nextRank: map<Key, nat>)
    returns (log: seq<Event>)
    requires editor.PassInputs(currentEditorState, pendingEditorState, prevRank, nextRank).Valid()
    modifies editor
    ensures var env := old(editor.PassInputs(currentEditorState, pendingEditorState, prevRank, nextRank));
      var p := Reconcile(env, InitialPass(env.prevCache), RootKey);
      log == Replay(p, pendingEditorState) && editor.rangeCache == p.cache
  {
    var reconcilerState := new ReconcilerState(currentEditorState, pendingEditorState, editor.rangeCache,
                                               editor.dirtyLeaves, editor.dirtyElements, prevRank, nextRank);
    reconcilerState.ReconcileNode(RootKey);
    var nextRangeCache := reconcilerState.nextRangeCache;
    var deletions := Reverse(reconcilerState.rangesToDelete);
    var insertions := reconcilerState.rangesToAdd;
    var deleteCalls := SendDeletions(deletions);
    var insertCalls := SendInsertions(insertions, pendingEditorState);
    log := [StartEditing] + deleteCalls + insertCalls;
    editor.rangeCache := nextRangeCache;
    log := log + [CommitRangeCache, EndEditing];
  }
}
