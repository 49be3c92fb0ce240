/**
 * The values the flat-text reconciler of the React Native frontend works on:
 * document snapshots, range-cache items, ranges and pending insertions.
 */
module Types {

  datatype Option<+T> = None | Some(value: T)

  datatype Result<+T, +E> = Ok(value: T) | Err(error: E)

  /** A node key (`NodeKey`). */
  type Key = string

  /** The key the reconciler and the offset search start from. */
  const RootKey: Key := "root"

  /** What `$isTextNode` / `$isElementNode` tell apart; decorators and line breaks are neither. */
  datatype NodeKind = TextKind | ElementKind | OtherKind

  /**
   * A JavaScript string: a sequence of UTF-16 code units. `.length`, the
   * unit of every location and length the reconciler works with, counts
   * code units, so a character outside the Basic Multilingual Plane (a
   * surrogate pair) counts two.
   */
  type Utf16 = seq<bv16>

  /**
   * One node of an editor-state snapshot. `ident` stands for the identity of
   * the JavaScript object: a node that was cloned for writing gets a new one,
   * so `prevNode === nextNode` becomes equality of these values. `first` and
   * `next` are the `__first` / `__next` sibling links; the three strings are
   * what `getPreamble()`, `getTextPart()` and `getPostamble()` return.
   */
  datatype Node = Node(
    ident: nat,
    kind: NodeKind,
    first: Option<Key>,
    next: Option<Key>,
    preamble: Utf16,
    text: Utf16,
    postamble: Utf16)
  {
    predicate IsElement() { kind == ElementKind }
    predicate IsText() { kind == TextKind }
  }

  /** An editor state's node map (`_nodeMap`). */
  type Snapshot = map<Key, Node>

  /** Where a node's four spans sit in the flat text: preamble, children, text, postamble. */
  datatype RangeCacheItem = RangeCacheItem(
    location: nat,
    preambleLength: nat,
    childrenLength: nat,
    textLength: nat,
    postambleLength: nat)

  type RangeCache = map<Key, RangeCacheItem>

  datatype Range = Range(location: nat, length: nat)

  datatype NodePart = Preamble | TextPart | Postamble

  /** A pending insertion: which part of which node goes at which offset of the new text. */
  datatype Insertion = Insertion(location: nat, nodeKey: Key, part: NodePart)

  /** Sum of the four span lengths of a cache item. */
  function Total(item: RangeCacheItem): nat
  {
    item.preambleLength + item.childrenLength + item.textLength + item.postambleLength
  }
}
