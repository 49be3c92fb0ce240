/** The range helpers over range-cache items. */
module Ranges {
  import opened Types

  /** The whole span of a node: from its location over all four parts. */
  function EntireRange(item: RangeCacheItem): (r: Range)
    ensures r.location == item.location && r.length == Total(item)
  {
    Range(item.location, Total(item))
  }

  /**
   * The span of a node's own text: what is left of the entire span once the
   * preamble and the children in front and the postamble behind are taken off.
   */
  function TextRange(item: RangeCacheItem): (r: Range)
    ensures r.location == EntireRange(item).location + item.preambleLength + item.childrenLength
    ensures r.location + r.length + item.postambleLength == EntireRange(item).location + EntireRange(item).length
  {
    Range(item.location + item.preambleLength + item.childrenLength, item.textLength)
  }

  /** The same range one longer: it starts where `range` does and also holds the offset just past its end. */
  function RangeByAddingOne(range: Range): (r: Range)
    ensures r.location == range.location
    ensures RangeContains(r, range.location + range.length + 1) && !RangeContains(range, range.location + range.length + 1)
  {
    Range(range.location, range.length + 1)
  }

  /** Inclusive at both ends: the end offset `location + length` is contained. */
  function RangeContains(range: Range, comparisonLocation: int): (b: bool)
    ensures b <==> range.location <= comparisonLocation <= range.location + range.length
  {
    range.location <= comparisonLocation && range.location + range.length >= comparisonLocation
  }

  /** The text span of an item lies within its entire span, ending where the postamble begins. */
  lemma TextRangeWithinEntire(item: RangeCacheItem)
    ensures EntireRange(item).location <= TextRange(item).location
    ensures TextRange(item).location + TextRange(item).length + item.postambleLength
         == EntireRange(item).location + EntireRange(item).length
  {
  }

  /**
   * Widening by one and the inclusive test together accept exactly the
   * offsets from `location` to `location + length + 1`.
   */
  lemma ContainsAfterAddingOne(range: Range, x: int)
    ensures RangeContains(RangeByAddingOne(range), x) <==> range.location <= x <= range.location + range.length + 1
    ensures RangeContains(range, x) ==> RangeContains(RangeByAddingOne(range), x)
  {
  }
}
