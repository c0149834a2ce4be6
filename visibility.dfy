/** The value-range filter of the diagrams: nodes whose weight lies outside
    the chosen range are hidden, and so is every link with a hidden end. */
module Visibility {
  import opened EpisodeData

  /** A range bound as read from a slider or text box: the integer parsed
      from it, or NaN when the box holds no number. Every comparison with
      NaN is false. */
  datatype Bound = Parsed(value: int) | NaN

  /** `v < b`, with NaN comparing false. */
  predicate Below(v: int, b: Bound) {
    b.Parsed? && v < b.value
  }

  /** `v > b`, with NaN comparing false. */
  predicate Above(v: int, b: Bound) {
    b.Parsed? && v > b.value
  }

  /** A node's circle is hidden when its weight is below `minValue` or above `maxValue`. */
  predicate NodeHidden(n: Node, minValue: Bound, maxValue: Bound) {
    Below(n.value, minValue) || Above(n.value, maxValue)
  }

  /** A link's line is hidden when either end's weight is outside the range. */
  predicate LinkHidden(source: Node, target: Node, minValue: Bound, maxValue: Bound) {
    Below(source.value, minValue) || Above(source.value, maxValue) ||
    Below(target.value, minValue) || Above(target.value, maxValue)
  }

  /** Which nodes of a graph are shown: those whose weight is at least the
      minimum and at most the maximum, a NaN bound leaving its side open. */
  function NodesShown(g: Graph, minValue: Bound, maxValue: Bound): (shown: seq<bool>)
    ensures |shown| == |g.nodes|
    ensures forall i :: 0 <= i < |g.nodes| ==>
      (shown[i] <==> (minValue.Parsed? ==> minValue.value <= g.nodes[i].value) &&
                     (maxValue.Parsed? ==> g.nodes[i].value <= maxValue.value))
  {
    seq(|g.nodes|, i requires 0 <= i < |g.nodes| => !NodeHidden(g.nodes[i], minValue, maxValue))
  }

  /** Which links of a graph are shown; a link is drawn between the nodes
      its positions name. */
  function LinksShown(g: Graph, minValue: Bound, maxValue: Bound): (shown: seq<bool>)
    requires WellFormed(g)
    ensures |shown| == |g.links|
    ensures forall k :: 0 <= k < |g.links| ==>
      (shown[k] <==> NodesShown(g, minValue, maxValue)[g.links[k].source] &&
                     NodesShown(g, minValue, maxValue)[g.links[k].target])
  {
    seq(|g.links|, k requires 0 <= k < |g.links| =>
      !LinkHidden(g.nodes[g.links[k].source], g.nodes[g.links[k].target], minValue, maxValue))
  }

  /** A link is hidden exactly when one of its ends is hidden. */
  lemma LinkHiddenIffEndHidden(source: Node, target: Node, minValue: Bound, maxValue: Bound)
    ensures LinkHidden(source, target, minValue, maxValue) <==>
      NodeHidden(source, minValue, maxValue) || NodeHidden(target, minValue, maxValue)
  {
  }

  /** With two numeric bounds, a node is shown exactly when its weight lies
      within the range, bounds included. */
  lemma ParsedRangeShows(g: Graph, minValue: int, maxValue: int)
    ensures forall i :: 0 <= i < |g.nodes| ==>
      (NodesShown(g, Parsed(minValue), Parsed(maxValue))[i] <==> minValue <= g.nodes[i].value <= maxValue)
  {
  }

  /** An empty range (minimum above maximum) hides every node and link. */
  lemma EmptyRangeHidesAll(g: Graph, minValue: int, maxValue: int)
    requires WellFormed(g) && minValue > maxValue
    ensures forall i :: 0 <= i < |g.nodes| ==> !NodesShown(g, Parsed(minValue), Parsed(maxValue))[i]
    ensures forall k :: 0 <= k < |g.links| ==> !LinksShown(g, Parsed(minValue), Parsed(maxValue))[k]
  {
  }

  /** When neither box holds a number, nothing is hidden. */
  lemma NaNBoundsShowAll(g: Graph)
    requires WellFormed(g)
    ensures forall i :: 0 <= i < |g.nodes| ==> NodesShown(g, NaN, NaN)[i]
    ensures forall k :: 0 <= k < |g.links| ==> LinksShown(g, NaN, NaN)[k]
  {
  }
}
