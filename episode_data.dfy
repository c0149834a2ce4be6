/** The records one episode file holds, and the merged graph the aggregator
    returns: both are a list of character nodes and a list of links that
    refer to those nodes by position. */
module EpisodeData {

  /** A character: its name, its accumulated appearance weight, its colour. */
  datatype Node = Node(name: string, value: int, colour: string)

  /** An interaction, its endpoints given as positions in the node list. */
  datatype LinkRef = LinkRef(source: int, target: int, value: int)

  /** One episode's interaction graph, or the merged graph. */
  datatype Graph = Graph(nodes: seq<Node>, links: seq<LinkRef>)

  /** Both endpoint positions of `l` name a node of `g`. */
  predicate Resolves(g: Graph, l: LinkRef) {
    0 <= l.source < |g.nodes| && 0 <= l.target < |g.nodes|
  }

  /** Every link of `g` can be resolved to a pair of node names. */
  predicate WellFormed(g: Graph) {
    forall k :: 0 <= k < |g.links| ==> Resolves(g, g.links[k])
  }

  /** Sum of the weights of a node list. */
  function NodeSum(ns: seq<Node>): int {
    if ns == [] then 0 else NodeSum(ns[..|ns| - 1]) + ns[|ns| - 1].value
  }

  /** Sum of the weights of a list of link references. */
  function LinkRefSum(ls: seq<LinkRef>): int {
    if ls == [] then 0 else LinkRefSum(ls[..|ls| - 1]) + ls[|ls| - 1].value
  }
}
