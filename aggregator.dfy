/** The episode aggregator: merge the episodes a diagram has selected into
    one graph, summing node weights per name and link weights per pair of
    names, and re-express the merged links as positions in the merged node
    list. */
module Aggregator {
  import opened EpisodeData
  import opened NodeMerge
  import opened LinkMerge

  /** The merged graph, or the failure that a link whose endpoint position
      names no node of its episode causes while it is being resolved. */
  datatype MergeResult = Merged(graph: Graph) | UnresolvedEndpoint

  // ---------------------------------------------------------------------
  // Which episodes take part

  /** Zero-based positions, below `n`, of the episodes whose one-based
      number is listed in `selection`: increasing, so each appears once
      and in episode-list order, however often the selection lists it. */
  function SelectedIndices(n: nat, selection: seq<int>): (r: seq<nat>)
    ensures forall k :: 0 <= k < |r| ==> r[k] < n
    ensures forall k, l :: 0 <= k < l < |r| ==> r[k] < r[l]
    ensures forall i :: 0 <= i < n ==> (i in r <==> i + 1 in selection)
  {
    if n == 0 then []
    else SelectedIndices(n - 1, selection) + if n in selection then [n - 1] else []
  }

  /** The episodes that take part in the merge, in episode-list order. */
  function Selected(episodes: seq<Graph>, selection: seq<int>): (r: seq<Graph>)
    ensures |r| == |SelectedIndices(|episodes|, selection)|
    ensures forall k :: 0 <= k < |r| ==> r[k] == episodes[SelectedIndices(|episodes|, selection)[k]]
  {
    if episodes == [] then []
    else
      var n := |episodes|;
      Selected(episodes[..n - 1], selection) + if n in selection then [episodes[n - 1]] else []
  }

  // ---------------------------------------------------------------------
  // What the participating episodes contribute

  predicate AllWellFormed(eps: seq<Graph>) {
    forall i :: 0 <= i < |eps| ==> WellFormed(eps[i])
  }

  /** Every node of every episode, episode by episode. */
  function AllNodes(eps: seq<Graph>): seq<Node> {
    if eps == [] then [] else AllNodes(eps[..|eps| - 1]) + eps[|eps| - 1].nodes
  }

  /** A link reference with its endpoints replaced by their names. */
  function Resolve(g: Graph, l: LinkRef): NamedLink
    requires Resolves(g, l)
  {
    NamedLink(g.nodes[l.source].name, g.nodes[l.target].name, l.value)
  }

  function ResolveLinks(g: Graph, ls: seq<LinkRef>): seq<NamedLink>
    requires forall k :: 0 <= k < |ls| ==> Resolves(g, ls[k])
  {
    if ls == [] then [] else ResolveLinks(g, ls[..|ls| - 1]) + [Resolve(g, ls[|ls| - 1])]
  }

  /** Every link of every episode, resolved to names, episode by episode. */
  function AllLinks(eps: seq<Graph>): seq<NamedLink>
    requires AllWellFormed(eps)
  {
    if eps == [] then []
    else
      var g := eps[|eps| - 1];
      AllLinks(eps[..|eps| - 1]) + ResolveLinks(g, g.links)
  }

  /** Total link weight of a list of episodes. */
  function LinkTotal(eps: seq<Graph>): int {
    if eps == [] then 0 else LinkTotal(eps[..|eps| - 1]) + LinkRefSum(eps[|eps| - 1].links)
  }

  /** A merged link with its endpoint names looked up in the merged nodes. */
  function Reindex(nodes: seq<Node>, l: NamedLink): LinkRef {
    LinkRef(IndexOfName(nodes, l.source), IndexOfName(nodes, l.target), l.value)
  }

  function Reindexed(nodes: seq<Node>, ls: seq<NamedLink>): seq<LinkRef> {
    seq(|ls|, k requires 0 <= k < |ls| => Reindex(nodes, ls[k]))
  }

  /** The result of merging the participating episodes `sel`, in order. */
  function MergeAll(sel: seq<Graph>): MergeResult {
    if AllWellFormed(sel) then
      var nodes := MergeNodes(AllNodes(sel));
      Merged(Graph(nodes, Reindexed(nodes, MergeLinks(AllLinks(sel)))))
    else
      UnresolvedEndpoint
  }

  /** The result of merging the selected episodes. */
  function Merge(episodes: seq<Graph>, selection: seq<int>): MergeResult {
    MergeAll(Selected(episodes, selection))
  }

  // ---------------------------------------------------------------------
  // The aggregator itself

  lemma MergeNodesSnoc(ns: seq<Node>, x: Node)
    ensures MergeNodes(ns + [x]) == AddNode(MergeNodes(ns), x)
  {
    assert (ns + [x])[..|ns|] == ns;
  }

  lemma MergeLinksSnoc(ls: seq<NamedLink>, x: NamedLink)
    ensures MergeLinks(ls + [x]) == AddLink(MergeLinks(ls), x)
  {
    assert (ls + [x])[..|ls|] == ls;
  }

  /** The filter on one-based episode numbers. */
  method SelectEpisodes(episodes: seq<Graph>, selection: seq<int>) returns (selectedData: seq<Graph>)
    ensures selectedData == Selected(episodes, selection)
  {
    selectedData := [];
    for i := 0 to |episodes|
      invariant selectedData == Selected(episodes[..i], selection)
    {
      assert episodes[..i + 1][..i] == episodes[..i];
      if i + 1 in selection {
        selectedData := selectedData + [episodes[i]];
      }
    }
    assert episodes[..|episodes|] == episodes;
  }

  lemma FoldNodesStep(before: seq<Node>, episodeNodes: seq<Node>, j: nat)
    requires j < |episodeNodes|
    ensures MergeNodes(before + episodeNodes[..j + 1]) == AddNode(MergeNodes(before + episodeNodes[..j]), episodeNodes[j])
  {
    assert before + episodeNodes[..j + 1] == (before + episodeNodes[..j]) + [episodeNodes[j]];
    MergeNodesSnoc(before + episodeNodes[..j], episodeNodes[j]);
  }

  /** Adds one node to the node accumulator: its weight goes to the stored
      node of the same name, or a copy of it is stored when the name is new. */
  method StoreNode(acc: seq<Node>, node: Node) returns (nodes: seq<Node>)
    ensures nodes == AddNode(acc, node)
  {
    var k := IndexOfName(acc, node.name);
    if k >= 0 {
      nodes := acc[k := acc[k].(value := acc[k].value + node.value)];
    } else {
      nodes := acc + [node];
    }
  }

  /** Folds one episode's nodes into the node accumulator `acc`, which
      holds the fold of the nodes `before`. */
  method FoldEpisodeNodes(acc: seq<Node>, episodeNodes: seq<Node>, ghost before: seq<Node>) returns (nodes: seq<Node>)
    requires acc == MergeNodes(before)
    ensures nodes == MergeNodes(before + episodeNodes)
  {
    nodes := acc;
    assert before + episodeNodes[..0] == before;
    for j := 0 to |episodeNodes|
      invariant nodes == MergeNodes(before + episodeNodes[..j])
    {
      var node := episodeNodes[j];
      FoldNodesStep(before, episodeNodes, j);
      nodes := StoreNode(nodes, node);
    }
    assert episodeNodes[..|episodeNodes|] == episodeNodes;
  }

  lemma FoldLinksStep(before: seq<NamedLink>, episode: Graph, j: nat)
    requires j < |episode.links|
    requires forall t :: 0 <= t <= j ==> Resolves(episode, episode.links[t])
    ensures MergeLinks(before + ResolveLinks(episode, episode.links[..j + 1]))
         == AddLink(MergeLinks(before + ResolveLinks(episode, episode.links[..j])), Resolve(episode, episode.links[j]))
  {
    assert episode.links[..j + 1][..j] == episode.links[..j];
    assert before + ResolveLinks(episode, episode.links[..j + 1])
        == (before + ResolveLinks(episode, episode.links[..j])) + [Resolve(episode, episode.links[j])];
    MergeLinksSnoc(before + ResolveLinks(episode, episode.links[..j]), Resolve(episode, episode.links[j]));
  }

  /** Adds one resolved link to the link accumulator: to the entry under
      its key, else to the entry under its reversed key, else as a new
      entry under its own key. */
  method StoreLink(acc: seq<NamedLink>, link: NamedLink) returns (links: seq<NamedLink>)
    ensures links == AddLink(acc, link)
  {
    var linkKey := LinkKey(link.source, link.target);
    var reverseLinkKey := LinkKey(link.target, link.source);
    var k := IndexOfKey(acc, linkKey);
    if k < 0 {
      k := IndexOfKey(acc, reverseLinkKey);
    }
    if k >= 0 {
      links := acc[k := acc[k].(value := acc[k].value + link.value)];
    } else {
      links := acc + [link];
    }
  }

  /** Resolves one episode's links to names and folds them into the link
      accumulator `acc`, which holds the fold of the links `before`; fails
      at the first link with an endpoint position outside the episode. */
  method FoldEpisodeLinks(acc: seq<NamedLink>, episode: Graph, ghost before: seq<NamedLink>)
    returns (ok: bool, links: seq<NamedLink>)
    requires acc == MergeLinks(before)
    ensures ok == WellFormed(episode)
    ensures ok ==> links == MergeLinks(before + ResolveLinks(episode, episode.links))
  {
    links := acc;
    assert before + ResolveLinks(episode, episode.links[..0]) == before;
    for j := 0 to |episode.links|
      invariant forall t :: 0 <= t < j ==> Resolves(episode, episode.links[t])
      invariant links == MergeLinks(before + ResolveLinks(episode, episode.links[..j]))
    {
      var linkRef := episode.links[j];
      if !(0 <= linkRef.source < |episode.nodes| && 0 <= linkRef.target < |episode.nodes|) {
        return false, links;
      }
      var link := NamedLink(episode.nodes[linkRef.source].name, episode.nodes[linkRef.target].name, linkRef.value);
      FoldLinksStep(before, episode, j);
      links := StoreLink(links, link);
    }
    assert episode.links[..|episode.links|] == episode.links;
    ok := true;
  }

  /** Re-expresses each merged link's endpoints as positions in the merged nodes. */
  method ReindexLinks(nodes: seq<Node>, links: seq<NamedLink>) returns (mappedLinks: seq<LinkRef>)
    ensures mappedLinks == Reindexed(nodes, links)
  {
    mappedLinks := [];
    for j := 0 to |links|
      invariant |mappedLinks| == j
      invariant forall t :: 0 <= t < j ==> mappedLinks[t] == Reindex(nodes, links[t])
    {
      mappedLinks := mappedLinks + [LinkRef(IndexOfName(nodes, links[j].source), IndexOfName(nodes, links[j].target), links[j].value)];
    }
  }

  /** What one more episode adds to the participating nodes and links. */
  lemma EpisodeStep(done: seq<Graph>, episode: Graph)
    ensures AllNodes(done + [episode]) == AllNodes(done) + episode.nodes
    ensures AllWellFormed(done + [episode]) <==> AllWellFormed(done) && WellFormed(episode)
    ensures AllWellFormed(done + [episode]) ==>
      AllLinks(done + [episode]) == AllLinks(done) + ResolveLinks(episode, episode.links)
  {
    assert (done + [episode])[..|done|] == done;
    assert (done + [episode])[|done|] == episode;
  }

  /** What episode `e` of `sel` adds to the nodes and links before it. */
  lemma PrefixStep(sel: seq<Graph>, e: nat)
    requires e < |sel|
    ensures AllNodes(sel[..e + 1]) == AllNodes(sel[..e]) + sel[e].nodes
    ensures AllWellFormed(sel[..e + 1]) <==> AllWellFormed(sel[..e]) && WellFormed(sel[e])
    ensures AllWellFormed(sel[..e + 1]) ==>
      AllLinks(sel[..e + 1]) == AllLinks(sel[..e]) + ResolveLinks(sel[e], sel[e].links)
  {
    assert sel[..e + 1] == sel[..e] + [sel[e]];
    EpisodeStep(sel[..e], sel[e]);
  }

  /** Folds episode `e` of `sel` into the accumulators, which hold the
      merge of the episodes before it. */
  method FoldEpisode(accNodes: seq<Node>, accLinks: seq<NamedLink>, sel: seq<Graph>, e: nat)
    returns (ok: bool, nodes: seq<Node>, links: seq<NamedLink>)
    requires e < |sel| && AllWellFormed(sel[..e])
    requires accNodes == MergeNodes(AllNodes(sel[..e])) && accLinks == MergeLinks(AllLinks(sel[..e]))
    ensures ok == WellFormed(sel[e])
    ensures ok ==> AllWellFormed(sel[..e + 1])
    ensures ok ==> nodes == MergeNodes(AllNodes(sel[..e + 1])) && links == MergeLinks(AllLinks(sel[..e + 1]))
  {
    PrefixStep(sel, e);
    nodes := FoldEpisodeNodes(accNodes, sel[e].nodes, AllNodes(sel[..e]));
    ok, links := FoldEpisodeLinks(accLinks, sel[e], AllLinks(sel[..e]));
  }

  /** Folds the participating episodes, in order, into merged nodes and
      links, then re-expresses the links by positions in the merged nodes. */
  method MergeEpisodes(selectedData: seq<Graph>) returns (r: MergeResult)
    ensures r == MergeAll(selectedData)
  {
    var nodes: seq<Node> := [];
    var links: seq<NamedLink> := [];
    for e := 0 to |selectedData|
      invariant AllWellFormed(selectedData[..e])
      invariant nodes == MergeNodes(AllNodes(selectedData[..e]))
      invariant links == MergeLinks(AllLinks(selectedData[..e]))
    {
      var ok;
      ok, nodes, links := FoldEpisode(nodes, links, selectedData, e);
      if !ok {
        return UnresolvedEndpoint;
      }
    }
    assert selectedData[..|selectedData|] == selectedData;
    var mappedLinks := ReindexLinks(nodes, links);
    return Merged(Graph(nodes, mappedLinks));
  }

  /** Merges the episodes whose one-based numbers `selection` lists. */
  method MergeSelectedEpisodes(episodes: seq<Graph>, selection: seq<int>) returns (r: MergeResult)
    ensures r == Merge(episodes, selection)
  {
    var selectedData := SelectEpisodes(episodes, selection);
    r := MergeEpisodes(selectedData);
  }

  // ---------------------------------------------------------------------
  // What the merged graph is

  lemma {:induction false} SelectedIndicesByMembership(n: nat, s1: seq<int>, s2: seq<int>)
    requires forall x :: x in s1 <==> x in s2
    ensures SelectedIndices(n, s1) == SelectedIndices(n, s2)
  {
    if n > 0 { SelectedIndicesByMembership(n - 1, s1, s2); }
  }

  /** Only which numbers the selection holds matters, not their order nor
      how often each is listed: a repeated number merges its episode once. */
  lemma SelectionActsAsASet(episodes: seq<Graph>, s1: seq<int>, s2: seq<int>)
    requires forall x :: x in s1 <==> x in s2
    ensures Merge(episodes, s1) == Merge(episodes, s2)
  {
    SelectedIndicesByMembership(|episodes|, s1, s2);
    assert Selected(episodes, s1) == Selected(episodes, s2);
  }

  lemma {:induction false} NothingSelected(n: nat)
    ensures SelectedIndices(n, []) == []
  {
    if n > 0 { NothingSelected(n - 1); }
  }

  /** An empty selection merges to a graph without nodes or links. */
  lemma EmptySelectionMergesToNothing(episodes: seq<Graph>)
    ensures Merge(episodes, []) == Merged(Graph([], []))
  {
    NothingSelected(|episodes|);
    assert Selected(episodes, []) == [];
    assert Reindexed([], []) == [];
  }

  /** The names of a node list. */
  function NamesOf(ns: seq<Node>): set<string> {
    set i | 0 <= i < |ns| :: ns[i].name
  }

  lemma NamesOfAppend(na: seq<Node>, nb: seq<Node>)
    ensures NamesOf(na + nb) == NamesOf(na) + NamesOf(nb)
  {
    forall n | n in NamesOf(na + nb) ensures n in NamesOf(na) + NamesOf(nb) {
      var i :| 0 <= i < |na + nb| && (na + nb)[i].name == n;
      if i < |na| { assert na[i].name == n; } else { assert nb[i - |na|].name == n; }
    }
    forall n | n in NamesOf(na) + NamesOf(nb) ensures n in NamesOf(na + nb) {
      if n in NamesOf(na) {
        var i :| 0 <= i < |na| && na[i].name == n;
        assert (na + nb)[i].name == n;
      } else {
        var i :| 0 <= i < |nb| && nb[i].name == n;
        assert (na + nb)[|na| + i].name == n;
      }
    }
  }

  lemma EndpointsAppend(a: seq<NamedLink>, b: seq<NamedLink>)
    ensures Endpoints(a + b) <= Endpoints(a) + Endpoints(b)
  {
    forall n | n in Endpoints(a + b) ensures n in Endpoints(a) + Endpoints(b) {
      var i :| 0 <= i < |a + b| && ((a + b)[i].source == n || (a + b)[i].target == n);
      if i < |a| {
        assert a[i] == (a + b)[i];
        assert a[i].source in Endpoints(a) && a[i].target in Endpoints(a);
      } else {
        assert b[i - |a|] == (a + b)[i];
        assert b[i - |a|].source in Endpoints(b) && b[i - |a|].target in Endpoints(b);
      }
    }
  }

  /** Every name a resolved link carries names a node of the same episodes. */
  lemma {:induction false} AllLinksNamesAreNodeNames(eps: seq<Graph>)
    requires AllWellFormed(eps)
    ensures Endpoints(AllLinks(eps)) <= NamesOf(AllNodes(eps))
  {
    if eps != [] {
      var init, g := eps[..|eps| - 1], eps[|eps| - 1];
      assert eps == init + [g];
      EpisodeStep(init, g);
      AllLinksNamesAreNodeNames(init);
      ResolvedNamesAreNodeNames(g, g.links);
      NamesOfAppend(AllNodes(init), g.nodes);
      EndpointsAppend(AllLinks(init), ResolveLinks(g, g.links));
    }
  }

  lemma {:induction false} ResolvedNamesAreNodeNames(g: Graph, ls: seq<LinkRef>)
    requires forall k :: 0 <= k < |ls| ==> Resolves(g, ls[k])
    ensures Endpoints(ResolveLinks(g, ls)) <= NamesOf(g.nodes)
  {
    if ls != [] {
      var init, l := ls[..|ls| - 1], ls[|ls| - 1];
      ResolvedNamesAreNodeNames(g, init);
      var a := ResolveLinks(g, init);
      var x := Resolve(g, l);
      assert ResolveLinks(g, ls) == a + [x];
      assert x.source in NamesOf(g.nodes) && x.target in NamesOf(g.nodes) by {
        assert g.nodes[l.source].name == x.source;
        assert g.nodes[l.target].name == x.target;
      }
      forall n | n in Endpoints(a + [x]) ensures n in NamesOf(g.nodes) {
        var i :| 0 <= i < |a + [x]| && ((a + [x])[i].source == n || (a + [x])[i].target == n);
        if i < |a| {
          assert a[i] == (a + [x])[i];
          assert a[i].source in Endpoints(a) && a[i].target in Endpoints(a);
        }
      }
    }
  }

  /** The nodes of a successful merge: one per distinct name among the
      participating episodes' nodes, in first-seen order, each a copy of the
      first node of its name weighing the total of all nodes of that name;
      nothing is lost and the total weight is unchanged. */
  lemma MergedNodes(episodes: seq<Graph>, selection: seq<int>)
    requires Merge(episodes, selection).Merged?
    ensures var ns := AllNodes(Selected(episodes, selection));
      var g := Merge(episodes, selection).graph;
      NamesDistinct(g.nodes) && FirstCopiesWithTotals(ns, g.nodes) && FirstSeenOrder(ns, g.nodes) &&
      CoversNames(ns, g.nodes) && NodeSum(g.nodes) == NodeSum(ns)
  {
    var ns := AllNodes(Selected(episodes, selection));
    MergeNodesCorrect(ns);
    MergeNodesConservesWeight(ns);
  }

  /** Every link of a successful merge points at merged nodes, and the nodes
      it points at carry the endpoint names of the merged link. */
  lemma MergedLinksResolve(episodes: seq<Graph>, selection: seq<int>)
    requires Merge(episodes, selection).Merged?
    ensures var sel := Selected(episodes, selection);
      var g := Merge(episodes, selection).graph;
      var named := MergeLinks(AllLinks(sel));
      WellFormed(g) && |g.links| == |named| &&
      forall k :: 0 <= k < |g.links| ==>
        g.nodes[g.links[k].source].name == named[k].source &&
        g.nodes[g.links[k].target].name == named[k].target &&
        g.links[k].value == named[k].value
  {
    var sel := Selected(episodes, selection);
    var ns := AllNodes(sel);
    var g := Merge(episodes, selection).graph;
    var named := MergeLinks(AllLinks(sel));
    MergeNodesCorrect(ns);
    MergeLinksEndpoints(AllLinks(sel));
    AllLinksNamesAreNodeNames(sel);
    forall n | n in Endpoints(named) ensures IndexOfName(g.nodes, n) >= 0 {
      var i :| 0 <= i < |ns| && ns[i].name == n;
      assert IndexOfName(g.nodes, ns[i].name) >= 0;
    }
    forall k | 0 <= k < |named|
      ensures IndexOfName(g.nodes, named[k].source) >= 0 && IndexOfName(g.nodes, named[k].target) >= 0
    {
      assert named[k].source in Endpoints(named) && named[k].target in Endpoints(named);
    }
  }

  lemma {:induction false} ReindexedKeepsWeight(nodes: seq<Node>, ls: seq<NamedLink>)
    ensures LinkRefSum(Reindexed(nodes, ls)) == LinkSum(ls)
  {
    if ls != [] {
      var init := ls[..|ls| - 1];
      ReindexedKeepsWeight(nodes, init);
      assert Reindexed(nodes, ls)[..|ls| - 1] == Reindexed(nodes, init);
    }
  }

  lemma {:induction false} LinkSumAppend(a: seq<NamedLink>, b: seq<NamedLink>)
    ensures LinkSum(a + b) == LinkSum(a) + LinkSum(b)
  {
    if b == [] {
      assert a + b == a;
    } else {
      var init := b[..|b| - 1];
      assert (a + b)[..|a + b| - 1] == a + init;
      LinkSumAppend(a, init);
    }
  }

  lemma {:induction false} ResolveLinksKeepsWeight(g: Graph, ls: seq<LinkRef>)
    requires forall k :: 0 <= k < |ls| ==> Resolves(g, ls[k])
    ensures LinkSum(ResolveLinks(g, ls)) == LinkRefSum(ls)
  {
    if ls != [] {
      ResolveLinksKeepsWeight(g, ls[..|ls| - 1]);
      LinkSumSnoc(ResolveLinks(g, ls[..|ls| - 1]), Resolve(g, ls[|ls| - 1]));
    }
  }

  lemma {:induction false} AllLinksKeepWeight(eps: seq<Graph>)
    requires AllWellFormed(eps)
    ensures LinkSum(AllLinks(eps)) == LinkTotal(eps)
  {
    if eps != [] {
      var init, g := eps[..|eps| - 1], eps[|eps| - 1];
      assert AllWellFormed(init);
      AllLinksKeepWeight(init);
      LinkSumAppend(AllLinks(init), ResolveLinks(g, g.links));
      ResolveLinksKeepsWeight(g, g.links);
    }
  }

  /** A successful merge conserves weight: its nodes weigh what all the
      participating nodes weigh, its links what all the participating
      links weigh. */
  lemma MergeConservesWeight(episodes: seq<Graph>, selection: seq<int>)
    requires Merge(episodes, selection).Merged?
    ensures var sel := Selected(episodes, selection);
      var g := Merge(episodes, selection).graph;
      NodeSum(g.nodes) == NodeSum(AllNodes(sel)) && LinkRefSum(g.links) == LinkTotal(sel)
  {
    var sel := Selected(episodes, selection);
    var g := Merge(episodes, selection).graph;
    MergeNodesConservesWeight(AllNodes(sel));
    MergeLinksConservesWeight(AllLinks(sel));
    ReindexedKeepsWeight(g.nodes, MergeLinks(AllLinks(sel)));
    AllLinksKeepWeight(sel);
  }

  /** When the participating names keep link keys unambiguous (as names
      without '-' do), the merged links are the merge on unordered pairs:
      a link and its reverse, within an episode or across episodes, become
      one link, oriented as the first of them and weighing their total. */
  lemma MergedLinksArePairMerge(episodes: seq<Graph>, selection: seq<int>)
    requires Merge(episodes, selection).Merged?
    requires KeysUnambiguous(Endpoints(AllLinks(Selected(episodes, selection))))
    ensures var ls := AllLinks(Selected(episodes, selection));
      var g := Merge(episodes, selection).graph;
      g.links == Reindexed(g.nodes, MergeLinksByPair(ls)) &&
      PairsDistinct(MergeLinksByPair(ls)) && FirstPairCopiesWithTotals(ls, MergeLinksByPair(ls)) &&
      FirstSeenPairOrder(ls, MergeLinksByPair(ls)) && CoversPairs(ls, MergeLinksByPair(ls))
  {
    var ls := AllLinks(Selected(episodes, selection));
    KeyedMergeIsPairMerge(ls);
    MergeLinksByPairCorrect(ls);
  }

  // ---------------------------------------------------------------------
  // A single episode

  /** Selecting one episode number selects that episode when it is in range, and none otherwise. */
  lemma {:induction false} SelectedIndicesOfOne(n: nat, i: int)
    ensures SelectedIndices(n, [i]) == if 1 <= i <= n then [i - 1] else []
  {
    if n > 0 {
      var prev := SelectedIndices(n - 1, [i]);
      assert prev == if 1 <= i <= n - 1 then [i - 1] else [] by {
        SelectedIndicesOfOne(n - 1, i);
      }
      assert (n in [i]) == (n == i);
      assert SelectedIndices(n, [i]) == prev + if n == i then [n - 1] else [];
    }
  }

  lemma {:induction false} ResolveLinksShape(g: Graph, ls: seq<LinkRef>)
    requires forall j :: 0 <= j < |ls| ==> Resolves(g, ls[j])
    ensures |ResolveLinks(g, ls)| == |ls|
    ensures forall k :: 0 <= k < |ls| ==> ResolveLinks(g, ls)[k] == Resolve(g, ls[k])
  {
    if ls != [] {
      var s := ls[..|ls| - 1];
      assert forall k :: 0 <= k < |s| ==> s[k] == ls[k];
      ResolveLinksShape(g, s);
    }
  }

  /** Re-expressing an episode's resolved links by name in its own nodes
      gives back its links, when no two of its nodes share a name. */
  lemma ReindexResolvedIsIdentity(g: Graph)
    requires WellFormed(g) && NamesDistinct(g.nodes)
    ensures Reindexed(g.nodes, ResolveLinks(g, g.links)) == g.links
  {
    ResolveLinksShape(g, g.links);
    var r := Reindexed(g.nodes, ResolveLinks(g, g.links));
    forall k | 0 <= k < |g.links| ensures r[k] == g.links[k] {
      IndexOfDistinctName(g.nodes, g.links[k].source);
      IndexOfDistinctName(g.nodes, g.links[k].target);
    }
  }

  /** An episode the merge reproduces on its own: its link positions are in
      range, no two nodes share a name, no two links join the same two
      characters, and the string key of every link determines its two names. */
  ghost predicate SelfMerging(g: Graph) {
    && WellFormed(g)
    && NamesDistinct(g.nodes)
    && PairsDistinct(ResolveLinks(g, g.links))
    && KeysUnambiguous(Endpoints(ResolveLinks(g, g.links)))
  }

  /** An episode whose node names contain no '-' has unambiguous link keys,
      so it is self-merging as soon as its names and pairs are distinct. */
  lemma NoDashEpisodeSelfMerges(g: Graph)
    requires WellFormed(g) && NamesDistinct(g.nodes) && PairsDistinct(ResolveLinks(g, g.links))
    requires forall j :: 0 <= j < |g.nodes| ==> '-' !in g.nodes[j].name
    ensures SelfMerging(g)
  {
    var ls := ResolveLinks(g, g.links);
    ResolvedNamesAreNodeNames(g, g.links);
    forall n | n in Endpoints(ls) ensures '-' !in n {
      var j :| 0 <= j < |g.nodes| && g.nodes[j].name == n;
    }
    NoDashKeysUnambiguous(Endpoints(ls));
  }

  /** The links of a self-merging episode, resolved to names, merge to themselves. */
  lemma SelfMergingLinks(g: Graph)
    requires SelfMerging(g)
    ensures MergeLinks(ResolveLinks(g, g.links)) == ResolveLinks(g, g.links)
  {
    var ls := ResolveLinks(g, g.links);
    assert MergeLinks(ls) == MergeLinksByPair(ls) by {
      KeyedMergeIsPairMerge(ls);
    }
    assert MergeLinksByPair(ls) == ls by {
      DistinctPairsMergeToThemselves(ls);
    }
  }

  lemma SingleEpisodeLinks(g: Graph)
    requires SelfMerging(g)
    ensures AllWellFormed([g])
    ensures AllNodes([g]) == g.nodes
    ensures MergeLinks(AllLinks([g])) == ResolveLinks(g, g.links)
  {
    assert [g] == [] + [g];
    EpisodeStep([], g);
    assert AllLinks([g]) == ResolveLinks(g, g.links) by {
      assert AllLinks([]) + ResolveLinks(g, g.links) == ResolveLinks(g, g.links);
    }
    SelfMergingLinks(g);
  }

  /** Merging a single self-merging episode reproduces it exactly: the same
      nodes with the same weights, the same links with the same weights. */
  lemma SingleEpisodeIdentity(episodes: seq<Graph>, i: int)
    requires 1 <= i <= |episodes|
    requires SelfMerging(episodes[i - 1])
    ensures Merge(episodes, [i]) == Merged(episodes[i - 1])
  {
    var g := episodes[i - 1];
    SelectedIndicesOfOne(|episodes|, i);
    assert Selected(episodes, [i]) == [g];
    SingleEpisodeLinks(g);
    DistinctNodesMergeToThemselves(g.nodes);
    ReindexResolvedIsIdentity(g);
  }

  // Two episodes that both show LUKE and LEIA; the second lists them in
  // the other order, and its link runs from LEIA to LUKE where the first
  // episode's runs from LUKE to LEIA.
  const EpisodeX := Graph([Node("LUKE", 5, "#3881e5"), Node("LEIA", 3, "#dddddd")], [LinkRef(0, 1, 2)])
  const EpisodeY := Graph([Node("LEIA", 4, "#808080"), Node("LUKE", 1, "#000000")], [LinkRef(0, 1, 6)])

  lemma LukeAndLeiaSelected()
    ensures Selected([EpisodeX, EpisodeY], [1, 2]) == [EpisodeX, EpisodeY]
  {
    assert SelectedIndices(2, [1, 2]) == [0, 1];
  }

  lemma LukeAndLeiaAllNodes()
    ensures AllNodes([EpisodeX, EpisodeY]) == EpisodeX.nodes + EpisodeY.nodes
  {
    var x, y := EpisodeX, EpisodeY;
    assert [x, y] == [x] + [y] && [x] == [] + [x];
    EpisodeStep([], x);
    EpisodeStep([x], y);
  }

  lemma LukeAndLeiaAllLinks()
    ensures AllLinks([EpisodeX, EpisodeY]) == [NamedLink("LUKE", "LEIA", 2), NamedLink("LEIA", "LUKE", 6)]
  {
    var x, y := EpisodeX, EpisodeY;
    assert [x, y] == [x] + [y] && [x] == [] + [x];
    EpisodeStep([], x);
    EpisodeStep([x], y);
    assert ResolveLinks(x, x.links) == [NamedLink("LUKE", "LEIA", 2)] by {
      assert x.links == [] + [x.links[0]];
    }
    assert ResolveLinks(y, y.links) == [NamedLink("LEIA", "LUKE", 6)] by {
      assert y.links == [] + [y.links[0]];
    }
  }

  /** The first episode's two nodes and the second episode's LEIA. */
  lemma LukeAndLeiaFirstThree()
    ensures MergeNodes([EpisodeX.nodes[0], EpisodeX.nodes[1], EpisodeY.nodes[0]]) ==
      [Node("LUKE", 5, "#3881e5"), Node("LEIA", 7, "#dddddd")]
  {
    var luke5, leia3, leia4 := EpisodeX.nodes[0], EpisodeX.nodes[1], EpisodeY.nodes[0];
    assert [luke5] == [] + [luke5];
    MergeNodesSnoc([], luke5);
    assert [luke5, leia3] == [luke5] + [leia3];
    MergeNodesSnoc([luke5], leia3);
    assert IndexOfName([luke5], "LEIA") == -1;
    assert MergeNodes([luke5, leia3]) == [luke5, leia3];
    assert [luke5, leia3, leia4] == [luke5, leia3] + [leia4];
    MergeNodesSnoc([luke5, leia3], leia4);
    assert IndexOfName([luke5, leia3], "LEIA") == 1;
    assert [luke5, leia3][1 := leia3.(value := 7)] == [Node("LUKE", 5, "#3881e5"), Node("LEIA", 7, "#dddddd")];
  }

  lemma LukeAndLeiaNodes()
    ensures MergeNodes(EpisodeX.nodes + EpisodeY.nodes) == [Node("LUKE", 6, "#3881e5"), Node("LEIA", 7, "#dddddd")]
  {
    var three := [EpisodeX.nodes[0], EpisodeX.nodes[1], EpisodeY.nodes[0]];
    LukeAndLeiaFirstThree();
    assert EpisodeX.nodes + EpisodeY.nodes == three + [EpisodeY.nodes[1]];
    MergeNodesSnoc(three, EpisodeY.nodes[1]);
    assert IndexOfName([Node("LUKE", 5, "#3881e5"), Node("LEIA", 7, "#dddddd")], "LUKE") == 0;
  }

  /** The reversed link is found under its reverse key and adds to the first. */
  lemma LukeAndLeiaLinks()
    ensures MergeLinks([NamedLink("LUKE", "LEIA", 2), NamedLink("LEIA", "LUKE", 6)]) == [NamedLink("LUKE", "LEIA", 8)]
  {
    var ls := [NamedLink("LUKE", "LEIA", 2), NamedLink("LEIA", "LUKE", 6)];
    assert ls[..1] == [ls[0]] && [ls[0]][..0] == [];
    assert MergeLinks([ls[0]]) == [ls[0]];
  }

  lemma LukeAndLeiaReindexed()
    ensures Reindexed([Node("LUKE", 6, "#3881e5"), Node("LEIA", 7, "#dddddd")], [NamedLink("LUKE", "LEIA", 8)])
      == [LinkRef(0, 1, 8)]
  {
    var nodes := [Node("LUKE", 6, "#3881e5"), Node("LEIA", 7, "#dddddd")];
    assert IndexOfName(nodes, "LUKE") == 0;
    assert IndexOfName(nodes, "LEIA") == 1;
  }

  lemma LukeAndLeiaMergeAll()
    ensures MergeAll([EpisodeX, EpisodeY]) ==
      Merged(Graph([Node("LUKE", 6, "#3881e5"), Node("LEIA", 7, "#dddddd")], [LinkRef(0, 1, 8)]))
  {
    assert AllWellFormed([EpisodeX, EpisodeY]) by {
      assert WellFormed(EpisodeX) && WellFormed(EpisodeY);
    }
    LukeAndLeiaAllNodes();
    LukeAndLeiaAllLinks();
    LukeAndLeiaNodes();
    LukeAndLeiaLinks();
    LukeAndLeiaReindexed();
  }

  /** Merging both episodes yields LUKE weighing 6 and LEIA weighing 7, in
      that order and with the first episode's colours, and one link between
      them weighing 8. */
  lemma LukeAndLeiaMerge()
    ensures Merge([EpisodeX, EpisodeY], [1, 2]) ==
      Merged(Graph([Node("LUKE", 6, "#3881e5"), Node("LEIA", 7, "#dddddd")], [LinkRef(0, 1, 8)]))
  {
    LukeAndLeiaSelected();
    LukeAndLeiaMergeAll();
  }
}
