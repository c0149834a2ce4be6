/** The name-keyed node accumulator of the episode aggregator: an ordered
    list of first-seen node copies whose weights are summed per name. */
module NodeMerge {
  import opened EpisodeData

  /** Position of the first node called `name`, or -1 when there is none.
      This is both the accumulator's name lookup and the `findIndex` that
      re-expresses merged links as positions. */
  function IndexOfName(nodes: seq<Node>, name: string): (r: int)
    ensures -1 <= r < |nodes|
    ensures 0 <= r ==> nodes[r].name == name
    ensures forall k :: 0 <= k < |nodes| && (r == -1 || k < r) ==> nodes[k].name != name
  {
    if nodes == [] then -1
    else if nodes[0].name == name then 0
    else
      var k := IndexOfName(nodes[1..], name);
      if k == -1 then -1 else k + 1
  }

  /** One step of the node fold: add the weight to the stored node of the
      same name, or store `n` itself when the name is new. */
  function AddNode(acc: seq<Node>, n: Node): seq<Node> {
    var k := IndexOfName(acc, n.name);
    if k >= 0 then acc[k := acc[k].(value := acc[k].value + n.value)] else acc + [n]
  }

  /** The accumulator after folding every node of `ns`, in order. */
  function MergeNodes(ns: seq<Node>): seq<Node> {
    if ns == [] then [] else AddNode(MergeNodes(ns[..|ns| - 1]), ns[|ns| - 1])
  }

  /** Reference definition: the total weight of the nodes called `name`. */
  function NameTotal(ns: seq<Node>, name: string): int {
    if ns == [] then 0
    else NameTotal(ns[..|ns| - 1], name) + (if ns[|ns| - 1].name == name then ns[|ns| - 1].value else 0)
  }

  lemma IndexOfNameSnoc(ns: seq<Node>, x: Node, name: string)
    ensures IndexOfName(ns + [x], name) ==
      if IndexOfName(ns, name) >= 0 then IndexOfName(ns, name)
      else if x.name == name then |ns| else -1
  {
    var t := ns + [x];
    assert forall k :: 0 <= k < |ns| ==> t[k] == ns[k];
    assert t[|ns|] == x;
  }

  lemma {:induction false} NameTotalAbsent(ns: seq<Node>, name: string)
    requires IndexOfName(ns, name) == -1
    ensures NameTotal(ns, name) == 0
  {
    if ns != [] {
      var s := ns[..|ns| - 1];
      assert ns == s + [ns[|ns| - 1]];
      IndexOfNameSnoc(s, ns[|ns| - 1], name);
      NameTotalAbsent(s, name);
    }
  }

  lemma {:induction false} NodeSumUpdate(p: seq<Node>, k: nat, v: int)
    requires k < |p|
    ensures NodeSum(p[k := p[k].(value := v)]) == NodeSum(p) - p[k].value + v
  {
    var q := p[k := p[k].(value := v)];
    var n := |p| - 1;
    assert q[..n] == if k < n then p[..n][k := p[k].(value := v)] else p[..n];
    if k < n { NodeSumUpdate(p[..n], k, v); }
  }

  lemma NodeSumSnoc(p: seq<Node>, x: Node)
    ensures NodeSum(p + [x]) == NodeSum(p) + x.value
  {
    assert (p + [x])[..|p|] == p;
  }

  /** One step of the fold adds the node's weight to the total. */
  lemma AddNodeWeight(p: seq<Node>, x: Node)
    ensures NodeSum(AddNode(p, x)) == NodeSum(p) + x.value
  {
    var k := IndexOfName(p, x.name);
    if k >= 0 {
      NodeSumUpdate(p, k, p[k].value + x.value);
    } else {
      NodeSumSnoc(p, x);
    }
  }

  /** Folding conserves weight: the merged nodes weigh as much as all the
      nodes that went in. */
  lemma {:induction false} MergeNodesConservesWeight(ns: seq<Node>)
    ensures NodeSum(MergeNodes(ns)) == NodeSum(ns)
  {
    if ns != [] {
      var s, x := ns[..|ns| - 1], ns[|ns| - 1];
      MergeNodesConservesWeight(s);
      AddNodeWeight(MergeNodes(s), x);
      assert MergeNodes(ns) == AddNode(MergeNodes(s), x);
      assert NodeSum(ns) == NodeSum(s) + x.value;
    }
  }

  /** No two nodes of `r` share a name. */
  ghost predicate NamesDistinct(r: seq<Node>) {
    forall i, j :: 0 <= i < j < |r| ==> r[i].name != r[j].name
  }

  /** Each node of `r` is the first node of `ns` with its name, carrying
      the total weight of that name over `ns`. */
  ghost predicate FirstCopiesWithTotals(ns: seq<Node>, r: seq<Node>) {
    forall i :: 0 <= i < |r| ==>
      var f := IndexOfName(ns, r[i].name);
      0 <= f && r[i] == ns[f].(value := NameTotal(ns, ns[f].name))
  }

  /** The names of `r` appear in the order they are first seen in `ns`. */
  ghost predicate FirstSeenOrder(ns: seq<Node>, r: seq<Node>) {
    forall i, j :: 0 <= i < j < |r| ==> IndexOfName(ns, r[i].name) < IndexOfName(ns, r[j].name)
  }

  /** Every name of `ns` is present in `r`. */
  ghost predicate CoversNames(ns: seq<Node>, r: seq<Node>) {
    forall k {:trigger IndexOfName(r, ns[k].name)} :: 0 <= k < |ns| ==> IndexOfName(r, ns[k].name) >= 0
  }

  lemma IndexOfNameAppended(s: seq<Node>, x: Node)
    ensures forall name :: IndexOfName(s + [x], name) ==
                             if IndexOfName(s, name) >= 0 then IndexOfName(s, name) else if x.name == name then |s| else -1
  {
    forall name ensures IndexOfName(s + [x], name) ==
      if IndexOfName(s, name) >= 0 then IndexOfName(s, name) else if x.name == name then |s| else -1
    {
      IndexOfNameSnoc(s, x, name);
    }
  }

  /** The invariant of the node fold, for the nodes `ns` folded into `r`. */
  ghost predicate NodeFoldInvariant(ns: seq<Node>, r: seq<Node>) {
    NamesDistinct(r) && FirstCopiesWithTotals(ns, r) && FirstSeenOrder(ns, r) && CoversNames(ns, r)
  }

  lemma AbsentFromFolded(s: seq<Node>, p: seq<Node>, name: string)
    requires CoversNames(s, p) && IndexOfName(p, name) == -1
    ensures IndexOfName(s, name) == -1
  {
    forall t | 0 <= t < |s| ensures s[t].name != name {
      assert IndexOfName(p, s[t].name) >= 0;
    }
  }

  lemma StepNamesDistinct(s: seq<Node>, x: Node, p: seq<Node>)
    requires NodeFoldInvariant(s, p)
    ensures NamesDistinct(AddNode(p, x))
  {
    var k := IndexOfName(p, x.name);
    var r := AddNode(p, x);
    if k < 0 {
      forall i | 0 <= i < |p| ensures r[i].name != x.name {
        assert r[i] == p[i];
      }
    }
  }

  lemma NameTotalSnoc(s: seq<Node>, x: Node, name: string)
    ensures NameTotal(s + [x], name) == NameTotal(s, name) + if x.name == name then x.value else 0
  {
    assert (s + [x])[..|s|] == s;
  }

  /** Entry `i` of the accumulator after one more node still satisfies
      FirstCopiesWithTotals. */
  lemma StepFirstCopy(s: seq<Node>, x: Node, p: seq<Node>, i: nat)
    requires NamesDistinct(p) && FirstCopiesWithTotals(s, p) && CoversNames(s, p)
    requires i < |AddNode(p, x)|
    ensures var ns, r := s + [x], AddNode(p, x);
      var f := IndexOfName(ns, r[i].name);
      0 <= f && r[i] == ns[f].(value := NameTotal(ns, ns[f].name))
  {
    var ns, r := s + [x], AddNode(p, x);
    var k := IndexOfName(p, x.name);
    IndexOfNameSnoc(s, x, r[i].name);
    NameTotalSnoc(s, x, r[i].name);
    if i < |p| {
      var f := IndexOfName(s, p[i].name);
      assert 0 <= f && p[i] == s[f].(value := NameTotal(s, s[f].name));
      assert ns[f] == s[f];
      assert r[i].name == p[i].name;
      if i == k {
        assert r[i] == p[i].(value := p[i].value + x.value);
      } else {
        assert r[i] == p[i];
        assert p[i].name != x.name;
      }
    } else {
      AbsentFromFolded(s, p, x.name);
      NameTotalAbsent(s, x.name);
      assert ns[|s|] == x;
    }
  }

  lemma StepFirstCopies(s: seq<Node>, x: Node, p: seq<Node>)
    requires NamesDistinct(p) && FirstCopiesWithTotals(s, p) && CoversNames(s, p)
    ensures FirstCopiesWithTotals(s + [x], AddNode(p, x))
  {
    forall i | 0 <= i < |AddNode(p, x)|
      ensures var ns, r := s + [x], AddNode(p, x);
        var f := IndexOfName(ns, r[i].name);
        0 <= f && r[i] == ns[f].(value := NameTotal(ns, ns[f].name))
    {
      StepFirstCopy(s, x, p, i);
    }
  }

  lemma StepFirstSeenOrder(s: seq<Node>, x: Node, p: seq<Node>)
    requires NodeFoldInvariant(s, p)
    ensures FirstSeenOrder(s + [x], AddNode(p, x))
  {
    var ns, r := s + [x], AddNode(p, x);
    var k := IndexOfName(p, x.name);
    IndexOfNameAppended(s, x);
    if k < 0 {
      AbsentFromFolded(s, p, x.name);
      forall i, j | 0 <= i < j < |r| ensures IndexOfName(ns, r[i].name) < IndexOfName(ns, r[j].name) {
        if j == |p| {
          assert IndexOfName(ns, r[j].name) == |s|;
        }
      }
    }
  }

  lemma StepCoversNames(s: seq<Node>, x: Node, p: seq<Node>)
    requires NodeFoldInvariant(s, p)
    ensures CoversNames(s + [x], AddNode(p, x))
  {
    var ns, r := s + [x], AddNode(p, x);
    var k := IndexOfName(p, x.name);
    forall t | 0 <= t < |ns| ensures IndexOfName(r, ns[t].name) >= 0 {
      if t < |s| {
        assert ns[t] == s[t];
        var q := IndexOfName(p, s[t].name);
        assert r[q].name == s[t].name;
      } else if k >= 0 {
        assert r[k].name == x.name;
      } else {
        assert r[|p|].name == x.name;
      }
    }
  }

  /** What the merged node list is: one node per distinct name, in the
      order the names were first seen; each is the first node of that name
      with its weight replaced by the total over all nodes of that name;
      and every name that went in is present. */
  lemma {:induction false} MergeNodesCorrect(ns: seq<Node>)
    ensures NamesDistinct(MergeNodes(ns))
    ensures FirstCopiesWithTotals(ns, MergeNodes(ns))
    ensures FirstSeenOrder(ns, MergeNodes(ns))
    ensures CoversNames(ns, MergeNodes(ns))
  {
    if ns != [] {
      var s, x := ns[..|ns| - 1], ns[|ns| - 1];
      assert ns == s + [x];
      MergeNodesCorrect(s);
      var p := MergeNodes(s);
      StepNamesDistinct(s, x, p);
      StepFirstCopies(s, x, p);
      StepFirstSeenOrder(s, x, p);
      StepCoversNames(s, x, p);
    }
  }

  /** Dropping the last node keeps the names distinct, and the last node's
      name is then absent from the rest. */
  lemma NamesDistinctPrefix(ns: seq<Node>)
    requires NamesDistinct(ns) && ns != []
    ensures NamesDistinct(ns[..|ns| - 1])
    ensures IndexOfName(ns[..|ns| - 1], ns[|ns| - 1].name) == -1
  {
    var s, x := ns[..|ns| - 1], ns[|ns| - 1];
    forall i, j | 0 <= i < j < |s| ensures s[i].name != s[j].name {
      assert s[i] == ns[i] && s[j] == ns[j];
    }
    forall k | 0 <= k < |s| ensures s[k].name != x.name {
      assert s[k] == ns[k];
    }
  }

  /** Nodes whose names are already distinct merge to themselves. */
  lemma {:induction false} DistinctNodesMergeToThemselves(ns: seq<Node>)
    requires NamesDistinct(ns)
    ensures MergeNodes(ns) == ns
  {
    if ns != [] {
      var s, x := ns[..|ns| - 1], ns[|ns| - 1];
      assert MergeNodes(s) == s && IndexOfName(s, x.name) == -1 by {
        NamesDistinctPrefix(ns);
        DistinctNodesMergeToThemselves(s);
      }
      assert ns == s + [x];
      assert MergeNodes(ns) == AddNode(s, x);
    }
  }

  /** Among distinct names, the lookup of a node's name finds that node. */
  lemma IndexOfDistinctName(ns: seq<Node>, j: nat)
    requires NamesDistinct(ns) && j < |ns|
    ensures IndexOfName(ns, ns[j].name) == j
  {
  }
}
